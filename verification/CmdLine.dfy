/**
 The command line: what an application declares, and the token machine of `App::parse`.

 Subcommands live in an arena `cmds`; a subcommand is named by its index, and children come after
 their parents, so the declared tree is a forest. An option is named by its owner and its position in
 the owner's option list. Everything the parser changes is in `State`; `log` records what each
 iteration of the token loop did.
 */
module CmdLine {
  import opened Common

  datatype Owner = Root | Cmd(id: nat)

  datatype OptRef = OptRef(owner: Owner, index: nat)

  /**
   A declared option. `transform` is the transformer (None: it throws; the identity when there is
   none), `check` tells whether the checker lets a value pass, `convert` whether the setter does.
   */
  datatype OptionSpec = OptionSpec(names: seq<string>, positional: bool, flag: bool, required: bool, early: bool,
                                   superior: bool, hasDefault: bool, transform: string -> Option<string>,
                                   check: string -> bool, convert: string -> bool)

  datatype Group = Group(members: seq<OptRef>, min: int, max: int)

  datatype Command = Command(name: string, parent: Option<nat>, options: seq<OptionSpec>, subs: seq<nat>,
                             requiresSub: bool, groups: seq<Group>)

  datatype Error =
    | EmptyToken
    | UnknownOption(name: string)
    | MissingValue(name: string)
    | Unexpected(token: string)
    | Rejected(opt: OptRef)
    | MissingRequired(opt: OptRef)
    | NeedsSubcommand(path: string)
    | GroupBounds(owner: Owner, group: nat)

  /** One iteration of the token loop. `tokens` are the tokens it consumed. */
  datatype Action =
    | Enter(cmd: nat, tokens: seq<string>)
    | Named(opt: OptRef, name: string, raw: string, tokens: seq<string>)
    | Positional(opt: OptRef, tokens: seq<string>)

  datatype State = State(chain: seq<nat>, cursors: seq<nat>, appCursor: nat, foundCmds: set<nat>, used: set<OptRef>,
                         values: map<OptRef, string>, log: seq<Action>)

  datatype RunResult = Done(st: State) | Helped(about: Owner, st: State) | Failed(error: Error, st: State)

  predicate IsDash(token: string) {
    token != "" && token[0] == '-'
  }

  function Find(c: char, s: string): (r: nat)
    ensures r <= |s| && c !in s[..r]
    ensures r < |s| ==> s[r] == c
  {
    if s == "" then 0 else if s[0] == c then 0 else 1 + Find(c, s[1..])
  }

  /** The part of a dash token before its first '='. */
  function NameOf(token: string): (name: string)
    ensures '=' !in name && name <= token
    ensures name == token || token[|name|] == '='
  {
    token[..Find('=', token)]
  }

  /** The part after the first '=', if there is one. */
  function EqualsValue(token: string): (r: Option<string>)
    ensures r.Some? <==> '=' in token
    ensures r.Some? ==> token == NameOf(token) + "=" + r.value
  {
    var i := Find('=', token);
    if i < |token| then Some(token[i + 1..]) else None
  }

  /** The first option, if any, that lists `name` among its names. */
  function FindOption(name: string, options: seq<OptionSpec>): (r: Option<nat>)
    ensures r.Some? ==> r.value < |options| && name in options[r.value].names
    ensures r.Some? ==> forall i :: 0 <= i < r.value ==> name !in options[i].names
    ensures r.None? ==> forall i :: 0 <= i < |options| ==> name !in options[i].names
  {
    if options == [] then None
    else if name in options[0].names then Some(0)
    else match FindOption(name, options[1..])
      case Some(i) => Some(i + 1)
      case None => None
  }

  /** The position of the `n`-th positional option at or after position `from`. */
  function GetPositional(n: nat, options: seq<OptionSpec>, from: nat): (r: Option<nat>)
    requires from <= |options|
    ensures r.Some? ==> from <= r.value < |options| && options[r.value].positional
    decreases |options| - from
  {
    if from == |options| then None
    else if options[from].positional then
      if n == 0 then Some(from) else GetPositional(n - 1, options, from + 1)
    else GetPositional(n, options, from + 1)
  }

  /** The transformer takes the raw value, and checker and setter take what it makes of it. */
  predicate Passes(o: OptionSpec, raw: string) {
    && o.transform(raw).Some?
    && o.check(o.transform(raw).value) && o.convert(o.transform(raw).value)
  }

  /** `doToDoList` up to the point where the option counts as found: transform, check, convert. */
  function Accept(o: OptionSpec, raw: string): (r: Option<string>)
    ensures r.Some? <==> Passes(o, raw)
    ensures r.Some? ==> r == o.transform(raw)
  {
    match o.transform(raw)
    case None => None
    case Some(v) => if o.check(v) && o.convert(v) then Some(v) else None
  }

  /** The raw value a matched option gets, and how many further tokens it takes for that. */
  function ValueFor(o: OptionSpec, token: string, rest: seq<string>): Result<(string, nat), Error> {
    if o.flag then Ok(("true", 0))
    else if EqualsValue(token).Some? then Ok((EqualsValue(token).value, 0))
    else if rest == [] then Err(MissingValue(NameOf(token)))
    else if rest[0] == "" then Err(EmptyToken)
    else if rest[0][0] == '-' then Err(MissingValue(NameOf(token)))
    else Ok((rest[0], 1))
  }

  datatype Spec = Spec(autoHelp: bool, options: seq<OptionSpec>, subs: seq<nat>, groups: seq<Group>,
                       cmds: seq<Command>) {

    /** The subcommands form a forest, and `parent` and `subs` agree. */
    ghost predicate Valid() {
      && (forall k :: 0 <= k < |subs| ==> subs[k] < |cmds| && cmds[subs[k]].parent == None)
      && (forall p, k :: 0 <= p < |cmds| && 0 <= k < |cmds[p].subs| ==>
            p < cmds[p].subs[k] < |cmds| && cmds[cmds[p].subs[k]].parent == Some(p))
      && (forall c :: 0 <= c < |cmds| && cmds[c].parent.Some? ==> cmds[c].parent.value < c)
      && (forall g :: 0 <= g < |groups| ==> GroupRefs(groups[g]))
      && (forall c, g :: 0 <= c < |cmds| && 0 <= g < |cmds[c].groups| ==> GroupRefs(cmds[c].groups[g]))
    }

    ghost predicate GroupRefs(g: Group) {
      forall i :: 0 <= i < |g.members| ==> ValidRef(g.members[i])
    }

    predicate ValidOwner(o: Owner) {
      o.Cmd? ==> o.id < |cmds|
    }

    predicate ValidRef(r: OptRef) {
      ValidOwner(r.owner) && r.index < |OptionsOf(r.owner)|
    }

    function OptionsOf(o: Owner): seq<OptionSpec>
      requires ValidOwner(o)
    {
      if o.Root? then options else cmds[o.id].options
    }

    function Opt(r: OptRef): OptionSpec
      requires ValidRef(r)
    {
      OptionsOf(r.owner)[r.index]
    }

    /** The first of the given subcommands called `name`. */
    function FindCommand(name: string, ids: seq<nat>): (r: Option<nat>)
      requires forall k :: 0 <= k < |ids| ==> ids[k] < |cmds|
      ensures r.Some? ==> r.value in ids && r.value < |cmds| && cmds[r.value].name == name
      ensures r.None? ==> forall k :: 0 <= k < |ids| ==> cmds[ids[k]].name != name
    {
      if ids == [] then None
      else if cmds[ids[0]].name == name then Some(ids[0])
      else FindCommand(name, ids[1..])
    }

    /** The active chain leads from a top-level subcommand down, parent to child. */
    ghost predicate IsPath(chain: seq<nat>) {
      && (forall i :: 0 <= i < |chain| ==> chain[i] < |cmds|)
      && (chain != [] ==> chain[0] in subs)
      && (forall i :: 0 <= i < |chain| - 1 ==> chain[i + 1] in cmds[chain[i]].subs)
    }

    /** Subcommands that the next token may enter. */
    function Children(chain: seq<nat>): seq<nat>
      requires forall i :: 0 <= i < |chain| ==> chain[i] < |cmds|
    {
      if chain == [] then subs else cmds[chain[|chain| - 1]].subs
    }

    function Innermost(chain: seq<nat>): Owner {
      if chain == [] then Root else Cmd(chain[|chain| - 1])
    }

    /** Option lookup by name: innermost active subcommand first, the application last. */
    function Lookup(chain: seq<nat>, name: string): (r: Option<OptRef>)
      requires forall i :: 0 <= i < |chain| ==> chain[i] < |cmds|
      ensures r.Some? ==> ValidRef(r.value) && name in Opt(r.value).names
      ensures r.Some? && r.value.owner.Cmd? ==> r.value.owner.id in chain
      ensures r.Some? && r.value.owner.Root? ==> FindOption(name, options) == Some(r.value.index)
      ensures r.None? ==> FindOption(name, options) == None
    {
      if chain == [] then
        match FindOption(name, options)
        case Some(i) => Some(OptRef(Root, i))
        case None => None
      else
        var c := chain[|chain| - 1];
        match FindOption(name, cmds[c].options)
        case Some(i) => Some(OptRef(Cmd(c), i))
        case None => Lookup(chain[..|chain| - 1], name)
    }

    /**
     The level that takes the next positional token: the innermost of the first `depth` chain levels
     with a positional option left, |chain| for the application, None when no one has.
     */
    function PositionalLevel(st: State, depth: nat): (r: Option<nat>)
      requires depth <= |st.chain| == |st.cursors| && forall i :: 0 <= i < |st.chain| ==> st.chain[i] < |cmds|
      ensures r.Some? ==> r.value < depth || r.value == |st.chain|
      ensures r.Some? && r.value < |st.chain| ==>
        GetPositional(st.cursors[r.value], cmds[st.chain[r.value]].options, 0).Some?
      ensures r == Some(|st.chain|) ==> GetPositional(st.appCursor, options, 0).Some?
    {
      if depth == 0 then
        if GetPositional(st.appCursor, options, 0).Some? then Some(|st.chain|) else None
      else if GetPositional(st.cursors[depth - 1], cmds[st.chain[depth - 1]].options, 0).Some? then Some(depth - 1)
      else PositionalLevel(st, depth - 1)
    }

    // -------------------------------------------------------------------------------------------
    // The token loop
    // -------------------------------------------------------------------------------------------

    ghost predicate WellFormed(st: State) {
      IsPath(st.chain) && |st.cursors| == |st.chain|
    }

    function EnterStep(st: State, c: nat, token: string): State {
      st.(chain := st.chain + [c], cursors := st.cursors + [0], foundCmds := st.foundCmds + {c},
          log := st.log + [Enter(c, [token])])
    }

    function Record(st: State, a: Action, r: OptRef, value: string): State {
      st.(used := st.used + {r}, values := st.values[r := value], log := st.log + [a])
    }

    function NamedStep(st: State, toks: seq<string>): RunResult
      requires toks != [] && forall i :: 0 <= i < |st.chain| ==> st.chain[i] < |cmds|
    {
      var name := NameOf(toks[0]);
      match Lookup(st.chain, name)
      case None => Failed(UnknownOption(name), st)
      case Some(r) =>
        match ValueFor(Opt(r), toks[0], toks[1..])
        case Err(e) => Failed(e, st)
        case Ok((raw, extra)) =>
          match Accept(Opt(r), raw)
          case None => Failed(Rejected(r), st)
          case Some(v) => Done(Record(st, Named(r, name, raw, toks[..1 + extra]), r, v))
    }

    function PositionalStep(st: State, token: string): RunResult
      requires |st.chain| == |st.cursors| && forall i :: 0 <= i < |st.chain| ==> st.chain[i] < |cmds|
    {
      match PositionalLevel(st, |st.chain|)
      case None => Failed(Unexpected(token), st)
      case Some(lvl) =>
        var owner := if lvl < |st.chain| then Cmd(st.chain[lvl]) else Root;
        var n := if lvl < |st.chain| then st.cursors[lvl] else st.appCursor;
        var st' := if lvl < |st.chain| then st.(cursors := st.cursors[lvl := n + 1]) else st.(appCursor := n + 1);
        var r := OptRef(owner, GetPositional(n, OptionsOf(owner), 0).value);
        match Accept(Opt(r), token)
        case None => Failed(Rejected(r), st')
        case Some(v) => Done(Record(st', Positional(r, [token]), r, v))
    }

    /** One iteration of the loop over the tokens that are left. */
    function Step(st: State, toks: seq<string>): RunResult
      requires Valid() && WellFormed(st) && toks != []
    {
      var token := toks[0];
      if autoHelp && (token == "-h" || token == "--help") then Helped(Innermost(st.chain), st)
      else if token == "" then Failed(EmptyToken, st)
      else if IsDash(token) then NamedStep(st, toks)
      else match FindCommand(token, Children(st.chain))
        case Some(c) => Done(EnterStep(st, c, token))
        case None => PositionalStep(st, token)
    }

    /** The number of tokens the last logged action consumed. */
    static function LastTaken(st: State): nat {
      if st.log == [] then 0 else |st.log[|st.log| - 1].tokens|
    }

    lemma StepKeepsWellFormed(st: State, toks: seq<string>)
      requires Valid() && WellFormed(st) && toks != [] && Step(st, toks).Done?
      ensures WellFormed(Step(st, toks).st)
      ensures 1 <= LastTaken(Step(st, toks).st) <= |toks|
    {
      if IsDash(toks[0]) {
        hide Valid;
        hide IsPath;
        assert Step(st, toks) == NamedStep(st, toks);
      } else {
        match FindCommand(toks[0], Children(st.chain))
        case Some(c) => PathExtends(st.chain, c);
        case None => PositionalKeepsWellFormed(st, toks[0]);
      }
    }

    lemma PositionalKeepsWellFormed(st: State, token: string)
      requires WellFormed(st) && PositionalStep(st, token).Done?
      ensures WellFormed(PositionalStep(st, token).st)
      ensures LastTaken(PositionalStep(st, token).st) == 1
    {
    }

    lemma PathExtends(chain: seq<nat>, c: nat)
      requires IsPath(chain) && c in Children(chain) && c < |cmds|
      ensures IsPath(chain + [c])
    {
      var chain' := chain + [c];
      forall i | 0 <= i < |chain'| - 1
        ensures chain'[i + 1] in cmds[chain'[i]].subs
      {
        if i + 1 < |chain| {
          assert chain[i + 1] in cmds[chain[i]].subs;
        }
      }
    }

    function Loop(st: State, toks: seq<string>): RunResult
      requires Valid() && WellFormed(st)
      decreases |toks|
    {
      if toks == [] then Done(st)
      else
        match Step(st, toks)
        case Done(st') =>
          StepKeepsWellFormed(st, toks);
          Loop(st', toks[LastTaken(st')..])
        case stop => stop
    }

    lemma LoopUnfolds(st: State, toks: seq<string>)
      requires Valid() && WellFormed(st)
      ensures toks == [] ==> Loop(st, toks) == Done(st)
      ensures toks != [] && !Step(st, toks).Done? ==> Loop(st, toks) == Step(st, toks)
      ensures toks != [] && Step(st, toks).Done? ==>
        var st' := Step(st, toks).st;
        WellFormed(st') && 1 <= LastTaken(st') <= |toks| && Loop(st, toks) == Loop(st', toks[LastTaken(st')..])
    {
      if toks != [] && Step(st, toks).Done? {
        StepKeepsWellFormed(st, toks);
      }
    }

    /** Where `parse` starts: no active subcommand, cursors at zero, options and flags as they were left. */
    static function Start(foundCmds: set<nat>, used: set<OptRef>, values: map<OptRef, string>): State {
      State([], [], 0, foundCmds, used, values, [])
    }
  }
}
