/** The application object: `parse` and `parse_earlies` as they run, and what a normal return means. */
module CmdLineApp {
  import opened Common
  import opened CmdLine
  import opened CmdLineRun
  import opened CmdLineEarly

  // ---------------------------------------------------------------------------------------------
  // What the checks after the token loop demand
  // ---------------------------------------------------------------------------------------------

  predicate RequiredUsed(options: seq<OptionSpec>, owner: Owner, used: set<OptRef>) {
    forall i :: 0 <= i < |options| && options[i].required ==> OptRef(owner, i) in used
  }

  function UsedCount(members: seq<OptRef>, used: set<OptRef>): nat {
    if members == [] then 0
    else UsedCount(members[..|members| - 1], used) + if members[|members| - 1] in used then 1 else 0
  }

  /** The members used, each counted as often as it is listed. */
  lemma {:induction false} UsedCountIs(members: seq<OptRef>, used: set<OptRef>)
    ensures UsedCount(members, used) == |set i | 0 <= i < |members| && members[i] in used|
  {
    var now := set i | 0 <= i < |members| && members[i] in used;
    if members != [] {
      var n := |members| - 1;
      var before := set i | 0 <= i < n && members[..n][i] in used;
      UsedCountIs(members[..n], used);
      assert now == if members[n] in used then before + {n} else before;
    }
  }

  predicate InBounds(g: Group, used: set<OptRef>) {
    && (g.min > 0 ==> g.min <= UsedCount(g.members, used))
    && (g.max >= 0 ==> UsedCount(g.members, used) <= g.max)
  }

  /** A superior option of the subcommand itself is used. */
  predicate OwnSuperior(sp: Spec, c: nat, used: set<OptRef>)
    requires c < |sp.cmds|
  {
    exists i :: 0 <= i < |sp.cmds[c].options| && sp.cmds[c].options[i].superior && OptRef(Cmd(c), i) in used
  }

  /** A superior option of the subcommand or of one nested in it is used. */
  predicate AnySuperior(sp: Spec, c: nat, used: set<OptRef>)
    requires sp.Valid() && c < |sp.cmds|
    decreases |sp.cmds| - c
  {
    OwnSuperior(sp, c, used) || exists k :: 0 <= k < |sp.cmds[c].subs| && AnySuperior(sp, sp.cmds[c].subs[k], used)
  }

  /** The demands on level `i` of the active chain. A used superior option at or below it lifts the first two. */
  ghost predicate LevelOk(sp: Spec, chain: seq<nat>, i: nat, used: set<OptRef>)
    requires sp.Valid() && i < |chain| && chain[i] < |sp.cmds|
  {
    var c := chain[i];
    && (sp.cmds[c].requiresSub && !AnySuperior(sp, c, used) ==> i + 1 < |chain|)
    && (!AnySuperior(sp, c, used) ==> RequiredUsed(sp.cmds[c].options, Cmd(c), used))
    && (forall g :: 0 <= g < |sp.cmds[c].groups| ==> InBounds(sp.cmds[c].groups[g], used))
  }

  ghost predicate RootOk(sp: Spec, used: set<OptRef>) {
    && RequiredUsed(sp.options, Root, used)
    && forall g :: 0 <= g < |sp.groups| ==> InBounds(sp.groups[g], used)
  }

  /** `r` is an unused option with a default, among the first `n` of `owner`. */
  predicate Due(sp: Spec, used: set<OptRef>, owner: Owner, n: nat, r: OptRef) {
    r.owner == owner && r.index < n && sp.ValidRef(r) && sp.Opt(r).hasDefault && r !in used
  }

  predicate Converts(o: OptionSpec, default: string) {
    o.transform(default).Some? && o.convert(o.transform(default).value)
  }

  /** The defaults due at `owner`, among its first `n` options, can be transformed and set. */
  ghost predicate DefaultsConvert(sp: Spec, used: set<OptRef>, owner: Owner, n: nat, defaults: map<OptRef, string>) {
    forall r :: Due(sp, used, owner, n, r) ==> r in defaults && Converts(sp.Opt(r), defaults[r])
  }

  /** The current default values and the last values set, option by option. */
  datatype Settings = Settings(defaults: map<OptRef, string>, values: map<OptRef, string>)

  ghost predicate SameAt<T>(m: map<OptRef, T>, m': map<OptRef, T>, r: OptRef) {
    (r in m <==> r in m') && (r in m ==> m[r] == m'[r])
  }

  ghost predicate SameSettings(s: Settings, s': Settings, r: OptRef) {
    SameAt(s.defaults, s'.defaults, r) && SameAt(s.values, s'.values, r)
  }

  /** Exactly the defaults due at `owner` have been transformed in place and set. */
  ghost predicate Applied(sp: Spec, used: set<OptRef>, owner: Owner, n: nat, s: Settings, s': Settings) {
    forall r :: AppliedAt(sp, Due(sp, used, owner, n, r), r, s, s')
  }

  ghost predicate AppliedAt(sp: Spec, due: bool, r: OptRef, s: Settings, s': Settings) {
    if due then
      && sp.ValidRef(r) && r in s.defaults && Converts(sp.Opt(r), s.defaults[r])
      && var v := sp.Opt(r).transform(s.defaults[r]).value;
         r in s'.defaults && r in s'.values && s'.defaults[r] == v && s'.values[r] == v
    else SameSettings(s, s', r)
  }

  /** `r` belongs to the application or to a subcommand in `chain`, is unused, and has a default. */
  predicate DueInScope(sp: Spec, used: set<OptRef>, chain: seq<nat>, r: OptRef) {
    && sp.ValidRef(r) && sp.Opt(r).hasDefault && r !in used
    && (r.owner.Cmd? ==> r.owner.id in chain)
  }

  /** Exactly the defaults due in the application and the subcommands of `chain` have been transformed and set. */
  ghost predicate AppliedInScope(sp: Spec, used: set<OptRef>, chain: seq<nat>, s: Settings, s': Settings) {
    forall r :: AppliedAt(sp, DueInScope(sp, used, chain, r), r, s, s')
  }

  lemma RootInScope(sp: Spec, used: set<OptRef>, s: Settings, s': Settings)
    requires Applied(sp, used, Root, |sp.options|, s, s')
    ensures AppliedInScope(sp, used, [], s, s')
  {
    forall r
      ensures AppliedAt(sp, DueInScope(sp, used, [], r), r, s, s')
    {
      assert AppliedAt(sp, Due(sp, used, Root, |sp.options|, r), r, s, s');
    }
  }

  lemma AppliedToOneMore(sp: Spec, used: set<OptRef>, chain: seq<nat>, c: nat, s: Settings, s': Settings, s'': Settings)
    requires c !in chain && c < |sp.cmds|
    requires AppliedInScope(sp, used, chain, s, s')
    requires Applied(sp, used, Cmd(c), |sp.cmds[c].options|, s', s'')
    ensures AppliedInScope(sp, used, chain + [c], s, s'')
  {
    forall r
      ensures AppliedAt(sp, DueInScope(sp, used, chain + [c], r), r, s, s'')
    {
      assert AppliedAt(sp, DueInScope(sp, used, chain, r), r, s, s');
      assert AppliedAt(sp, Due(sp, used, Cmd(c), |sp.cmds[c].options|, r), r, s', s'');
    }
  }

  lemma ConvertUnchanged(sp: Spec, used: set<OptRef>, chain: seq<nat>, c: nat, s: Settings, s': Settings)
    requires c !in chain && c < |sp.cmds| && AppliedInScope(sp, used, chain, s, s')
    ensures var n := |sp.cmds[c].options|;
      DefaultsConvert(sp, used, Cmd(c), n, s'.defaults) <==> DefaultsConvert(sp, used, Cmd(c), n, s.defaults)
  {
    var n := |sp.cmds[c].options|;
    forall r | Due(sp, used, Cmd(c), n, r)
      ensures SameAt(s.defaults, s'.defaults, r)
    {
      assert AppliedAt(sp, DueInScope(sp, used, chain, r), r, s, s');
    }
  }

  lemma NothingApplied(sp: Spec, used: set<OptRef>, owner: Owner, s: Settings)
    ensures Applied(sp, used, owner, 0, s, s) && DefaultsConvert(sp, used, owner, 0, s.defaults)
  {
  }

  /** The `n`-th option of the owner, when its default is due, is set to the transformed default. */
  lemma AppliedNext(sp: Spec, used: set<OptRef>, owner: Owner, n: nat, s: Settings, s': Settings, s'': Settings)
    requires Applied(sp, used, owner, n, s, s') && sp.ValidRef(OptRef(owner, n))
    requires AppliedAt(sp, Due(sp, used, owner, n + 1, OptRef(owner, n)), OptRef(owner, n), s', s'')
    requires forall r :: r != OptRef(owner, n) ==> SameSettings(s', s'', r)
    ensures Applied(sp, used, owner, n + 1, s, s'')
  {
    var n' := n + 1;
    forall r
      ensures AppliedAt(sp, Due(sp, used, owner, n', r), r, s, s'')
    {
      assert AppliedAt(sp, Due(sp, used, owner, n, r), r, s, s');
      assert r != OptRef(owner, n) ==> SameSettings(s', s'', r);
    }
  }

  lemma ConvertNext(sp: Spec, used: set<OptRef>, owner: Owner, n: nat, s: Settings, s': Settings)
    requires Applied(sp, used, owner, n, s, s') && sp.ValidRef(OptRef(owner, n))
    requires DefaultsConvert(sp, used, owner, n, s.defaults)
    ensures var r := OptRef(owner, n);
      DefaultsConvert(sp, used, owner, n + 1, s.defaults) <==>
        (Due(sp, used, owner, n + 1, r) ==> r in s'.defaults && Converts(sp.Opt(r), s'.defaults[r]))
  {
    assert AppliedAt(sp, Due(sp, used, owner, n, OptRef(owner, n)), OptRef(owner, n), s, s');
  }

  lemma NotYetApplied(sp: Spec, used: set<OptRef>, owner: Owner, n: nat, s: Settings, s': Settings)
    requires Applied(sp, used, owner, n, s, s')
    ensures SameAt(s.defaults, s'.defaults, OptRef(owner, n))
  {
    assert AppliedAt(sp, Due(sp, used, owner, n, OptRef(owner, n)), OptRef(owner, n), s, s');
  }

  lemma ConvertFewer(sp: Spec, used: set<OptRef>, owner: Owner, n: nat, n': nat, defaults: map<OptRef, string>)
    requires n <= n' && DefaultsConvert(sp, used, owner, n', defaults)
    ensures DefaultsConvert(sp, used, owner, n, defaults)
  {
    forall r | Due(sp, used, owner, n, r)
      ensures r in defaults && Converts(sp.Opt(r), defaults[r])
    {
      assert Due(sp, used, owner, n', r);
    }
  }

  /** Level `i` of the chain meets its demands and its due defaults can be set. */
  ghost predicate LevelSettled(sp: Spec, chain: seq<nat>, i: nat, used: set<OptRef>, defaults: map<OptRef, string>)
    requires sp.Valid() && i < |chain| && chain[i] < |sp.cmds|
  {
    && LevelOk(sp, chain, i, used)
    && DefaultsConvert(sp, used, Cmd(chain[i]), |sp.cmds[chain[i]].options|, defaults)
  }

  /** Exactly when the checks after the token loop let `parse` return. */
  ghost predicate NormalReturn(sp: Spec, chain: seq<nat>, used: set<OptRef>, defaults: map<OptRef, string>)
    requires sp.Valid() && forall i :: 0 <= i < |chain| ==> chain[i] < |sp.cmds|
  {
    && RootOk(sp, used) && DefaultsConvert(sp, used, Root, |sp.options|, defaults)
    && forall i :: 0 <= i < |chain| ==> LevelSettled(sp, chain, i, used, defaults)
  }

  /** The space-separated names from the top-level subcommand down to `c`. */
  function FullPath(sp: Spec, c: nat): string
    requires sp.Valid() && c < |sp.cmds|
    decreases c
  {
    if sp.cmds[c].parent.Some? then FullPath(sp, sp.cmds[c].parent.value) + " " + sp.cmds[c].name else sp.cmds[c].name
  }

  function GroupsOf(sp: Spec, owner: Owner): seq<Group>
    requires sp.ValidOwner(owner)
  {
    if owner.Root? then sp.groups else sp.cmds[owner.id].groups
  }

  /** The error names a demand that really is not met, of the application or of an active subcommand. */
  ghost predicate Blames(sp: Spec, chain: seq<nat>, used: set<OptRef>, defaults: map<OptRef, string>, e: Error)
    requires sp.Valid() && forall i :: 0 <= i < |chain| ==> chain[i] < |sp.cmds|
  {
    match e
    case MissingRequired(r) =>
      && sp.ValidRef(r) && sp.Opt(r).required && r !in used
      && (r.owner.Cmd? ==> r.owner.id in chain && !AnySuperior(sp, r.owner.id, used))
    case NeedsSubcommand(path) =>
      && chain != []
      && var c := chain[|chain| - 1];
         sp.cmds[c].requiresSub && !AnySuperior(sp, c, used) && path == FullPath(sp, c)
    case GroupBounds(owner, g) =>
      && sp.ValidOwner(owner) && (owner.Cmd? ==> owner.id in chain)
      && g < |GroupsOf(sp, owner)| && !InBounds(GroupsOf(sp, owner)[g], used)
    case Rejected(r) =>
      && DueInScope(sp, used, chain, r)
      && !(r in defaults && Converts(sp.Opt(r), defaults[r]))
    case _ => false
  }

  /** What is wrong with a level's defaults was wrong before the levels above it were settled. */
  lemma BlameEarlier(sp: Spec, used: set<OptRef>, chain: seq<nat>, i: nat, s: Settings, s': Settings, e: Error)
    requires sp.Valid() && i < |chain| && forall j :: 0 <= j < |chain| ==> chain[j] < |sp.cmds|
    requires chain[i] !in chain[..i] && AppliedInScope(sp, used, chain[..i], s, s')
    requires Blames(sp, chain, used, s'.defaults, e) && (e.Rejected? ==> e.opt.owner == Cmd(chain[i]))
    ensures Blames(sp, chain, used, s.defaults, e)
  {
    if e.Rejected? {
      assert AppliedAt(sp, DueInScope(sp, used, chain[..i], e.opt), e.opt, s, s');
    }
  }

  ghost predicate EarliesUsed(sp: Spec, used: set<OptRef>) {
    forall i :: 0 <= i < |sp.options| && sp.options[i].required && sp.options[i].early ==> OptRef(Root, i) in used
  }

  /** The first pass gets through: its token loop ended, required early options are used, due defaults can be set. */
  ghost predicate FirstPasses(sp: Spec, first: RunResult, defaults: map<OptRef, string>) {
    && first.Done? && EarliesUsed(sp, first.st.used)
    && DefaultsConvert(sp, first.st.used, Root, |sp.options|, defaults)
  }

  /**
   What both passes make of the default of the application's `i`-th option. Used in the first pass, it
   stays; used only in the second, it has been transformed once; unused in both, it has been transformed
   twice, and so is the value set, which is therefore the default transformed once only if a second
   transformation changes nothing.
   */
  ghost predicate DefaultFate(sp: Spec, i: nat, usedFirst: set<OptRef>, used: set<OptRef>, before: map<OptRef, string>,
                              defaults: map<OptRef, string>, values: map<OptRef, string>)
    requires i < |sp.options|
  {
    var r, t := OptRef(Root, i), sp.options[i].transform;
    && r in before && r in defaults
    && if r in usedFirst then defaults[r] == before[r]
       else if r in used then t(before[r]) == Some(defaults[r])
       else
         && r in values && t(before[r]).Some? && t(t(before[r]).value) == Some(values[r]) && defaults[r] == values[r]
         && (Some(values[r]) == t(before[r]) <==> t(t(before[r]).value) == t(before[r]))
  }

  lemma FateOf(sp: Spec, i: nat, usedFirst: set<OptRef>, used: set<OptRef>, chain: seq<nat>, s: Settings, s': Settings,
               vals: map<OptRef, string>, s'': Settings)
    requires i < |sp.options| && sp.options[i].hasDefault && OptRef(Root, i) in s.defaults && usedFirst <= used
    requires Applied(sp, usedFirst, Root, |sp.options|, s, s')
    requires AppliedInScope(sp, used, chain, Settings(s'.defaults, vals), s'')
    ensures DefaultFate(sp, i, usedFirst, used, s.defaults, s''.defaults, s''.values)
  {
    var r := OptRef(Root, i);
    assert AppliedAt(sp, Due(sp, usedFirst, Root, |sp.options|, r), r, s, s');
    assert AppliedAt(sp, DueInScope(sp, used, chain, r), r, Settings(s'.defaults, vals), s'');
  }

  /** The chain a finished token loop hands on, from any earlier state of the flags. */
  lemma ChainOfRun(sp: Spec, st: State, args: seq<string>)
    requires sp.Valid() && st == Spec.Start(st.foundCmds, st.used, st.values) && sp.Loop(st, args).Done?
    ensures RunInv(sp, sp.Loop(st, args).st, st.foundCmds, st.used, args)
    ensures sp.IsPath(sp.Loop(st, args).st.chain) && Increasing(sp.Loop(st, args).st.chain)
  {
    StartKeeps(sp, st);
    hide Spec.Loop;
    hide CursorInv;
    hide UsedInv;
    LoopKeeps(sp, st, args, st.foundCmds, st.used, []);
    assert [] + args == args;
  }

  lemma UsedGrows(sp: Spec, st: State, args: seq<string>)
    requires sp.Valid() && st == Spec.Start(st.foundCmds, st.used, st.values) && sp.Loop(st, args).Done?
    ensures st.used <= sp.Loop(st, args).st.used
  {
    ChainOfRun(sp, st, args);
  }

  // ---------------------------------------------------------------------------------------------
  // What the queries mean on a run
  // ---------------------------------------------------------------------------------------------

  /** Whoever has a used superior option at or below `c` comes at or after `c` in the arena. */
  lemma {:induction false} AnySuperiorWitness(sp: Spec, c: nat, used: set<OptRef>) returns (d: nat)
    requires sp.Valid() && c < |sp.cmds| && AnySuperior(sp, c, used)
    ensures c <= d < |sp.cmds| && OwnSuperior(sp, d, used)
    decreases |sp.cmds| - c
  {
    if OwnSuperior(sp, c, used) {
      d := c;
    } else {
      var k :| 0 <= k < |sp.cmds[c].subs| && AnySuperior(sp, sp.cmds[c].subs[k], used);
      d := AnySuperiorWitness(sp, sp.cmds[c].subs[k], used);
    }
  }

  lemma {:induction false} SuperiorBelow(sp: Spec, chain: seq<nat>, i: nat, j: nat, used: set<OptRef>)
    requires sp.Valid() && sp.IsPath(chain) && i <= j < |chain| && OwnSuperior(sp, chain[j], used)
    ensures AnySuperior(sp, chain[i], used)
    decreases j - i
  {
    if i < j {
      SuperiorBelow(sp, chain, i + 1, j, used);
      assert chain[i + 1] in sp.cmds[chain[i]].subs;
      var k :| 0 <= k < |sp.cmds[chain[i]].subs| && sp.cmds[chain[i]].subs[k] == chain[i + 1];
    }
  }

  /** Option `k` of the subcommand at level `j` is a superior option and is used. */
  predicate SuperiorAt(sp: Spec, chain: seq<nat>, j: int, k: int, used: set<OptRef>) {
    && 0 <= j < |chain| && chain[j] < |sp.cmds| && 0 <= k < |sp.cmds[chain[j]].options|
    && sp.cmds[chain[j]].options[k].superior && OptRef(Cmd(chain[j]), k) in used
  }

  /**
   What waives the demands on an active subcommand: after a run that began with no subcommand option
   used, some superior option below it is used exactly when one of an active subcommand at its own
   level or deeper in the chain is.
   */
  lemma WaivedMeans(sp: Spec, st: State, args: seq<string>, i: nat)
    requires sp.Valid() && st == Spec.Start({}, st.used, st.values) && sp.Loop(st, args).Done?
    requires forall r :: r in st.used ==> r.owner.Root?
    requires i < |sp.Loop(st, args).st.chain|
    ensures var end := sp.Loop(st, args).st;
      && sp.IsPath(end.chain)
      && (AnySuperior(sp, end.chain[i], end.used) <==>
            exists j, k :: i <= j < |end.chain| && SuperiorAt(sp, end.chain, j, k, end.used))
  {
    ChainOfRun(sp, st, args);
    var end := sp.Loop(st, args).st;
    hide Spec.Loop;
    if AnySuperior(sp, end.chain[i], end.used) {
      var d := AnySuperiorWitness(sp, end.chain[i], end.used);
      var k :| 0 <= k < |sp.cmds[d].options| && sp.cmds[d].options[k].superior && OptRef(Cmd(d), k) in end.used;
      assert d in end.chain;
      var j :| 0 <= j < |end.chain| && end.chain[j] == d;
      assert SuperiorAt(sp, end.chain, j, k, end.used);
    }
    if j, k :| i <= j < |end.chain| && SuperiorAt(sp, end.chain, j, k, end.used) {
      SuperiorBelow(sp, end.chain, i, j, end.used);
    }
  }

  /**
   The path in the error message spells the active chain down to the subcommand it is about: a top-level
   subcommand's name alone, and below that the path so far, a space and the name.
   */
  lemma FullPathSpellsChain(sp: Spec, chain: seq<nat>)
    requires sp.Valid() && sp.IsPath(chain) && chain != []
    ensures FullPath(sp, chain[0]) == sp.cmds[chain[0]].name
    ensures forall i :: 0 <= i < |chain| - 1 ==>
      FullPath(sp, chain[i + 1]) == FullPath(sp, chain[i]) + " " + sp.cmds[chain[i + 1]].name
  {
    forall i | 0 <= i < |chain| - 1
      ensures sp.cmds[chain[i + 1]].parent == Some(chain[i])
    {
      assert chain[i + 1] in sp.cmds[chain[i]].subs;
    }
  }

  /** The number of listed members that are used lies within the bounds that are set. */
  ghost predicate Within(g: Group, used: set<OptRef>) {
    var n := |set i | 0 <= i < |g.members| && g.members[i] in used|;
    (g.min > 0 ==> g.min <= n) && (g.max >= 0 ==> n <= g.max)
  }

  /** Of the options of one owner: the required ones are used, or `waived`. */
  ghost predicate UsedIfRequired(options: seq<OptionSpec>, owner: Owner, waived: bool, used: set<OptRef>) {
    forall i :: 0 <= i < |options| && options[i].required && OptRef(owner, i) !in used ==> waived
  }

  /** Of the options of one owner: those unused with a default have one that can be transformed and set. */
  ghost predicate DefaultsUsable(options: seq<OptionSpec>, owner: Owner, used: set<OptRef>,
                                 defaults: map<OptRef, string>) {
    forall i :: 0 <= i < |options| && options[i].hasDefault && OptRef(owner, i) !in used ==>
      && OptRef(owner, i) in defaults
      && options[i].transform(defaults[OptRef(owner, i)]).Some?
      && options[i].convert(options[i].transform(defaults[OptRef(owner, i)]).value)
  }

  lemma DefaultsConvertMeans(sp: Spec, used: set<OptRef>, owner: Owner, defaults: map<OptRef, string>)
    requires sp.ValidOwner(owner)
    ensures var options := if owner.Root? then sp.options else sp.cmds[owner.id].options;
      && options == sp.OptionsOf(owner)
      && (DefaultsConvert(sp, used, owner, |options|, defaults) <==> DefaultsUsable(options, owner, used, defaults))
  {
    var options := sp.OptionsOf(owner);
    if DefaultsConvert(sp, used, owner, |options|, defaults) {
      forall i | 0 <= i < |options| && options[i].hasDefault && OptRef(owner, i) !in used
        ensures OptRef(owner, i) in defaults && Converts(options[i], defaults[OptRef(owner, i)])
      {
        assert Due(sp, used, owner, |options|, OptRef(owner, i));
      }
    }
    if DefaultsUsable(options, owner, used, defaults) {
      forall r | Due(sp, used, owner, |options|, r)
        ensures r in defaults && Converts(sp.Opt(r), defaults[r])
      {
        assert r == OptRef(owner, r.index);
      }
    }
  }

  lemma BoundsMean(groups: seq<Group>, used: set<OptRef>)
    ensures (forall g :: 0 <= g < |groups| ==> InBounds(groups[g], used)) <==>
              (forall g :: 0 <= g < |groups| ==> Within(groups[g], used))
  {
    forall g | 0 <= g < |groups|
      ensures InBounds(groups[g], used) <==> Within(groups[g], used)
    {
      UsedCountIs(groups[g].members, used);
    }
  }

  /** What an active subcommand demands. A superior option used below it lifts the first two demands. */
  ghost predicate LevelDemands(sp: Spec, chain: seq<nat>, i: nat, used: set<OptRef>, defaults: map<OptRef, string>)
    requires sp.Valid() && i < |chain| && chain[i] < |sp.cmds|
  {
    var c, waived := sp.cmds[chain[i]], AnySuperior(sp, chain[i], used);
    && (c.requiresSub && i + 1 == |chain| ==> waived)
    && UsedIfRequired(c.options, Cmd(chain[i]), waived, used)
    && (forall g :: 0 <= g < |c.groups| ==> Within(c.groups[g], used))
    && DefaultsUsable(c.options, Cmd(chain[i]), used, defaults)
  }

  lemma LevelMeans(sp: Spec, chain: seq<nat>, i: nat, used: set<OptRef>, defaults: map<OptRef, string>)
    requires sp.Valid() && i < |chain| && chain[i] < |sp.cmds|
    ensures LevelSettled(sp, chain, i, used, defaults) <==> LevelDemands(sp, chain, i, used, defaults)
  {
    hide Spec.Valid;
    BoundsMean(sp.cmds[chain[i]].groups, used);
    DefaultsConvertMeans(sp, used, Cmd(chain[i]), defaults);
    hide InBounds;
    hide Within;
    hide DefaultsConvert;
    hide DefaultsUsable;
    hide AnySuperior;
  }

  /**
   The meaning of a normal return, demand by demand: of the application, and of every subcommand on the
   active chain.
   */
  lemma NormalReturnMeans(sp: Spec, chain: seq<nat>, used: set<OptRef>, defaults: map<OptRef, string>)
    requires sp.Valid() && forall i :: 0 <= i < |chain| ==> chain[i] < |sp.cmds|
    ensures NormalReturn(sp, chain, used, defaults) <==>
              && UsedIfRequired(sp.options, Root, false, used)
              && (forall g :: 0 <= g < |sp.groups| ==> Within(sp.groups[g], used))
              && DefaultsUsable(sp.options, Root, used, defaults)
              && forall i :: 0 <= i < |chain| ==> LevelDemands(sp, chain, i, used, defaults)
  {
    BoundsMean(sp.groups, used);
    DefaultsConvertMeans(sp, used, Root, defaults);
    forall i | 0 <= i < |chain|
      ensures LevelSettled(sp, chain, i, used, defaults) <==> LevelDemands(sp, chain, i, used, defaults)
    {
      LevelMeans(sp, chain, i, used, defaults);
    }
    hide Spec.Valid;
    hide InBounds;
    hide Within;
    hide DefaultsConvert;
    hide DefaultsUsable;
    hide LevelSettled;
    hide LevelDemands;
  }

  // ---------------------------------------------------------------------------------------------
  // The application
  // ---------------------------------------------------------------------------------------------

  datatype ParseResult = Parsed | HelpShown(about: Owner) | Thrown(error: Error)

  /** What the caller sees of a run of the token loop. */
  function Seen(r: RunResult): ParseResult {
    match r
    case Done(_) => Parsed
    case Helped(about, _) => HelpShown(about)
    case Failed(e, _) => Thrown(e)
  }

  class App {
    const sp: Spec
    var foundCmds: set<nat>
    var used: set<OptRef>
    var values: map<OptRef, string>
    var defaults: map<OptRef, string>

    ghost predicate Valid()
      reads this
    {
      sp.Valid() && forall r :: sp.ValidRef(r) && sp.Opt(r).hasDefault ==> r in defaults
    }

    /** Whether the fields are those of run state `st`. */
    ghost predicate Holds(st: State)
      reads this
    {
      foundCmds == st.foundCmds && used == st.used && values == st.values
    }

    constructor (sp: Spec, defaults: map<OptRef, string>)
      requires sp.Valid() && forall r :: sp.ValidRef(r) && sp.Opt(r).hasDefault ==> r in defaults
      ensures Valid() && this.sp == sp && this.defaults == defaults
      ensures foundCmds == {} && used == {} && values == map[]
    {
      this.sp, this.defaults := sp, defaults;
      foundCmds, used, values := {}, {}, map[];
    }

    /** `doToDoList`: an option counts as found only when its value went through. */
    method DoToDoList(r: OptRef, raw: string) returns (ok: bool)
      requires sp.ValidRef(r)
      modifies this`used, this`values
      ensures var o := sp.Opt(r);
        && (ok <==> o.transform(raw).Some? && o.check(o.transform(raw).value) && o.convert(o.transform(raw).value))
        && (ok ==> used == old(used) + {r} && values == old(values)[r := o.transform(raw).value])
      ensures !ok ==> used == old(used) && values == old(values)
    {
      var v := sp.Opt(r).transform(raw);
      if v.None? || !sp.Opt(r).check(v.value) || !sp.Opt(r).convert(v.value) {
        return false;
      }
      values := values[r := v.value];
      used := used + {r};
      return true;
    }

    /** Innermost-first lookup along the active chain. */
    method FindInChain(chain: seq<nat>, name: string) returns (matched: Option<OptRef>)
      requires forall i :: 0 <= i < |chain| ==> chain[i] < |sp.cmds|
      ensures matched == sp.Lookup(chain, name)
    {
      hide FindOption;
      matched := None;
      var k := |chain|;
      assert chain[..k] == chain;
      while k > 0 && matched.None?
        invariant 0 <= k <= |chain|
        invariant sp.Lookup(chain, name) == if matched.Some? then matched else sp.Lookup(chain[..k], name)
      {
        assert chain[..k][..k - 1] == chain[..k - 1];
        k := k - 1;
        var i := FindOption(name, sp.cmds[chain[k]].options);
        if i.Some? {
          matched := Some(OptRef(Cmd(chain[k]), i.value));
        }
      }
      if matched.None? {
        var i := FindOption(name, sp.options);
        if i.Some? {
          matched := Some(OptRef(Root, i.value));
        }
      }
    }

    /** The positional option a token goes to, and the cursors after it: innermost level first, the application last. */
    method TakePositional(chain: seq<nat>, cursors: seq<nat>, appCursor: nat, ghost st: State)
      returns (taken: Option<OptRef>, cursors': seq<nat>, appCursor': nat)
      requires st.chain == chain && st.cursors == cursors && st.appCursor == appCursor
      requires |chain| == |cursors| && forall i :: 0 <= i < |chain| ==> chain[i] < |sp.cmds|
      ensures var lvl := sp.PositionalLevel(st, |chain|);
        if lvl.None? then taken.None? && cursors' == cursors && appCursor' == appCursor
        else if lvl.value < |chain| then
          && taken == Some(OptRef(Cmd(chain[lvl.value]),
                                  GetPositional(cursors[lvl.value], sp.cmds[chain[lvl.value]].options, 0).value))
          && cursors' == cursors[lvl.value := cursors[lvl.value] + 1] && appCursor' == appCursor
        else
          && taken == Some(OptRef(Root, GetPositional(appCursor, sp.options, 0).value))
          && cursors' == cursors && appCursor' == appCursor + 1
    {
      taken, cursors', appCursor' := None, cursors, appCursor;
      var lvl := |chain|;
      while lvl > 0
        invariant 0 <= lvl <= |chain| && taken.None?
        invariant sp.PositionalLevel(st, |chain|) == sp.PositionalLevel(st, lvl)
      {
        lvl := lvl - 1;
        var i := GetPositional(cursors[lvl], sp.cmds[chain[lvl]].options, 0);
        if i.Some? {
          return Some(OptRef(Cmd(chain[lvl]), i.value)), cursors[lvl := cursors[lvl] + 1], appCursor;
        }
      }
      var i := GetPositional(appCursor, sp.options, 0);
      if i.Some? {
        return Some(OptRef(Root, i.value)), cursors, appCursor + 1;
      }
    }

    /** A token beginning with '-': an option, with its value attached, in the next token, or implied. */
    method OptionToken(activeChain: seq<nat>, args: seq<string>, i: nat, ghost st: State)
      returns (stop: Option<ParseResult>, taken: nat)
      requires Valid() && sp.WellFormed(st) && st.chain == activeChain && Holds(st)
      requires i < |args| && IsDash(args[i])
      modifies this`used, this`values
      ensures var step := sp.NamedStep(st, args[i..]);
        && Holds(step.st)
        && (step.Done? ==> stop == None && taken == Spec.LastTaken(step.st))
        && (!step.Done? ==> stop == Some(Seen(step)))
    {
      hide Spec.Valid;
      hide Spec.Lookup;
      var token := args[i];
      ghost var rest := args[i..];
      assert rest[0] == token && (rest[1..] == [] <==> i + 1 == |args|);
      assert i + 1 < |args| ==> rest[1..][0] == args[i + 1];
      var name := NameOf(token);
      var matched := FindInChain(activeChain, name);
      if matched.None? {
        return Some(Thrown(UnknownOption(name))), 0;
      }
      var raw: string;
      taken := 1;
      if sp.Opt(matched.value).flag {
        raw := "true";
      } else if EqualsValue(token).Some? {
        raw := EqualsValue(token).value;
      } else if i + 1 == |args| {
        return Some(Thrown(MissingValue(name))), 0;
      } else if args[i + 1] == "" {
        return Some(Thrown(EmptyToken)), 0;
      } else if args[i + 1][0] == '-' {
        return Some(Thrown(MissingValue(name))), 0;
      } else {
        raw := args[i + 1];
        taken := 2;
      }
      assert ValueFor(sp.Opt(matched.value), rest[0], rest[1..]) == Ok((raw, taken - 1));
      var ok := DoToDoList(matched.value, raw);
      if !ok {
        return Some(Thrown(Rejected(matched.value))), 0;
      }
      stop := None;
    }

    /** A token that is neither an option nor a subcommand. */
    method PositionalToken(activeChain: seq<nat>, cursors: seq<nat>, appCursor: nat, token: string, ghost st: State)
      returns (stop: Option<ParseResult>, cursors': seq<nat>, appCursor': nat)
      requires Valid() && sp.WellFormed(st) && Holds(st)
      requires st.chain == activeChain && st.cursors == cursors && st.appCursor == appCursor
      modifies this`used, this`values
      ensures var step := sp.PositionalStep(st, token);
        && Holds(step.st) && step.st.chain == activeChain
        && step.st.cursors == cursors' && step.st.appCursor == appCursor'
        && (step.Done? ==> stop == None)
        && (!step.Done? ==> stop == Some(Seen(step)))
    {
      hide Spec.Valid;
      var taken;
      taken, cursors', appCursor' := TakePositional(activeChain, cursors, appCursor, st);
      if taken.None? {
        return Some(Thrown(Unexpected(token))), cursors', appCursor';
      }
      var ok := DoToDoList(taken.value, token);
      stop := if ok then None else Some(Thrown(Rejected(taken.value)));
    }

    /** One iteration of the token loop. */
    method OneToken(activeChain: seq<nat>, cursors: seq<nat>, appCursor: nat, args: seq<string>, i: nat,
                    ghost st: State)
      returns (stop: Option<ParseResult>, activeChain': seq<nat>, cursors': seq<nat>, appCursor': nat, taken: nat)
      requires Valid() && sp.WellFormed(st) && Holds(st) && i < |args|
      requires st.chain == activeChain && st.cursors == cursors && st.appCursor == appCursor
      modifies this`foundCmds, this`used, this`values
      ensures var step := sp.Step(st, args[i..]);
        && Holds(step.st)
        && (step.Done? ==> stop == None && taken == Spec.LastTaken(step.st) && step.st.chain == activeChain'
                           && step.st.cursors == cursors' && step.st.appCursor == appCursor')
        && (!step.Done? ==> stop == Some(Seen(step)))
    {
      hide Spec.NamedStep;
      hide Spec.PositionalStep;
      activeChain', cursors', appCursor', taken := activeChain, cursors, appCursor, 1;
      var token := args[i];
      assert args[i..][0] == token;
      if sp.autoHelp && (token == "-h" || token == "--help") {
        return Some(HelpShown(sp.Innermost(activeChain))), activeChain, cursors, appCursor, 0;
      }
      if token == "" {
        return Some(Thrown(EmptyToken)), activeChain, cursors, appCursor, 0;
      }
      if token[0] != '-' {
        var c := sp.FindCommand(token, sp.Children(activeChain));
        if c.Some? {
          foundCmds := foundCmds + {c.value};
          return None, activeChain + [c.value], cursors + [0], appCursor, 1;
        }
        stop, cursors', appCursor' := PositionalToken(activeChain, cursors, appCursor, token, st);
        if sp.PositionalStep(st, token).Done? {
          sp.PositionalKeepsWellFormed(st, token);
        }
      } else {
        NamedLeavesCursors(st, args[i..]);
        stop, taken := OptionToken(activeChain, args, i, st);
      }
    }

    lemma NamedLeavesCursors(st: State, toks: seq<string>)
      requires sp.WellFormed(st) && toks != []
      ensures var st' := sp.NamedStep(st, toks).st;
        && st'.chain == st.chain && st'.cursors == st.cursors
        && st'.appCursor == st.appCursor && st'.foundCmds == st.foundCmds
    {
    }

    /** The token loop of `parse`. */
    method TokenLoop(args: seq<string>) returns (r: ParseResult, activeChain: seq<nat>)
      requires Valid()
      modifies this`foundCmds, this`used, this`values
      ensures var run := sp.Loop(Spec.Start(old(foundCmds), old(used), old(values)), args);
        && r == Seen(run) && Holds(run.st) && (r.Parsed? ==> activeChain == run.st.chain)
    {
      hide Spec.Step;
      hide Spec.Loop;
      hide Spec.Valid;
      ghost var st := Spec.Start(foundCmds, used, values);
      ghost var run := sp.Loop(st, args);
      activeChain := [];
      var cursors: seq<nat>, appCursor: nat, i: nat := [], 0, 0;
      assert args[i..] == args;
      assert sp.WellFormed(st);
      hide Spec.WellFormed;
      while i < |args|
        invariant i <= |args| && Holds(st) && sp.WellFormed(st) && Valid()
        invariant st.chain == activeChain && st.cursors == cursors && st.appCursor == appCursor
        invariant sp.Loop(st, args[i..]) == run
        decreases |args| - i
      {
        sp.LoopUnfolds(st, args[i..]);
        ghost var step := sp.Step(st, args[i..]);
        var stop, taken;
        stop, activeChain, cursors, appCursor, taken := OneToken(activeChain, cursors, appCursor, args, i, st);
        if stop.Some? {
          return stop.value, activeChain;
        }
        assert args[i..][taken..] == args[i + taken..];
        st := step.st;
        i := i + taken;
      }
      sp.LoopUnfolds(st, args[i..]);
      return Parsed, activeChain;
    }

    /** Set every unused option of `owner` that has a default to its transformed default. */
    method ApplyDefaults(owner: Owner) returns (error: Option<Error>)
      requires Valid() && sp.ValidOwner(owner)
      modifies this`defaults, this`values
      ensures Valid()
      ensures var n := |sp.OptionsOf(owner)|;
        && (error.None? <==> DefaultsConvert(sp, used, owner, n, old(defaults)))
        && (error.None? ==>
              Applied(sp, used, owner, n, Settings(old(defaults), old(values)), Settings(defaults, values)))
        && (error.Some? ==> error.value.Rejected? && var r := error.value.opt;
              Due(sp, used, owner, n, r) && !(r in old(defaults) && Converts(sp.Opt(r), old(defaults)[r])))
    {
      ghost var s := Settings(defaults, values);
      NothingApplied(sp, used, owner, s);
      var options := sp.OptionsOf(owner);
      for i := 0 to |options|
        invariant Valid() && Applied(sp, used, owner, i, s, Settings(defaults, values))
        invariant DefaultsConvert(sp, used, owner, i, s.defaults)
      {
        hide Applied;
        hide DefaultsConvert;
        hide Spec.Valid;
        var r := OptRef(owner, i);
        ghost var s' := Settings(defaults, values);
        ConvertNext(sp, used, owner, i, s, s');
        if r !in used && options[i].hasDefault {
          assert Due(sp, used, owner, i + 1, r);
          var v := options[i].transform(defaults[r]);
          if v.None? || !options[i].convert(v.value) {
            if DefaultsConvert(sp, used, owner, |options|, s.defaults) {
              ConvertFewer(sp, used, owner, i + 1, |options|, s.defaults);
            }
            NotYetApplied(sp, used, owner, i, s, s');
            return Some(Rejected(r));
          }
          defaults := defaults[r := v.value];
          values := values[r := v.value];
        }
        AppliedNext(sp, used, owner, i, s, s', Settings(defaults, values));
      }
      error := None;
    }

    /** Every required option of `owner` must be used, unless `waived`. */
    method CheckRequired(owner: Owner, waived: bool) returns (error: Option<Error>)
      requires sp.ValidOwner(owner)
      ensures error.None? <==> waived || RequiredUsed(sp.OptionsOf(owner), owner, used)
      ensures error.Some? ==> error.value.MissingRequired? && var r := error.value.opt;
        r.owner == owner && sp.ValidRef(r) && sp.Opt(r).required && r !in used
    {
      var options := sp.OptionsOf(owner);
      for i := 0 to |options|
        invariant waived || forall j :: 0 <= j < i && options[j].required ==> OptRef(owner, j) in used
      {
        if options[i].required && OptRef(owner, i) !in used && !waived {
          return Some(MissingRequired(OptRef(owner, i)));
        }
      }
      error := None;
    }

    /** `OptionGroup::validate`. */
    method ValidateGroup(g: Group) returns (ok: bool)
      ensures ok <==> InBounds(g, used)
    {
      if g.min <= 0 && g.max < 0 {
        return true;
      }
      var count := 0;
      for i := 0 to |g.members|
        invariant count == UsedCount(g.members[..i], used)
      {
        assert g.members[..i + 1][..i] == g.members[..i];
        if g.members[i] in used {
          count := count + 1;
        }
      }
      assert g.members[..|g.members|] == g.members;
      if g.min > 0 && count < g.min {
        return false;
      }
      ok := !(g.max >= 0 && count > g.max);
    }

    method ValidateGroups(owner: Owner, groups: seq<Group>) returns (error: Option<Error>)
      ensures error.None? <==> forall g :: 0 <= g < |groups| ==> InBounds(groups[g], used)
      ensures error.Some? ==>
        && error.value.GroupBounds? && error.value.owner == owner
        && error.value.group < |groups| && !InBounds(groups[error.value.group], used)
    {
      for g := 0 to |groups|
        invariant forall h :: 0 <= h < g ==> InBounds(groups[h], used)
      {
        var ok := ValidateGroup(groups[g]);
        if !ok {
          return Some(GroupBounds(owner, g));
        }
      }
      error := None;
    }

    /** The checks and defaults of one active subcommand. */
    method FinishLevel(chain: seq<nat>, i: nat) returns (error: Option<Error>)
      requires Valid() && i < |chain| && forall j :: 0 <= j < |chain| ==> chain[j] < |sp.cmds|
      modifies this`defaults, this`values
      ensures Valid()
      ensures var c := chain[i]; var n := |sp.cmds[c].options|;
        && (error.None? <==> LevelOk(sp, chain, i, used) && DefaultsConvert(sp, used, Cmd(c), n, old(defaults)))
        && (error.None? ==>
              Applied(sp, used, Cmd(c), n, Settings(old(defaults), old(values)), Settings(defaults, values)))
        && (error.Some? ==> Blames(sp, chain, used, old(defaults), error.value))
        && (error.Some? && error.value.Rejected? ==> error.value.opt.owner == Cmd(c))
    {
      var c := chain[i];
      var waived := AnySuperior(sp, c, used);
      if sp.cmds[c].requiresSub && !waived {
        if i + 1 == |chain| {
          return Some(NeedsSubcommand(FullPath(sp, c)));
        }
      }
      error := CheckRequired(Cmd(c), waived);
      if error.Some? {
        return;
      }
      error := ValidateGroups(Cmd(c), sp.cmds[c].groups);
      if error.Some? {
        return;
      }
      error := ApplyDefaults(Cmd(c));
    }

    /** What `parse` does after the token loop. */
    method FinishParse(chain: seq<nat>) returns (error: Option<Error>)
      requires Valid() && sp.IsPath(chain) && Increasing(chain)
      modifies this`defaults, this`values
      ensures Valid()
      ensures error.None? <==> NormalReturn(sp, chain, used, old(defaults))
      ensures error.None? ==>
        AppliedInScope(sp, used, chain, Settings(old(defaults), old(values)), Settings(defaults, values))
      ensures error.Some? ==> Blames(sp, chain, used, old(defaults), error.value)
    {
      ghost var s := Settings(defaults, values);
      error := CheckRequired(Root, false);
      if error.Some? {
        return;
      }
      error := ApplyDefaults(Root);
      if error.Some? {
        return;
      }
      RootInScope(sp, used, s, Settings(defaults, values));
      error := ValidateGroups(Root, sp.groups);
      if error.Some? {
        return;
      }
      for i := 0 to |chain|
        invariant Valid() && AppliedInScope(sp, used, chain[..i], s, Settings(defaults, values))
        invariant forall j :: 0 <= j < i ==> LevelSettled(sp, chain, j, used, s.defaults)
      {
        hide AppliedInScope;
        hide DefaultsConvert;
        hide Applied;
        hide LevelOk;
        ghost var s' := Settings(defaults, values);
        assert chain[i] !in chain[..i];
        ConvertUnchanged(sp, used, chain[..i], chain[i], s, s');
        error := FinishLevel(chain, i);
        if error.Some? {
          assert !LevelSettled(sp, chain, i, used, s.defaults);
          BlameEarlier(sp, used, chain, i, s, s', error.value);
          return;
        }
        AppliedToOneMore(sp, used, chain[..i], chain[i], s, s', Settings(defaults, values));
        assert chain[..i] + [chain[i]] == chain[..i + 1];
      }
      assert chain[..|chain|] == chain;
      error := None;
    }

    /**
     `parse` over the arguments after the program name. A run of the token loop that shows help or
     throws is what the caller sees. Otherwise `parse` returns normally exactly when the demands on the
     application and on every active subcommand are met, and then every unused option with a default,
     in the application or the active chain, has had it transformed and set, and no other setting moved.
     */
    method Parse(args: seq<string>) returns (r: ParseResult)
      requires Valid()
      modifies this
      ensures Valid()
      ensures var run := sp.Loop(Spec.Start(old(foundCmds), old(used), old(values)), args);
        && foundCmds == run.st.foundCmds && used == run.st.used
        && (!run.Done? ==> r == Seen(run) && values == run.st.values && defaults == old(defaults))
        && (run.Done? ==>
              && sp.IsPath(run.st.chain)
              && (r.Parsed? <==> NormalReturn(sp, run.st.chain, used, old(defaults)))
              && (!r.Parsed? ==> r.Thrown? && Blames(sp, run.st.chain, used, old(defaults), r.error))
              && (r.Parsed? ==>
                    AppliedInScope(sp, used, run.st.chain, Settings(old(defaults), run.st.values),
                                   Settings(defaults, values))))
    {
      hide NormalReturn;
      hide AppliedInScope;
      hide Blames;
      hide Spec.Loop;
      ghost var st := Spec.Start(foundCmds, used, values);
      var chain;
      r, chain := TokenLoop(args);
      if r.Parsed? {
        ChainOfRun(sp, st, args);
        var error := FinishParse(chain);
        if error.Some? {
          r := Thrown(error.value);
        }
      }
    }

    /** The token loop of `parse_earlies`, over the whole argument vector. */
    method EarlyTokens(argv: seq<string>, strict: bool) returns (r: ParseResult)
      requires Valid()
      modifies this`used, this`values
      ensures var run := EarlyLoop(sp, strict, Spec.Start(foundCmds, old(used), old(values)), argv);
        r == Seen(run) && Holds(run.st)
    {
      hide EarlyStep;
      hide EarlyLoop;
      hide Spec.Valid;
      ghost var st := Spec.Start(foundCmds, used, values);
      ghost var run := EarlyLoop(sp, strict, st, argv);
      assert argv[0..] == argv;
      var i: nat := 0;
      while i < |argv|
        invariant i <= |argv| && Holds(st) && Valid() && EarlyLoop(sp, strict, st, argv[i..]) == run
        decreases |argv| - i
      {
        EarlyLoopUnfolds(sp, strict, st, argv[i..]);
        ghost var step := EarlyStep(sp, strict, st, argv[i..]);
        var stop, taken := EarlyToken(argv, i, strict, st);
        if stop.Some? {
          return stop.value;
        }
        assert argv[i..][taken..] == argv[i + taken..];
        st := step.st;
        i := i + taken;
      }
      EarlyLoopUnfolds(sp, strict, st, argv[i..]);
      return Parsed;
    }

    method EarlyToken(argv: seq<string>, i: nat, strict: bool, ghost st: State)
      returns (stop: Option<ParseResult>, taken: nat)
      requires Valid() && Holds(st) && i < |argv|
      modifies this`used, this`values
      ensures var step := EarlyStep(sp, strict, st, argv[i..]);
        && Holds(step.st)
        && (step.Done? ==> stop == None && taken == EarlyTaken(st, step.st))
        && (!step.Done? ==> stop == Some(Seen(step)))
    {
      hide Spec.Valid;
      var token := argv[i];
      ghost var rest := argv[i..];
      assert rest[0] == token && (rest[1..] == [] <==> i + 1 == |argv|);
      assert i + 1 < |argv| ==> rest[1..][0] == argv[i + 1];
      taken := 1;
      stop := None;
      if token == "" {
        return Some(Thrown(EmptyToken)), 0;
      }
      if token[0] == '-' {
        var name := NameOf(token);
        var matched := FindOption(name, sp.options);
        if matched.None? {
          if strict {
            return Some(Thrown(UnknownOption(name))), 0;
          }
          return;
        }
        var o := sp.options[matched.value];
        if !o.early {
          return;
        }
        var raw: string;
        if o.flag {
          raw := "true";
        } else if EqualsValue(token).Some? {
          raw := EqualsValue(token).value;
        } else if i + 1 == |argv| {
          return Some(Thrown(MissingValue(name))), 0;
        } else if argv[i + 1] == "" {
          return Some(Thrown(EmptyToken)), 0;
        } else if argv[i + 1][0] == '-' {
          return Some(Thrown(MissingValue(name))), 0;
        } else {
          raw := argv[i + 1];
          taken := 2;
        }
        assert ValueFor(o, rest[0], rest[1..]) == Ok((raw, taken - 1));
        var ok := DoToDoList(OptRef(Root, matched.value), raw);
        if !ok {
          return Some(Thrown(Rejected(OptRef(Root, matched.value)))), 0;
        }
      }
    }

    /** `parse_earlies`: early options, then the required early ones, then the application's defaults. */
    method ParseEarlies(argv: seq<string>, strict: bool) returns (r: ParseResult)
      requires Valid()
      modifies this`used, this`values, this`defaults
      ensures Valid()
      ensures var run := EarlyLoop(sp, strict, Spec.Start(foundCmds, old(used), old(values)), argv);
        && used == run.st.used
        && (!run.Done? ==> r == Seen(run) && values == run.st.values && defaults == old(defaults))
        && (run.Done? ==>
              && (r.Parsed? <==> EarliesUsed(sp, used) && DefaultsConvert(sp, used, Root, |sp.options|, old(defaults)))
              && (r.Parsed? ==>
                    Applied(sp, used, Root, |sp.options|, Settings(old(defaults), run.st.values),
                            Settings(defaults, values))))
    {
      hide EarlyLoop;
      hide Spec.Valid;
      r := EarlyTokens(argv, strict);
      if !r.Parsed? {
        return;
      }
      for i := 0 to |sp.options|
        invariant forall j :: 0 <= j < i && sp.options[j].required && sp.options[j].early ==> OptRef(Root, j) in used
      {
        if sp.options[i].required && sp.options[i].early && OptRef(Root, i) !in used {
          return Thrown(MissingRequired(OptRef(Root, i)));
        }
      }
      var error := ApplyDefaults(Root);
      if error.Some? {
        r := Thrown(error.value);
      }
    }

    /**
     Both passes, as `main` makes them: `first` and `second` are the runs of their token loops, `mid` the
     settings in between. They return normally exactly when the first pass gets through and the second,
     starting from the options used and the defaults rewritten by the first, does too.
     */
    method ParseTwice(program: string, args: seq<string>)
      returns (r: ParseResult, ghost first: RunResult, ghost mid: Settings, ghost second: RunResult)
      requires Valid()
      modifies this
      ensures Valid()
      ensures first == EarlyLoop(sp, false, Spec.Start(old(foundCmds), old(used), old(values)), [program] + args)
      ensures FirstPasses(sp, first, old(defaults)) ==>
        && Applied(sp, first.st.used, Root, |sp.options|, Settings(old(defaults), first.st.values), mid)
        && second == sp.Loop(Spec.Start(old(foundCmds), first.st.used, mid.values), args)
      ensures r.Parsed? <==>
        && FirstPasses(sp, first, old(defaults)) && second.Done? && sp.IsPath(second.st.chain)
        && NormalReturn(sp, second.st.chain, second.st.used, mid.defaults)
      ensures r.Parsed? ==>
        && foundCmds == second.st.foundCmds && used == second.st.used
        && AppliedInScope(sp, used, second.st.chain, Settings(mid.defaults, second.st.values),
                          Settings(defaults, values))
        && forall i :: 0 <= i < |sp.options| && sp.options[i].hasDefault ==>
             DefaultFate(sp, i, first.st.used, used, old(defaults), defaults, values)
    {
      hide EarlyLoop;
      hide Spec.Loop;
      hide Applied;
      hide AppliedInScope;
      hide NormalReturn;
      hide DefaultsConvert;
      hide Blames;
      hide DefaultFate;
      ghost var s := Settings(defaults, values);
      first := EarlyLoop(sp, false, Spec.Start(foundCmds, used, values), [program] + args);
      r := ParseEarlies([program] + args, false);
      mid := Settings(defaults, values);
      ghost var st := Spec.Start(foundCmds, used, values);
      second := sp.Loop(st, args);
      if !r.Parsed? {
        return;
      }
      r := Parse(args);
      if r.Parsed? {
        UsedGrows(sp, st, args);
        forall i | 0 <= i < |sp.options| && sp.options[i].hasDefault
          ensures DefaultFate(sp, i, first.st.used, used, s.defaults, defaults, values)
        {
          assert sp.ValidRef(OptRef(Root, i)) && sp.Opt(OptRef(Root, i)).hasDefault;
          FateOf(sp, i, first.st.used, used, second.st.chain, Settings(s.defaults, first.st.values), mid,
                 second.st.values, Settings(defaults, values));
        }
      }
    }
  }

  // ---------------------------------------------------------------------------------------------
  // A default transformed twice
  // ---------------------------------------------------------------------------------------------

  /** An application with one option, whose transformer appends a mark. */
  function MarkingSpec(): Spec {
    var mark := OptionSpec(["-m"], false, false, false, false, false, true, x => Some(x + "!"), x => true, x => true);
    Spec(true, [mark], [], [], [])
  }

  lemma OnlyOption(r: OptRef)
    requires MarkingSpec().ValidRef(r)
    ensures r == OptRef(Root, 0)
  {
  }

  /** Without arguments nothing is used, and the checks after the token loop pass whatever the default is. */
  lemma MarkingPasses(defaults: map<OptRef, string>)
    requires OptRef(Root, 0) in defaults
    ensures var sp := MarkingSpec();
      && sp.Valid() && EarliesUsed(sp, {}) && DefaultsConvert(sp, {}, Root, 1, defaults)
      && NormalReturn(sp, [], {}, defaults)
  {
    var sp := MarkingSpec();
    forall r | Due(sp, {}, Root, 1, r)
      ensures r in defaults && Converts(sp.Opt(r), defaults[r])
    {
      OnlyOption(r);
    }
  }

  /** Both passes return, and the value set is the default with two marks, not with one. */
  method TransformsTwice() returns (r: ParseResult, value: string)
    ensures r.Parsed? && value == "d!!" && MarkingSpec().options[0].transform("d") == Some("d!")
  {
    var sp := MarkingSpec();
    ghost var ref := OptRef(Root, 0);
    MarkingPasses(map[OptRef(Root, 0) := "d"]);
    forall o | sp.ValidRef(o)
      ensures o == ref
    {
      OnlyOption(o);
    }
    var app := new App(sp, map[OptRef(Root, 0) := "d"]);
    ghost var st := Spec.Start({}, {}, map[]);
    SkipPlain(sp, false, st, ["pmt"] + []);
    assert (["pmt"] + [])[1..] == [];
    ghost var first, mid, second;
    r, first, mid, second := app.ParseTwice("pmt", []);
    assert first == Done(st) && FirstPasses(sp, first, map[ref := "d"]);
    assert AppliedAt(sp, Due(sp, {}, Root, 1, ref), ref, Settings(map[ref := "d"], map[]), mid);
    assert second == Done(Spec.Start({}, {}, mid.values));
    MarkingPasses(mid.defaults);
    assert DefaultFate(sp, 0, {}, app.used, map[ref := "d"], app.defaults, app.values);
    assert "d" + "!" == "d!" && "d!" + "!" == "d!!";
    value := app.values[OptRef(Root, 0)];
  }
}
