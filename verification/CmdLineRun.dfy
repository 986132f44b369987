/** What every run of the token loop keeps. */
module CmdLineRun {
  import opened Common
  import opened CmdLine

  // ---------------------------------------------------------------------------------------------
  // Reading the log
  // ---------------------------------------------------------------------------------------------

  /** The tokens consumed, in order. */
  function Consumed(log: seq<Action>): seq<string> {
    if log == [] then [] else Consumed(log[..|log| - 1]) + log[|log| - 1].tokens
  }

  /** The subcommands entered, in order. */
  function Entered(log: seq<Action>): seq<nat> {
    if log == [] then []
    else
      var before, last := Entered(log[..|log| - 1]), log[|log| - 1];
      if last.Enter? then before + [last.cmd] else before
  }

  /** The positional options of `owner` that were filled, in order. */
  function Filled(log: seq<Action>, owner: Owner): seq<nat> {
    if log == [] then []
    else
      var before, last := Filled(log[..|log| - 1], owner), log[|log| - 1];
      if last.Positional? && last.opt.owner == owner then before + [last.opt.index] else before
  }

  function PositionalTokens(log: seq<Action>): nat {
    if log == [] then 0
    else PositionalTokens(log[..|log| - 1]) + if log[|log| - 1].Positional? then 1 else 0
  }

  function UsedIn(log: seq<Action>): set<OptRef> {
    if log == [] then {}
    else
      var before, last := UsedIn(log[..|log| - 1]), log[|log| - 1];
      if last.Enter? then before else before + {last.opt}
  }

  /** The positional options at or after position `from`, in declaration order. */
  function Positionals(options: seq<OptionSpec>, from: nat): (r: seq<nat>)
    requires from <= |options|
    ensures forall i :: i in r <==> from <= i < |options| && options[i].positional
    decreases |options| - from
  {
    if from == |options| then []
    else if options[from].positional then [from] + Positionals(options, from + 1)
    else Positionals(options, from + 1)
  }

  lemma {:induction false} GetPositionalIsNth(n: nat, options: seq<OptionSpec>, from: nat)
    requires from <= |options|
    ensures var p := Positionals(options, from);
      GetPositional(n, options, from) == if n < |p| then Some(p[n]) else None
    decreases |options| - from
  {
    if from < |options| {
      if options[from].positional {
        if n > 0 { GetPositionalIsNth(n - 1, options, from + 1); }
      } else {
        GetPositionalIsNth(n, options, from + 1);
      }
    }
  }

  /** Declaration order: no positional option is listed twice. */
  lemma {:induction false} PositionalsIncrease(options: seq<OptionSpec>, from: nat, i: nat, j: nat)
    requires from <= |options| && i < j < |Positionals(options, from)|
    ensures from <= Positionals(options, from)[i] < Positionals(options, from)[j]
    decreases |options| - from
  {
    var p := Positionals(options, from);
    if options[from].positional {
      if i > 0 {
        PositionalsIncrease(options, from + 1, i - 1, j - 1);
      } else {
        PositionalsBound(options, from + 1, j - 1);
      }
    } else {
      PositionalsIncrease(options, from + 1, i, j);
    }
  }

  lemma {:induction false} PositionalsBound(options: seq<OptionSpec>, from: nat, i: nat)
    requires from <= |options| && i < |Positionals(options, from)|
    ensures from <= Positionals(options, from)[i] < |options|
    decreases |options| - from
  {
    if options[from].positional {
      if i > 0 { PositionalsBound(options, from + 1, i - 1); }
    } else {
      PositionalsBound(options, from + 1, i);
    }
  }

  // ---------------------------------------------------------------------------------------------
  // The invariant
  // ---------------------------------------------------------------------------------------------

  predicate Increasing(s: seq<nat>) {
    forall i, j :: 0 <= i < j < |s| ==> s[i] < s[j]
  }

  /** Dash tokens name options; a value, a positional or a subcommand is never a dash token. */
  predicate Shaped(a: Action) {
    match a
    case Named(_, name, _, tokens) =>
      && 1 <= |tokens| <= 2 && IsDash(tokens[0]) && name == NameOf(tokens[0])
      && (|tokens| == 2 ==> tokens[1] != "" && !IsDash(tokens[1]))
    case _ => |a.tokens| == 1 && a.tokens[0] != "" && !IsDash(a.tokens[0])
  }

  /** The active chain is a root-to-descendant path, made of exactly the subcommands entered and found. */
  ghost predicate ChainInv(sp: Spec, st: State, foundCmds: set<nat>) {
    && sp.IsPath(st.chain) && Increasing(st.chain) && |st.cursors| == |st.chain|
    && Entered(st.log) == st.chain
    && (forall c :: c in st.foundCmds <==> c in foundCmds || c in st.chain)
  }

  /** Every option of a log entry belongs to the application or to the active chain; `used` holds exactly those. */
  ghost predicate UsedInv(sp: Spec, st: State, used: set<OptRef>) {
    && st.used == used + UsedIn(st.log)
    && (forall r :: r in UsedIn(st.log) ==> sp.ValidRef(r) && (r.owner.Cmd? ==> r.owner.id in st.chain))
  }

  ghost predicate TokenInv(st: State, consumed: seq<string>) {
    && Consumed(st.log) == consumed
    && (forall i :: 0 <= i < |st.log| ==> Shaped(st.log[i]))
  }

  ghost predicate LevelInv(options: seq<OptionSpec>, cursor: nat, filled: seq<nat>) {
    cursor <= |Positionals(options, 0)| && filled == Positionals(options, 0)[..cursor]
  }

  ghost predicate LevelsInv(sp: Spec, chain: seq<nat>, cursors: seq<nat>, log: seq<Action>) {
    && |cursors| == |chain|
    && forall l :: 0 <= l < |chain| ==>
         chain[l] < |sp.cmds| && LevelInv(sp.cmds[chain[l]].options, cursors[l], Filled(log, Cmd(chain[l])))
  }

  ghost predicate OnlyChainFills(chain: seq<nat>, log: seq<Action>) {
    forall c: nat :: c !in chain ==> Filled(log, Cmd(c)) == []
  }

  /** Each level has filled a declaration-order prefix of its positionals, as long as its cursor says. */
  ghost predicate CursorInv(sp: Spec, st: State) {
    && LevelsInv(sp, st.chain, st.cursors, st.log)
    && LevelInv(sp.options, st.appCursor, Filled(st.log, Root))
    && OnlyChainFills(st.chain, st.log)
    && Sum(st.cursors) + st.appCursor == PositionalTokens(st.log)
  }

  function Sum(s: seq<nat>): nat {
    if s == [] then 0 else s[0] + Sum(s[1..])
  }

  lemma {:induction false} SumAppend(a: seq<nat>, b: seq<nat>)
    ensures Sum(a + b) == Sum(a) + Sum(b)
  {
    if a == [] {
      assert a + b == b;
    } else {
      assert (a + b)[1..] == a[1..] + b;
      SumAppend(a[1..], b);
    }
  }

  lemma SumUpdate(s: seq<nat>, i: nat, n: nat)
    requires i < |s|
    ensures Sum(s[i := n]) == Sum(s) - s[i] + n
  {
    var s' := s[i := n];
    assert s == s[..i] + s[i..] && s' == s[..i] + s'[i..];
    SumAppend(s[..i], s[i..]);
    SumAppend(s[..i], s'[i..]);
    assert s'[i..][1..] == s[i..][1..];
  }

  ghost predicate RunInv(sp: Spec, st: State, foundCmds: set<nat>, used: set<OptRef>, consumed: seq<string>) {
    && ChainInv(sp, st, foundCmds) && UsedInv(sp, st, used) && TokenInv(st, consumed) && CursorInv(sp, st)
  }

  lemma LogStarts()
    ensures Consumed([]) == [] && Entered([]) == [] && UsedIn([]) == {} && PositionalTokens([]) == 0
    ensures forall o :: Filled([], o) == []
  {
  }

  lemma LogGrows(log: seq<Action>, a: Action)
    ensures Consumed(log + [a]) == Consumed(log) + a.tokens
    ensures Entered(log + [a]) == if a.Enter? then Entered(log) + [a.cmd] else Entered(log)
    ensures UsedIn(log + [a]) == if a.Enter? then UsedIn(log) else UsedIn(log) + {a.opt}
    ensures PositionalTokens(log + [a]) == PositionalTokens(log) + if a.Positional? then 1 else 0
    ensures forall o :: Filled(log + [a], o) == FilledBy(a, Filled(log, o), o)
  {
    assert (log + [a])[..|log|] == log;
  }

  function FilledBy(a: Action, before: seq<nat>, o: Owner): seq<nat> {
    if a.Positional? && a.opt.owner == o then before + [a.opt.index] else before
  }

  lemma TokensKept(st: State, st': State, a: Action, consumed: seq<string>)
    requires TokenInv(st, consumed) && st'.log == st.log + [a] && Shaped(a)
    ensures TokenInv(st', consumed + a.tokens)
  {
    LogGrows(st.log, a);
  }

  lemma UsedKept(sp: Spec, st: State, st': State, a: Action, used: set<OptRef>)
    requires UsedInv(sp, st, used) && st'.log == st.log + [a]
    requires forall c :: c in st.chain ==> c in st'.chain
    requires if a.Enter? then st'.used == st.used
             else
               && st'.used == st.used + {a.opt} && sp.ValidRef(a.opt)
               && (a.opt.owner.Cmd? ==> a.opt.owner.id in st'.chain)
    ensures UsedInv(sp, st', used)
  {
    LogGrows(st.log, a);
  }

  lemma ChildIsBelow(sp: Spec, chain: seq<nat>, c: nat)
    requires sp.Valid() && sp.IsPath(chain) && c in sp.Children(chain)
    ensures c < |sp.cmds| && (chain != [] ==> chain[|chain| - 1] < c)
  {
  }

  lemma IncreasingExtends(chain: seq<nat>, c: nat)
    requires Increasing(chain) && (chain != [] ==> chain[|chain| - 1] < c)
    ensures Increasing(chain + [c]) && c !in chain
  {
    assert forall i :: 0 <= i < |chain| ==> chain[i] <= chain[|chain| - 1];
  }

  lemma EnterKeepsChain(sp: Spec, st: State, c: nat, token: string, foundCmds: set<nat>)
    requires sp.Valid() && ChainInv(sp, st, foundCmds) && c in sp.Children(st.chain)
    ensures ChainInv(sp, sp.EnterStep(st, c, token), foundCmds)
    ensures c !in st.chain && c < |sp.cmds|
  {
    hide Spec.Valid;
    LogGrows(st.log, Enter(c, [token]));
    ChildIsBelow(sp, st.chain, c);
    hide Spec.IsPath;
    sp.PathExtends(st.chain, c);
    IncreasingExtends(st.chain, c);
    hide Increasing;
  }

  /** The two logs have filled the same positionals. */
  ghost predicate SameFilled(log: seq<Action>, log': seq<Action>) {
    forall o :: Filled(log', o) == Filled(log, o)
  }

  lemma EnterKeepsLevels(sp: Spec, chain: seq<nat>, cursors: seq<nat>, log: seq<Action>, c: nat, log': seq<Action>)
    requires LevelsInv(sp, chain, cursors, log) && OnlyChainFills(chain, log)
    requires c !in chain && c < |sp.cmds| && SameFilled(log, log')
    ensures LevelsInv(sp, chain + [c], cursors + [0], log')
    ensures OnlyChainFills(chain + [c], log')
  {
    hide LevelInv;
    hide Filled;
    NothingFilled(sp.cmds[c].options);
  }

  lemma EnterKeepsCursors(sp: Spec, st: State, c: nat, token: string)
    requires CursorInv(sp, st) && c !in st.chain && c < |sp.cmds|
    ensures CursorInv(sp, sp.EnterStep(st, c, token))
  {
    var a, st' := Enter(c, [token]), sp.EnterStep(st, c, token);
    LogGrows(st.log, a);
    assert SameFilled(st.log, st'.log);
    EnterKeepsLevels(sp, st.chain, st.cursors, st.log, c, st'.log);
    hide LevelsInv;
    hide OnlyChainFills;
    SumAppend(st.cursors, [0]);
    assert [0][1..] == [] && Sum([0]) == 0;
  }

  lemma NothingFilled(options: seq<OptionSpec>)
    ensures LevelInv(options, 0, [])
  {
  }

  // ---------------------------------------------------------------------------------------------
  // What one iteration does to the state
  // ---------------------------------------------------------------------------------------------

  /** The iteration logged `a`, which names an option of the application or the active chain. */
  ghost predicate Logged(sp: Spec, st: State, st': State, a: Action) {
    && st'.log == st.log + [a] && Shaped(a)
    && st'.chain == st.chain && st'.foundCmds == st.foundCmds
    && !a.Enter? && st'.used == st.used + {a.opt}
    && sp.ValidRef(a.opt) && (a.opt.owner.Cmd? ==> a.opt.owner.id in st.chain)
  }

  /** Level `lvl` of the chain, or the application for |chain|, fills its next positional and moves its cursor. */
  ghost predicate Advanced(sp: Spec, st: State, st': State, a: Action, lvl: nat)
    requires sp.WellFormed(st)
  {
    && lvl <= |st.chain| && a.Positional?
    && if lvl < |st.chain| then
         && a.opt.owner == Cmd(st.chain[lvl])
         && GetPositional(st.cursors[lvl], sp.cmds[st.chain[lvl]].options, 0) == Some(a.opt.index)
         && st'.cursors == st.cursors[lvl := st.cursors[lvl] + 1] && st'.appCursor == st.appCursor
       else
         && a.opt.owner == Root
         && GetPositional(st.appCursor, sp.options, 0) == Some(a.opt.index)
         && st'.cursors == st.cursors && st'.appCursor == st.appCursor + 1
  }

  lemma NamedEffect(sp: Spec, st: State, toks: seq<string>, st': State) returns (a: Action)
    requires sp.Valid() && sp.WellFormed(st) && toks != [] && IsDash(toks[0])
    requires sp.NamedStep(st, toks) == Done(st')
    ensures Logged(sp, st, st', a) && a.Named? && |a.tokens| <= |toks| && a.tokens == toks[..|a.tokens|]
    ensures st'.cursors == st.cursors && st'.appCursor == st.appCursor
  {
    hide Spec.Valid;
    hide Spec.IsPath;
    a := st'.log[|st.log|];
  }

  lemma PositionalEffect(sp: Spec, st: State, token: string, st': State) returns (a: Action, lvl: nat)
    requires sp.Valid() && sp.WellFormed(st) && token != "" && !IsDash(token)
    requires sp.PositionalStep(st, token) == Done(st')
    ensures Logged(sp, st, st', a) && a.tokens == [token]
    ensures Advanced(sp, st, st', a, lvl)
  {
    hide Spec.Valid;
    a := st'.log[|st.log|];
    lvl := sp.PositionalLevel(st, |st.chain|).value;
  }

  lemma NamedKeepsCursors(sp: Spec, st: State, st': State, a: Action)
    requires CursorInv(sp, st) && a.Named? && st'.log == st.log + [a]
    requires st'.chain == st.chain && st'.cursors == st.cursors && st'.appCursor == st.appCursor
    ensures CursorInv(sp, st')
  {
    LogGrows(st.log, a);
    assert SameFilled(st.log, st'.log);
  }

  lemma LevelAdvances(options: seq<OptionSpec>, cursor: nat, filled: seq<nat>, i: nat)
    requires LevelInv(options, cursor, filled) && GetPositional(cursor, options, 0) == Some(i)
    ensures LevelInv(options, cursor + 1, filled + [i])
  {
    GetPositionalIsNth(cursor, options, 0);
    var p := Positionals(options, 0);
    assert p[..cursor + 1] == p[..cursor] + [p[cursor]];
  }

  lemma PositionalKeepsLevels(sp: Spec, chain: seq<nat>, cursors: seq<nat>, log: seq<Action>, lvl: nat,
                              log': seq<Action>, i: nat)
    requires LevelsInv(sp, chain, cursors, log) && OnlyChainFills(chain, log) && Increasing(chain) && lvl < |chain|
    requires forall o :: Filled(log', o) == if o == Cmd(chain[lvl]) then Filled(log, o) + [i] else Filled(log, o)
    requires GetPositional(cursors[lvl], sp.cmds[chain[lvl]].options, 0) == Some(i)
    ensures LevelsInv(sp, chain, cursors[lvl := cursors[lvl] + 1], log')
    ensures OnlyChainFills(chain, log')
  {
    hide Filled;
    LevelAdvances(sp.cmds[chain[lvl]].options, cursors[lvl], Filled(log, Cmd(chain[lvl])), i);
    hide LevelInv;
    hide GetPositional;
    assert forall l :: 0 <= l < |chain| && l != lvl ==> chain[l] != chain[lvl];
  }

  /** A positional token moves exactly one cursor, by one, and fills that level's next positional. */
  lemma PositionalKeepsCursors(sp: Spec, st: State, st': State, a: Action, lvl: nat)
    requires sp.WellFormed(st) && CursorInv(sp, st) && Increasing(st.chain)
    requires st'.log == st.log + [a] && st'.chain == st.chain && Advanced(sp, st, st', a, lvl)
    ensures CursorInv(sp, st')
  {
    LogGrows(st.log, a);
    hide Filled;
    if lvl < |st.chain| {
      PositionalKeepsLevels(sp, st.chain, st.cursors, st.log, lvl, st'.log, a.opt.index);
      SumUpdate(st.cursors, lvl, st.cursors[lvl] + 1);
    } else {
      LevelAdvances(sp.options, st.appCursor, Filled(st.log, Root), a.opt.index);
    }
  }

  lemma ChainKept(sp: Spec, st: State, st': State, a: Action, foundCmds: set<nat>)
    requires ChainInv(sp, st, foundCmds) && !a.Enter? && st'.log == st.log + [a]
    requires st'.chain == st.chain && st'.foundCmds == st.foundCmds && |st'.cursors| == |st.cursors|
    ensures ChainInv(sp, st', foundCmds)
  {
    LogGrows(st.log, a);
  }

  lemma EnterStepKeeps(sp: Spec, st: State, c: nat, token: string, foundCmds: set<nat>, used: set<OptRef>,
                       consumed: seq<string>)
    requires sp.Valid() && sp.WellFormed(st) && token != "" && !IsDash(token) && c in sp.Children(st.chain)
    requires RunInv(sp, st, foundCmds, used, consumed)
    ensures RunInv(sp, sp.EnterStep(st, c, token), foundCmds, used, consumed + [token])
  {
    var a, st' := Enter(c, [token]), sp.EnterStep(st, c, token);
    EnterKeepsChain(sp, st, c, token, foundCmds);
    EnterKeepsCursors(sp, st, c, token);
    TokensKept(st, st', a, consumed);
    hide CursorInv;
    hide ChainInv;
    hide TokenInv;
    UsedKept(sp, st, st', a, used);
  }

  /** Every successful iteration keeps the whole invariant and consumes the tokens it logs. */
  lemma StepKeeps(sp: Spec, st: State, toks: seq<string>, st': State, foundCmds: set<nat>, used: set<OptRef>,
                  consumed: seq<string>)
    requires sp.Valid() && sp.WellFormed(st) && toks != [] && sp.Step(st, toks) == Done(st')
    requires RunInv(sp, st, foundCmds, used, consumed)
    ensures Spec.LastTaken(st') <= |toks|
    ensures RunInv(sp, st', foundCmds, used, consumed + toks[..Spec.LastTaken(st')])
  {
    var a: Action;
    if IsDash(toks[0]) {
      a := NamedEffect(sp, st, toks, st');
      NamedKeepsCursors(sp, st, st', a);
    } else {
      assert toks[..1] == [toks[0]];
      match sp.FindCommand(toks[0], sp.Children(st.chain))
      case Some(c) =>
        EnterStepKeeps(sp, st, c, toks[0], foundCmds, used, consumed);
        return;
      case None =>
        var lvl;
        a, lvl := PositionalEffect(sp, st, toks[0], st');
        PositionalKeepsCursors(sp, st, st', a, lvl);
    }
    hide CursorInv;
    ChainKept(sp, st, st', a, foundCmds);
    hide ChainInv;
    TokensKept(st, st', a, consumed);
    hide TokenInv;
    UsedKept(sp, st, st', a, used);
  }

  // ---------------------------------------------------------------------------------------------
  // Which option, which subcommand, which value
  // ---------------------------------------------------------------------------------------------

  /** No level of the chain from `lo` on declares the option name. */
  predicate NoneDeclares(sp: Spec, chain: seq<nat>, name: string, lo: nat)
    requires forall i :: 0 <= i < |chain| ==> chain[i] < |sp.cmds|
  {
    forall j :: lo <= j < |chain| ==> FindOption(name, sp.cmds[chain[j]].options).None?
  }

  /** Level `k` of the chain declares option `index` under the name, first of its options, and no deeper level does. */
  predicate InnermostNamed(sp: Spec, chain: seq<nat>, name: string, k: nat, index: nat)
    requires forall i :: 0 <= i < |chain| ==> chain[i] < |sp.cmds|
  {
    && k < |chain| && FindOption(name, sp.cmds[chain[k]].options) == Some(index)
    && NoneDeclares(sp, chain, name, k + 1)
  }

  /**
   Whose option a name is: that of the innermost active subcommand that declares it; the application's
   only when no active subcommand does; no one's when nobody declares it.
   */
  predicate Resolves(sp: Spec, chain: seq<nat>, name: string, found: Option<OptRef>)
    requires forall i :: 0 <= i < |chain| ==> chain[i] < |sp.cmds|
  {
    match found
    case Some(OptRef(Cmd(c), index)) =>
      exists k :: 0 <= k < |chain| && chain[k] == c && InnermostNamed(sp, chain, name, k, index)
    case Some(OptRef(Root, index)) => FindOption(name, sp.options) == Some(index) && NoneDeclares(sp, chain, name, 0)
    case None => FindOption(name, sp.options) == None && NoneDeclares(sp, chain, name, 0)
  }

  lemma {:induction false} LookupResolves(sp: Spec, chain: seq<nat>, name: string)
    requires forall i :: 0 <= i < |chain| ==> chain[i] < |sp.cmds|
    ensures Resolves(sp, chain, name, sp.Lookup(chain, name))
  {
    hide FindOption;
    if chain != [] {
      var n := |chain| - 1;
      match FindOption(name, sp.cmds[chain[n]].options)
      case Some(i) =>
        assert InnermostNamed(sp, chain, name, n, i);
      case None =>
        LookupResolves(sp, chain[..n], name);
        ResolvesDeeper(sp, chain[..n], chain[n], name, sp.Lookup(chain[..n], name));
        assert chain == chain[..n] + [chain[n]];
    }
  }

  /** A further subcommand that does not declare the name changes nothing. */
  lemma ResolvesDeeper(sp: Spec, chain: seq<nat>, c: nat, name: string, found: Option<OptRef>)
    requires c < |sp.cmds| && (forall i :: 0 <= i < |chain| ==> chain[i] < |sp.cmds|)
    requires Resolves(sp, chain, name, found) && FindOption(name, sp.cmds[c].options).None?
    ensures Resolves(sp, chain + [c], name, found)
  {
    hide FindOption;
    if found.Some? && found.value.owner.Cmd? {
      var k :|
        && 0 <= k < |chain| && chain[k] == found.value.owner.id
        && InnermostNamed(sp, chain, name, k, found.value.index);
      assert InnermostNamed(sp, chain + [c], name, k, found.value.index);
      assert (chain + [c])[k] == found.value.owner.id;
    }
  }

  /** The positional option that is up at a level, if one is left. */
  function NextAt(options: seq<OptionSpec>, cursor: nat): Option<nat> {
    var p := Positionals(options, 0);
    if cursor < |p| then Some(p[cursor]) else None
  }

  /** No level of the chain from `lo` on has a positional option left. */
  predicate NoneFree(sp: Spec, st: State, lo: nat)
    requires |st.chain| == |st.cursors| && forall i :: 0 <= i < |st.chain| ==> st.chain[i] < |sp.cmds|
  {
    forall j :: lo <= j < |st.chain| ==> NextAt(sp.cmds[st.chain[j]].options, st.cursors[j]).None?
  }

  /** Who takes a positional token: the innermost level with a positional left, then the application, then no one. */
  predicate TakesPositional(sp: Spec, st: State, lvl: Option<nat>)
    requires |st.chain| == |st.cursors| && forall i :: 0 <= i < |st.chain| ==> st.chain[i] < |sp.cmds|
  {
    match lvl
    case Some(k) =>
      if k < |st.chain| then NextAt(sp.cmds[st.chain[k]].options, st.cursors[k]).Some? && NoneFree(sp, st, k + 1)
      else k == |st.chain| && NextAt(sp.options, st.appCursor).Some? && NoneFree(sp, st, 0)
    case None => NextAt(sp.options, st.appCursor).None? && NoneFree(sp, st, 0)
  }

  lemma {:induction false} PositionalLevelTakes(sp: Spec, st: State, depth: nat)
    requires |st.chain| == |st.cursors| && forall i :: 0 <= i < |st.chain| ==> st.chain[i] < |sp.cmds|
    requires depth <= |st.chain| && NoneFree(sp, st, depth)
    ensures TakesPositional(sp, st, sp.PositionalLevel(st, depth))
  {
    hide NextAt;
    if depth == 0 {
      NextIsNext(sp.options, st.appCursor);
    } else {
      NextIsNext(sp.cmds[st.chain[depth - 1]].options, st.cursors[depth - 1]);
      if NextAt(sp.cmds[st.chain[depth - 1]].options, st.cursors[depth - 1]).None? {
        PositionalLevelTakes(sp, st, depth - 1);
      }
    }
  }

  lemma NextIsNext(options: seq<OptionSpec>, cursor: nat)
    ensures GetPositional(cursor, options, 0) == NextAt(options, cursor)
  {
    GetPositionalIsNth(cursor, options, 0);
  }

  /** `c` is the first of the given subcommands with the name. */
  predicate FirstNamed(sp: Spec, ids: seq<nat>, name: string, k: nat)
    requires forall i :: 0 <= i < |ids| ==> ids[i] < |sp.cmds|
  {
    k < |ids| && sp.cmds[ids[k]].name == name && forall j :: 0 <= j < k ==> sp.cmds[ids[j]].name != name
  }

  lemma {:induction false} FindCommandIsFirst(sp: Spec, ids: seq<nat>, name: string, k: nat)
    requires forall i :: 0 <= i < |ids| ==> ids[i] < |sp.cmds|
    requires FirstNamed(sp, ids, name, k)
    ensures sp.FindCommand(name, ids) == Some(ids[k])
  {
    if k > 0 {
      assert sp.cmds[ids[0]].name != name;
      assert FirstNamed(sp, ids[1..], name, k - 1);
      FindCommandIsFirst(sp, ids[1..], name, k - 1);
    }
  }

  lemma {:induction false} FindCommandAt(sp: Spec, ids: seq<nat>, name: string) returns (k: nat)
    requires forall i :: 0 <= i < |ids| ==> ids[i] < |sp.cmds|
    requires sp.FindCommand(name, ids).Some?
    ensures FirstNamed(sp, ids, name, k) && sp.FindCommand(name, ids) == Some(ids[k])
  {
    if sp.cmds[ids[0]].name == name {
      k := 0;
    } else {
      var k' := FindCommandAt(sp, ids[1..], name);
      k := k' + 1;
    }
  }

  // ---------------------------------------------------------------------------------------------
  // Whole runs
  // ---------------------------------------------------------------------------------------------

  lemma StartKeeps(sp: Spec, st: State)
    requires st == Spec.Start(st.foundCmds, st.used, st.values)
    ensures sp.WellFormed(st) && RunInv(sp, st, st.foundCmds, st.used, [])
  {
    NothingFilled(sp.options);
  }

  lemma {:induction false} LoopKeeps(sp: Spec, st: State, toks: seq<string>, foundCmds: set<nat>, used: set<OptRef>,
                                     consumed: seq<string>)
    requires sp.Valid() && sp.WellFormed(st) && RunInv(sp, st, foundCmds, used, consumed)
    ensures sp.Loop(st, toks).Done? ==> RunInv(sp, sp.Loop(st, toks).st, foundCmds, used, consumed + toks)
    decreases |toks|
  {
    hide RunInv;
    hide Spec.Valid;
    hide Spec.WellFormed;
    hide Spec.Loop;
    hide Spec.Step;
    sp.LoopUnfolds(st, toks);
    if toks == [] {
      assert consumed + toks == consumed;
    } else if sp.Step(st, toks).Done? {
      var st' := sp.Step(st, toks).st;
      var n := Spec.LastTaken(st');
      StepKeeps(sp, st, toks, st', foundCmds, used, consumed);
      LoopKeeps(sp, st', toks[n..], foundCmds, used, consumed + toks[..n]);
      assert consumed + toks[..n] + toks[n..] == consumed + toks;
    }
  }

  lemma StepHelps(sp: Spec, st: State, toks: seq<string>)
    requires sp.Valid() && sp.WellFormed(st) && toks != []
    ensures var r := sp.Step(st, toks);
      r.Helped? ==>
        && toks[0] in ["-h", "--help"]
        && r == Helped(if st.chain == [] then Root else Cmd(st.chain[|st.chain| - 1]), st)
  {
  }

  /** A run that ends by showing help kept the invariant up to the help token. */
  lemma {:induction false} LoopKeepsUntilHelp(sp: Spec, st: State, toks: seq<string>, foundCmds: set<nat>,
                                              used: set<OptRef>, consumed: seq<string>)
    returns (k: nat)
    requires sp.Valid() && sp.WellFormed(st) && RunInv(sp, st, foundCmds, used, consumed)
    requires sp.Loop(st, toks).Helped?
    ensures k < |toks| && toks[k] in ["-h", "--help"]
    ensures RunInv(sp, sp.Loop(st, toks).st, foundCmds, used, consumed + toks[..k])
    ensures var chain := sp.Loop(st, toks).st.chain;
      sp.Loop(st, toks).about == if chain == [] then Root else Cmd(chain[|chain| - 1])
    decreases |toks|
  {
    hide RunInv;
    hide Spec.Valid;
    hide Spec.WellFormed;
    hide Spec.Loop;
    hide Spec.Step;
    sp.LoopUnfolds(st, toks);
    StepHelps(sp, st, toks);
    if sp.Step(st, toks).Done? {
      var st' := sp.Step(st, toks).st;
      var n := Spec.LastTaken(st');
      StepKeeps(sp, st, toks, st', foundCmds, used, consumed);
      var k' := LoopKeepsUntilHelp(sp, st', toks[n..], foundCmds, used, consumed + toks[..n]);
      k := n + k';
      assert consumed + toks[..n] + toks[n..][..k'] == consumed + toks[..k];
    } else {
      k := 0;
      assert consumed + toks[..0] == consumed;
    }
  }

  lemma FilledOnce(options: seq<OptionSpec>, cursor: nat, filled: seq<nat>)
    requires LevelInv(options, cursor, filled)
    ensures Increasing(filled)
    ensures forall i :: 0 <= i < |filled| ==> filled[i] < |options|
  {
    forall i, j | 0 <= i < j < |filled|
      ensures filled[i] < filled[j]
    {
      PositionalsIncrease(options, 0, i, j);
    }
    forall i | 0 <= i < |filled|
      ensures filled[i] < |options|
    {
      PositionalsBound(options, 0, i);
    }
  }

  /**
   The run invariant of `parse`. When the token loop gets through all tokens:
   - every token was consumed exactly once, in order, and none beginning with '-' as a value, a
     positional or a subcommand;
   - the active chain is a root-to-descendant path; the subcommands found are exactly that chain, so
     only its first one is top-level;
   - every level filled a declaration-order prefix of its positionals, none twice, its cursor counts
     them, and no other subcommand filled any; the cursors add up to the positional tokens consumed.
   */
  lemma ParseRun(sp: Spec, used: set<OptRef>, values: map<OptRef, string>, toks: seq<string>)
    requires sp.Valid()
    requires sp.Loop(Spec.Start({}, used, values), toks).Done?
    ensures var st := sp.Loop(Spec.Start({}, used, values), toks).st;
      && RunInv(sp, st, {}, used, toks)
      && (forall c :: c in st.foundCmds <==> c in st.chain)
      && (forall c :: c in st.foundCmds && c in sp.subs ==> c == st.chain[0])
      && (forall l :: 0 <= l < |st.chain| ==>
            && Increasing(Filled(st.log, Cmd(st.chain[l])))
            && |Filled(st.log, Cmd(st.chain[l]))| == st.cursors[l])
      && Increasing(Filled(st.log, Root)) && |Filled(st.log, Root)| == st.appCursor
  {
    var st0 := Spec.Start({}, used, values);
    StartKeeps(sp, st0);
    LoopKeeps(sp, st0, toks, {}, used, []);
    assert [] + toks == toks;
    var st := sp.Loop(st0, toks).st;
    hide Filled;
    TopLevelIsFirst(sp, st.chain);
    forall l | 0 <= l < |st.chain|
      ensures Increasing(Filled(st.log, Cmd(st.chain[l]))) && |Filled(st.log, Cmd(st.chain[l]))| == st.cursors[l]
    {
      FilledOnce(sp.cmds[st.chain[l]].options, st.cursors[l], Filled(st.log, Cmd(st.chain[l])));
    }
    FilledOnce(sp.options, st.appCursor, Filled(st.log, Root));
  }

  lemma TopLevelIsFirst(sp: Spec, chain: seq<nat>)
    requires sp.Valid() && sp.IsPath(chain)
    ensures forall i :: 0 <= i < |chain| && chain[i] in sp.subs ==> i == 0
  {
    forall i | 0 < i < |chain|
      ensures chain[i] !in sp.subs
    {
      assert chain[(i - 1) + 1] in sp.cmds[chain[i - 1]].subs;
      assert sp.cmds[chain[i]].parent == Some(chain[i - 1]);
    }
  }
}
