/** What the options hold after a run of either pass: the transformed raw value of the last token that set them. */
module CmdLineValues {
  import opened Common
  import opened CmdLine
  import opened CmdLineRun
  import opened CmdLineExact
  import opened CmdLineEarly

  /**
   Everything one token of the first pass can come to. Only a dash token whose name, up to the first '=',
   is that of an early option of the application has an effect; an unknown name is an error in strict
   mode, and anything else is skipped.
   */
  lemma EarlyStepExactly(sp: Spec, strict: bool, st: State, toks: seq<string>)
    returns (found: Option<nat>, raw: string, taken: nat)
    requires toks != []
    ensures toks[0] == "" ==> EarlyStep(sp, strict, st, toks) == Failed(EmptyToken, st)
    ensures toks[0] != "" && toks[0][0] != '-' ==> EarlyStep(sp, strict, st, toks) == Done(st)
    ensures found == FindOption(NameOf(toks[0]), sp.options)
    ensures toks[0] != "" && toks[0][0] == '-' ==>
      match found
      case None =>
        EarlyStep(sp, strict, st, toks) == if strict then Failed(UnknownOption(NameOf(toks[0])), st) else Done(st)
      case Some(i) =>
        var o, r := sp.options[i], OptRef(Root, i);
        if !o.early then EarlyStep(sp, strict, st, toks) == Done(st)
        else if ValueMissing(o, toks) then
          EarlyStep(sp, strict, st, toks)
          == Failed(if |toks| > 1 && toks[1] == "" then EmptyToken else MissingValue(NameOf(toks[0])), st)
        else
          && taken <= |toks| && ValueFrom(o, toks, raw, taken)
          && EarlyStep(sp, strict, st, toks)
             == if Passes(o, raw) then
                  Done(st.(used := st.used + {r}, values := st.values[r := o.transform(raw).value],
                           log := st.log + [Named(r, NameOf(toks[0]), raw, toks[..taken])]))
                else Failed(Rejected(r), st)
  {
    hide FindOption;
    hide Passes;
    found := FindOption(NameOf(toks[0]), sp.options);
    raw, taken := "", 0;
    if found.Some? {
      ValueForMeans(sp.options[found.value], toks);
      var v := ValueFor(sp.options[found.value], toks[0], toks[1..]);
      hide ValueFor;
      if v.Ok? {
        raw, taken := v.value.0, 1 + v.value.1;
      }
    }
  }

  // ---------------------------------------------------------------------------------------------
  // Values over runs
  // ---------------------------------------------------------------------------------------------

  /** Entry `i` of the log is the last to set option `r`. */
  predicate LastSets(log: seq<Action>, i: nat, r: OptRef) {
    && i < |log| && !log[i].Enter? && log[i].opt == r
    && forall j :: i < j < |log| ==> log[j].Enter? || log[j].opt != r
  }

  predicate NeverSet(log: seq<Action>, r: OptRef) {
    forall j :: 0 <= j < |log| ==> log[j].Enter? || log[j].opt != r
  }

  /** The action took its raw value from its tokens, the value passes, and `v` is what the transformer makes of it. */
  predicate Gives(sp: Spec, a: Action, v: string)
    requires !a.Enter? && sp.ValidRef(a.opt)
  {
    var o := sp.Opt(a.opt);
    match a
    case Named(_, _, raw, tokens) =>
      tokens != [] && ValueFrom(o, tokens, raw, |tokens|) && Passes(o, raw) && o.transform(raw) == Some(v)
    case Positional(_, tokens) => |tokens| == 1 && Passes(o, tokens[0]) && o.transform(tokens[0]) == Some(v)
  }

  /**
   What the options hold after the actions of the log: each option set holds what the last action that
   set it gives, and is used; every other one is used and holds what it was and did before.
   */
  ghost predicate Values(sp: Spec, st: State, log: seq<Action>, used: set<OptRef>, values: map<OptRef, string>) {
    && (forall i: nat, r :: LastSets(log, i, r) ==>
          sp.ValidRef(r) && r in st.used && r in st.values && Gives(sp, log[i], st.values[r]))
    && (forall r :: NeverSet(log, r) ==>
          && (r in st.used <==> r in used)
          && (r in st.values <==> r in values) && (r in values ==> st.values[r] == values[r]))
  }

  lemma NothingSet(sp: Spec, st: State)
    ensures Values(sp, st, [], st.used, st.values)
  {
  }

  lemma EntersKeep(sp: Spec, st: State, st': State, log: seq<Action>, a: Action, used: set<OptRef>,
                   values: map<OptRef, string>)
    requires Values(sp, st, log, used, values) && a.Enter? && st'.used == st.used && st'.values == st.values
    ensures Values(sp, st', log + [a], used, values)
  {
    var log' := log + [a];
    forall i: nat, r | LastSets(log', i, r)
      ensures LastSets(log, i, r)
    {
      assert forall j :: 0 <= j < |log| ==> log'[j] == log[j];
    }
    forall r | NeverSet(log', r)
      ensures NeverSet(log, r)
    {
      assert forall j :: 0 <= j < |log| ==> log'[j] == log[j];
    }
  }

  lemma SetsKeep(sp: Spec, st: State, st': State, log: seq<Action>, a: Action, v: string, used: set<OptRef>,
                 values: map<OptRef, string>)
    requires Values(sp, st, log, used, values) && !a.Enter? && sp.ValidRef(a.opt) && Gives(sp, a, v)
    requires st'.used == st.used + {a.opt} && st'.values == st.values[a.opt := v]
    ensures Values(sp, st', log + [a], used, values)
  {
    hide Gives;
    hide Spec.ValidRef;
    var log' := log + [a];
    assert forall j :: 0 <= j < |log| ==> log'[j] == log[j];
    forall i: nat, r | LastSets(log', i, r)
      ensures sp.ValidRef(r) && r in st'.used && r in st'.values && Gives(sp, log'[i], st'.values[r])
    {
      if i < |log| {
        assert log'[|log|].opt != r;
        assert LastSets(log, i, r);
      }
    }
    forall r | NeverSet(log', r)
      ensures NeverSet(log, r) && r != a.opt
    {
      assert log'[|log|] == a;
    }
  }

  /** One iteration of `parse`: it logs what it does, whatever it comes to. */
  lemma StepValues(sp: Spec, st: State, toks: seq<string>, log: seq<Action>, used: set<OptRef>,
                   values: map<OptRef, string>)
    requires sp.Valid() && sp.WellFormed(st) && toks != [] && Values(sp, st, log, used, values)
    ensures var r := sp.Step(st, toks);
      && (!r.Done? ==> r.st.log == st.log && Values(sp, r.st, log, used, values))
      && (r.Done? ==>
            && |r.st.log| == |st.log| + 1 && st.log <= r.st.log
            && Values(sp, r.st, log + [r.st.log[|st.log|]], used, values))
  {
    StepExactly(sp, st, toks);
    var r := sp.Step(st, toks);
    hide Values;
    hide Spec.Valid;
    if r.Helped? || toks[0] == "" {
    } else if toks[0][0] == '-' {
      var found, raw, taken := DashTokenExactly(sp, st, toks);
      hide Spec.Step;
      hide Spec.NamedStep;
      hide Resolves;
      if r.Done? {
        var a := Named(found.value, NameOf(toks[0]), raw, toks[..taken]);
        hide Spec.WellFormed;
        assert r.st.log == st.log + [a];
        SameTokens(sp.Opt(found.value), toks, raw, taken);
        SetsKeep(sp, st, r.st, log, a, sp.Opt(found.value).transform(raw).value, used, values);
      } else {
        SameValues(sp, st, r.st, log, used, values);
      }
    } else {
      var k := PlainTokenExactly(sp, st, toks);
      if k.Some? {
        EntersKeep(sp, st, r.st, log, r.st.log[|st.log|], used, values);
      } else {
        PositionalValues(sp, st, toks[0], log, used, values);
      }
    }
  }

  lemma SameTokens(o: OptionSpec, toks: seq<string>, raw: string, taken: nat)
    requires toks != [] && taken <= |toks| && ValueFrom(o, toks, raw, taken)
    ensures taken > 0 && ValueFrom(o, toks[..taken], raw, taken)
  {
  }

  lemma SameValues(sp: Spec, st: State, st': State, log: seq<Action>, used: set<OptRef>, values: map<OptRef, string>)
    requires Values(sp, st, log, used, values) && st'.used == st.used && st'.values == st.values
    ensures Values(sp, st', log, used, values)
  {
  }

  lemma PositionalValues(sp: Spec, st: State, token: string, log: seq<Action>, used: set<OptRef>,
                         values: map<OptRef, string>)
    requires sp.Valid() && sp.WellFormed(st) && Values(sp, st, log, used, values)
    ensures var r := sp.PositionalStep(st, token);
      && !r.Helped? && (!r.Done? ==> r.st.log == st.log && Values(sp, r.st, log, used, values))
      && (r.Done? ==>
            && |r.st.log| == |st.log| + 1 && st.log <= r.st.log
            && Values(sp, r.st, log + [r.st.log[|st.log|]], used, values))
  {
    hide Values;
    var lvl := PositionalTokenExactly(sp, st, token);
    var r := sp.PositionalStep(st, token);
    hide Spec.PositionalStep;
    hide Spec.Valid;
    hide TakesPositional;
    if r.Done? {
      var ref := NextOf(sp, st, lvl.value).value;
      hide NextOf;
      SetsKeep(sp, st, r.st, log, Positional(ref, [token]), sp.Opt(ref).transform(token).value, used, values);
    } else {
      SameValues(sp, st, r.st, log, used, values);
    }
  }

  lemma {:induction false} LoopKeepsValues(sp: Spec, st: State, toks: seq<string>, log: seq<Action>, used: set<OptRef>,
                                           values: map<OptRef, string>)
    requires sp.Valid() && sp.WellFormed(st) && Values(sp, st, log, used, values)
    ensures st.log <= sp.Loop(st, toks).st.log
    ensures Values(sp, sp.Loop(st, toks).st, log + Since(st, sp.Loop(st, toks).st), used, values)
    decreases |toks|
  {
    hide Values;
    hide Spec.Valid;
    hide Spec.WellFormed;
    hide Spec.Loop;
    sp.LoopUnfolds(st, toks);
    assert log + [] == log && Since(st, st) == [];
    if toks != [] {
      StepValues(sp, st, toks, log, used, values);
      hide Spec.Step;
      var st' := sp.Step(st, toks).st;
      if sp.Step(st, toks).Done? {
        var a := st'.log[|st.log|];
        LoopKeepsValues(sp, st', toks[Spec.LastTaken(st')..], log + [a], used, values);
        var end := sp.Loop(st, toks).st;
        assert Since(st, end) == [a] + Since(st', end);
        assert log + [a] + Since(st', end) == log + Since(st, end);
      } else {
        assert Since(st, st') == [];
      }
    }
  }

  /**
   Values of a run of `parse`, however it ends. Every option that has come to be used holds what its
   transformer makes of the raw value of the last token that set it, which the checker and the setter let
   pass; options no token set hold what they did.
   */
  lemma ParseValues(sp: Spec, st: State, toks: seq<string>)
    requires sp.Valid() && st == Spec.Start(st.foundCmds, st.used, st.values)
    ensures sp.WellFormed(st)
    ensures var end := sp.Loop(st, toks).st;
      && Values(sp, end, end.log, st.used, st.values)
      && forall r :: r in end.used && r !in st.used ==> exists i: nat :: LastSets(end.log, i, r)
  {
    hide Values;
    hide Spec.Loop;
    NothingSet(sp, st);
    LoopKeepsValues(sp, st, toks, [], st.used, st.values);
    var end := sp.Loop(st, toks).st;
    assert [] + Since(st, end) == end.log;
    UsedWereSet(sp, end, end.log, st.used, st.values);
  }

  /** An option used that was not before has been set. */
  lemma UsedWereSet(sp: Spec, st: State, log: seq<Action>, used: set<OptRef>, values: map<OptRef, string>)
    requires Values(sp, st, log, used, values)
    ensures forall r :: r in st.used && r !in used ==> exists i: nat :: LastSets(log, i, r)
  {
    forall r | r in st.used && r !in used
      ensures exists i: nat :: LastSets(log, i, r)
    {
      assert !NeverSet(log, r);
      var i := LastOf(log, r);
    }
  }

  lemma {:induction false} LastOf(log: seq<Action>, r: OptRef) returns (i: nat)
    requires !NeverSet(log, r)
    ensures LastSets(log, i, r)
  {
    var n := |log| - 1;
    if !log[n].Enter? && log[n].opt == r {
      i := n;
    } else {
      var before := log[..n];
      var j :| 0 <= j < |log| && !(log[j].Enter? || log[j].opt != r);
      assert before[j] == log[j];
      i := LastOf(before, r);
      assert forall k :: 0 <= k < n ==> before[k] == log[k];
    }
  }

  // ---------------------------------------------------------------------------------------------
  // The first pass
  // ---------------------------------------------------------------------------------------------

  lemma EarlyStepValues(sp: Spec, strict: bool, st: State, toks: seq<string>, log: seq<Action>, used: set<OptRef>,
                        values: map<OptRef, string>)
    requires toks != [] && Values(sp, st, log, used, values)
    ensures var st' := EarlyStep(sp, strict, st, toks).st;
      && st.log <= st'.log && Values(sp, st', log + Since(st, st'), used, values)
  {
    hide Values;
    var found, raw, taken := EarlyStepExactly(sp, strict, st, toks);
    var r := EarlyStep(sp, strict, st, toks);
    hide EarlyStep;
    assert log + [] == log && Since(st, st) == [];
    if r.st != st {
      var ref := OptRef(Root, found.value);
      assert sp.ValidRef(ref) && sp.Opt(ref) == sp.options[found.value];
      var a := Named(ref, NameOf(toks[0]), raw, toks[..taken]);
      SameTokens(sp.Opt(ref), toks, raw, taken);
      SetsKeep(sp, st, r.st, log, a, sp.Opt(ref).transform(raw).value, used, values);
      assert Since(st, r.st) == [a];
    }
  }

  lemma {:induction false} EarlyLoopKeepsValues(sp: Spec, strict: bool, st: State, toks: seq<string>, log: seq<Action>,
                                                used: set<OptRef>, values: map<OptRef, string>)
    requires Values(sp, st, log, used, values)
    ensures st.log <= EarlyLoop(sp, strict, st, toks).st.log
    ensures var end := EarlyLoop(sp, strict, st, toks).st; Values(sp, end, log + Since(st, end), used, values)
    decreases |toks|
  {
    hide Values;
    hide EarlyLoop;
    EarlyLoopUnfolds(sp, strict, st, toks);
    assert log + [] == log && Since(st, st) == [];
    if toks != [] {
      EarlyStepValues(sp, strict, st, toks, log, used, values);
      hide EarlyStep;
      var st', end := EarlyStep(sp, strict, st, toks).st, EarlyLoop(sp, strict, st, toks).st;
      if EarlyStep(sp, strict, st, toks).Done? {
        EarlyLoopKeepsValues(sp, strict, st', toks[EarlyTaken(st, st')..], log + Since(st, st'), used, values);
        assert Since(st, end) == Since(st, st') + Since(st', end);
        assert log + Since(st, st') + Since(st', end) == log + Since(st, end);
      }
    }
  }

  /** Values of a run of the first pass, however it ends. */
  lemma EarlyValues(sp: Spec, strict: bool, st: State, toks: seq<string>)
    requires st.log == []
    ensures var end := EarlyLoop(sp, strict, st, toks).st;
      && Values(sp, end, end.log, st.used, st.values)
      && forall r :: r in end.used && r !in st.used ==> exists i: nat :: LastSets(end.log, i, r)
  {
    hide Values;
    hide EarlyLoop;
    NothingSet(sp, st);
    EarlyLoopKeepsValues(sp, strict, st, toks, [], st.used, st.values);
    var end := EarlyLoop(sp, strict, st, toks).st;
    assert [] + Since(st, end) == end.log;
    UsedWereSet(sp, end, end.log, st.used, st.values);
  }
}
