/** `parse_earlies`, the first pass over the tokens, and its agreement with `parse`. */
module CmdLineEarly {
  import opened Common
  import opened CmdLine
  import opened CmdLineRun

  /** A token the first pass skips whatever it is for. */
  predicate IsPlain(token: string) {
    token != "" && !IsDash(token)
  }

  /** One iteration of the first pass. It looks only at the application's options, and only acts on early ones. */
  function EarlyStep(sp: Spec, strict: bool, st: State, toks: seq<string>): RunResult
    requires toks != []
  {
    var token, name := toks[0], NameOf(toks[0]);
    if token == "" then Failed(EmptyToken, st)
    else if !IsDash(token) then Done(st)
    else
      match FindOption(name, sp.options)
      case None => if strict then Failed(UnknownOption(name), st) else Done(st)
      case Some(i) =>
        if !sp.options[i].early then Done(st)
        else
          match ValueFor(sp.options[i], token, toks[1..])
          case Err(e) => Failed(e, st)
          case Ok((raw, extra)) =>
            match Accept(sp.options[i], raw)
            case None => Failed(Rejected(OptRef(Root, i)), st)
            case Some(v) =>
              Done(sp.Record(st, Named(OptRef(Root, i), name, raw, toks[..1 + extra]), OptRef(Root, i), v))
  }

  /** Tokens taken by one iteration: one, unless an option was set from the token after it. */
  function EarlyTaken(st: State, st': State): nat {
    if |st'.log| > |st.log| then Spec.LastTaken(st') else 1
  }

  lemma EarlyStepTakes(sp: Spec, strict: bool, st: State, toks: seq<string>)
    requires toks != [] && EarlyStep(sp, strict, st, toks).Done?
    ensures 1 <= EarlyTaken(st, EarlyStep(sp, strict, st, toks).st) <= |toks|
  {
  }

  function EarlyLoop(sp: Spec, strict: bool, st: State, toks: seq<string>): RunResult
    decreases |toks|
  {
    if toks == [] then Done(st)
    else
      match EarlyStep(sp, strict, st, toks)
      case Done(st') =>
        EarlyStepTakes(sp, strict, st, toks);
        EarlyLoop(sp, strict, st', toks[EarlyTaken(st, st')..])
      case stop => stop
  }

  lemma EarlyLoopUnfolds(sp: Spec, strict: bool, st: State, toks: seq<string>)
    ensures toks == [] ==> EarlyLoop(sp, strict, st, toks) == Done(st)
    ensures toks != [] && !EarlyStep(sp, strict, st, toks).Done? ==>
      EarlyLoop(sp, strict, st, toks) == EarlyStep(sp, strict, st, toks)
    ensures toks != [] && EarlyStep(sp, strict, st, toks).Done? ==>
      var st' := EarlyStep(sp, strict, st, toks).st;
      && 1 <= EarlyTaken(st, st') <= |toks|
      && EarlyLoop(sp, strict, st, toks) == EarlyLoop(sp, strict, st', toks[EarlyTaken(st, st')..])
  {
    if toks != [] && EarlyStep(sp, strict, st, toks).Done? {
      EarlyStepTakes(sp, strict, st, toks);
    }
  }

  // ---------------------------------------------------------------------------------------------
  // The events the two passes should agree on
  // ---------------------------------------------------------------------------------------------

  /** The action sets an early option of the application by name. */
  predicate IsEarly(sp: Spec, a: Action) {
    a.Named? && a.opt.owner == Root && a.opt.index < |sp.options| && sp.options[a.opt.index].early
  }

  /** The action sets a subcommand's option by a name that also finds an early option of the application. */
  predicate IsShadowing(sp: Spec, a: Action) {
    a.Named? && a.opt.owner.Cmd? && FindsEarly(sp, a.name)
  }

  predicate FindsEarly(sp: Spec, name: string) {
    var i := FindOption(name, sp.options);
    i.Some? && sp.options[i.value].early
  }

  /** The early-option events of a run of `parse`. */
  function EarlyActions(sp: Spec, log: seq<Action>): seq<Action> {
    if log == [] then [] else (if IsEarly(sp, log[0]) then [log[0]] else []) + EarlyActions(sp, log[1..])
  }

  function Shadowings(sp: Spec, log: seq<Action>): nat {
    if log == [] then 0 else (if IsShadowing(sp, log[0]) then 1 else 0) + Shadowings(sp, log[1..])
  }

  /** The early events of a log are those of its parts, in order. */
  lemma {:induction false} EarlyActionsAppend(sp: Spec, x: seq<Action>, y: seq<Action>)
    ensures EarlyActions(sp, x + y) == EarlyActions(sp, x) + EarlyActions(sp, y)
  {
    hide IsEarly;
    if x == [] {
      assert x + y == y;
    } else {
      var first := if IsEarly(sp, x[0]) then [x[0]] else [];
      EarlyActionsAppend(sp, x[1..], y);
      assert (x + y)[1..] == x[1..] + y && (x + y)[0] == x[0];
      Associative(first, EarlyActions(sp, x[1..]), EarlyActions(sp, y));
    }
  }

  lemma Associative<T>(a: seq<T>, b: seq<T>, c: seq<T>)
    ensures a + (b + c) == a + b + c
  {
  }

  /** A single action is an early event or is none. */
  lemma EarlyActionsOne(sp: Spec, a: Action)
    ensures EarlyActions(sp, []) == [] && EarlyActions(sp, [a]) == if IsEarly(sp, a) then [a] else []
  {
    hide IsEarly;
    assert [a][1..] == [];
  }

  /** No action of the log resolved a name in a subcommand that also names an early option. */
  predicate NoneShadows(sp: Spec, log: seq<Action>) {
    forall i :: 0 <= i < |log| ==> !IsShadowing(sp, log[i])
  }

  lemma {:induction false} ShadowingsNone(sp: Spec, log: seq<Action>)
    ensures Shadowings(sp, log) == 0 <==> NoneShadows(sp, log)
  {
    if log != [] {
      ShadowingsNone(sp, log[1..]);
      assert forall i :: 0 < i < |log| ==> log[i] == log[1..][i - 1];
      if NoneShadows(sp, log) {
        assert NoneShadows(sp, log[1..]);
      }
      if !IsShadowing(sp, log[0]) && NoneShadows(sp, log[1..]) {
        forall i | 0 <= i < |log|
          ensures !IsShadowing(sp, log[i])
        {
          if i > 0 { assert !IsShadowing(sp, log[1..][i - 1]); }
        }
      }
    }
  }

  /** What has been added to the log since `st`. */
  function Since(st: State, st': State): seq<Action> {
    if |st.log| <= |st'.log| then st'.log[|st.log|..] else []
  }

  /**
   The first pass, started in `se`, has kept step with the actions `log` of `parse`: it has one event
   for each early option event and one for each shadowing, and can only have failed at a shadowing.
   */
  ghost predicate InStep(sp: Spec, se: State, re: RunResult, log: seq<Action>) {
    if re.Done? then
      && se.log <= re.st.log
      && |Since(se, re.st)| == |EarlyActions(sp, log)| + Shadowings(sp, log)
      && (Shadowings(sp, log) == 0 ==> Since(se, re.st) == EarlyActions(sp, log))
    else Shadowings(sp, log) > 0
  }

  lemma SkipPlain(sp: Spec, strict: bool, se: State, toks: seq<string>)
    requires toks != [] && IsPlain(toks[0])
    ensures EarlyLoop(sp, strict, se, toks) == EarlyLoop(sp, strict, se, toks[1..])
  {
  }

  /** The first pass over an option token that names no early option: it and its value are skipped. */
  lemma SkipOther(sp: Spec, se: State, toks: seq<string>, n: nat)
    requires 1 <= n <= 2 && n <= |toks| && IsDash(toks[0]) && (n == 2 ==> IsPlain(toks[1]))
    requires !FindsEarly(sp, NameOf(toks[0]))
    ensures EarlyLoop(sp, false, se, toks) == EarlyLoop(sp, false, se, toks[n..])
  {
    assert EarlyLoop(sp, false, se, toks) == EarlyLoop(sp, false, se, toks[1..]);
    if n == 2 {
      SkipPlain(sp, false, se, toks[1..]);
      assert toks[1..][1..] == toks[2..];
    }
  }

  /** The first pass over an option token that names an early option: one event, then on behind it and its value. */
  lemma TakeEarly(sp: Spec, se: State, toks: seq<string>, n: nat)
    requires 1 <= n <= 2 && n <= |toks| && IsDash(toks[0]) && (n == 2 ==> IsPlain(toks[1]))
    requires FindsEarly(sp, NameOf(toks[0]))
    ensures var r := EarlyStep(sp, false, se, toks);
      if r.Done? then
        && |r.st.log| == |se.log| + 1 && se.log <= r.st.log
        && EarlyLoop(sp, false, se, toks) == EarlyLoop(sp, false, r.st, toks[n..])
      else EarlyLoop(sp, false, se, toks) == r
  {
    var r := EarlyStep(sp, false, se, toks);
    if r.Done? {
      var m := EarlyTaken(se, r.st);
      assert EarlyLoop(sp, false, se, toks) == EarlyLoop(sp, false, r.st, toks[m..]);
      assert 1 <= m <= 2 && (m == 2 ==> IsPlain(toks[1]));
      if m != n {
        SkipPlain(sp, false, r.st, toks[1..]);
        assert toks[1..][1..] == toks[2..];
      }
    }
  }

  /** An early event of `parse` is the same event in the first pass. */
  lemma SameEvent(sp: Spec, st: State, se: State, toks: seq<string>, st': State)
    requires sp.Valid() && sp.WellFormed(st) && toks != [] && IsDash(toks[0])
    requires sp.NamedStep(st, toks) == Done(st') && IsEarly(sp, st'.log[|st.log|])
    ensures FindsEarly(sp, NameOf(toks[0]))
    ensures EarlyStep(sp, false, se, toks).Done?
    ensures EarlyStep(sp, false, se, toks).st.log == se.log + [st'.log[|st.log|]]
  {
    hide Spec.Valid;
    hide Spec.IsPath;
  }

  /** Extend the comparison by one action the first pass does not act on. */
  lemma InStepSkip(sp: Spec, se: State, re: RunResult, a: Action, log: seq<Action>)
    requires InStep(sp, se, re, log) && !IsEarly(sp, a) && !IsShadowing(sp, a)
    ensures InStep(sp, se, re, [a] + log)
  {
    assert ([a] + log)[1..] == log;
  }

  /** Extend the comparison by one action at which the first pass logged one event. */
  lemma InStepTake(sp: Spec, se: State, se': State, re: RunResult, a: Action, log: seq<Action>)
    requires InStep(sp, se', re, log) && se.log <= se'.log && |se'.log| == |se.log| + 1
    requires if IsEarly(sp, a) then se'.log == se.log + [a] else IsShadowing(sp, a)
    ensures InStep(sp, se, re, [a] + log)
  {
    assert ([a] + log)[1..] == log;
    if re.Done? {
      assert Since(se, re.st) == [se'.log[|se.log|]] + Since(se', re.st);
    }
  }

  lemma InStepFail(sp: Spec, se: State, re: RunResult, a: Action, log: seq<Action>)
    requires IsShadowing(sp, a) && !re.Done?
    ensures InStep(sp, se, re, [a] + log)
  {
    assert ([a] + log)[1..] == log;
  }

  /** What `parse` makes of a dash token, as far as the first pass is concerned. */
  lemma NamedStepForEarly(sp: Spec, st: State, toks: seq<string>, st': State) returns (a: Action, n: nat)
    requires sp.Valid() && sp.WellFormed(st) && toks != [] && IsDash(toks[0])
    requires sp.NamedStep(st, toks) == Done(st')
    ensures st'.log == st.log + [a] && n == Spec.LastTaken(st')
    ensures 1 <= n <= 2 && n <= |toks| && (n == 2 ==> IsPlain(toks[1]))
    ensures if FindsEarly(sp, NameOf(toks[0])) then IsEarly(sp, a) || IsShadowing(sp, a)
            else !IsEarly(sp, a) && !IsShadowing(sp, a)
    ensures !(IsEarly(sp, a) && IsShadowing(sp, a))
  {
    hide Spec.Valid;
    hide Spec.IsPath;
    a := st'.log[|st.log|];
    n := Spec.LastTaken(st');
  }

  lemma PlainStepForEarly(sp: Spec, st: State, toks: seq<string>, st': State) returns (a: Action)
    requires sp.Valid() && sp.WellFormed(st) && toks != [] && !IsDash(toks[0])
    requires sp.Step(st, toks) == Done(st')
    ensures st'.log == st.log + [a] && Spec.LastTaken(st') == 1 && IsPlain(toks[0])
    ensures !IsEarly(sp, a) && !IsShadowing(sp, a)
  {
    a := st'.log[|st.log|];
  }

  /**
   The first pass over what one iteration of `parse` consumed: from `se` to `se'`, with no event when
   the action is neither early nor a shadowing, with one event otherwise; it can only fail at a shadowing.
   */
  ghost predicate Follows(sp: Spec, a: Action, se: State, toks: seq<string>, n: nat, se': State) {
    && toks != [] && n <= |toks|
    && if IsEarly(sp, a) || IsShadowing(sp, a) then
         if EarlyStep(sp, false, se, toks).Done? then
           && EarlyLoop(sp, false, se, toks) == EarlyLoop(sp, false, se', toks[n..])
           && se.log <= se'.log && |se'.log| == |se.log| + 1
           && (IsEarly(sp, a) ==> se'.log == se.log + [a])
         else IsShadowing(sp, a) && !IsEarly(sp, a) && !EarlyLoop(sp, false, se, toks).Done?
       else se' == se && EarlyLoop(sp, false, se, toks) == EarlyLoop(sp, false, se, toks[n..])
  }

  lemma FollowDash(sp: Spec, st: State, se: State, toks: seq<string>, st': State)
    returns (a: Action, n: nat, se': State)
    requires sp.Valid() && sp.WellFormed(st) && toks != [] && IsDash(toks[0])
    requires sp.NamedStep(st, toks) == Done(st')
    ensures st'.log == st.log + [a] && n == Spec.LastTaken(st') && toks != []
    ensures Follows(sp, a, se, toks, n, se')
  {
    hide Spec.Valid;
    hide Spec.WellFormed;
    hide EarlyLoop;
    se' := se;
    a, n := NamedStepForEarly(sp, st, toks, st');
    if FindsEarly(sp, NameOf(toks[0])) {
      TakeEarly(sp, se, toks, n);
      if IsEarly(sp, a) {
        SameEvent(sp, st, se, toks, st');
      }
      hide Spec.NamedStep;
      hide EarlyStep;
      se' := EarlyStep(sp, false, se, toks).st;
    } else {
      SkipOther(sp, se, toks, n);
    }
  }

  /** Both passes walk the same tokens: they stay in step from any pair of states. */
  lemma {:induction false} Synchronised(sp: Spec, st: State, se: State, toks: seq<string>)
    requires sp.Valid() && sp.WellFormed(st) && sp.Loop(st, toks).Done?
    ensures st.log <= sp.Loop(st, toks).st.log
    ensures InStep(sp, se, EarlyLoop(sp, false, se, toks), Since(st, sp.Loop(st, toks).st))
    decreases |toks|
  {
    hide Spec.Valid;
    hide Spec.WellFormed;
    hide Spec.Loop;
    sp.LoopUnfolds(st, toks);
    if toks == [] {
      return;
    }
    var st', end := sp.Step(st, toks).st, sp.Loop(st, toks).st;
    var a, n, se' := FollowStep(sp, st, se, toks, st');
    var rest := toks[n..];
    hide EarlyStep;
    hide EarlyLoop;
    hide Spec.Step;
    Synchronised(sp, st', se', rest);
    var re, log := EarlyLoop(sp, false, se', rest), Since(st', end);
    hide InStep;
    hide IsEarly;
    hide IsShadowing;
    hide EarlyActions;
    hide Shadowings;
    SinceOneMore(st, st', end, a);
    hide Since;
    if !IsEarly(sp, a) && !IsShadowing(sp, a) {
      InStepSkip(sp, se, re, a, log);
    } else if EarlyStep(sp, false, se, toks).Done? {
      InStepTake(sp, se, se', re, a, log);
    } else {
      InStepFail(sp, se, EarlyLoop(sp, false, se, toks), a, log);
    }
  }

  lemma SinceOneMore(st: State, st': State, end: State, a: Action)
    requires st'.log == st.log + [a] && st'.log <= end.log
    ensures st.log <= end.log && Since(st, end) == [a] + Since(st', end)
  {
  }

  lemma FollowStep(sp: Spec, st: State, se: State, toks: seq<string>, st': State)
    returns (a: Action, n: nat, se': State)
    requires sp.Valid() && sp.WellFormed(st) && toks != [] && sp.Step(st, toks) == Done(st')
    ensures st'.log == st.log + [a] && n == Spec.LastTaken(st')
    ensures Follows(sp, a, se, toks, n, se')
  {
    if IsDash(toks[0]) {
      a, n, se' := FollowDash(sp, st, se, toks, st');
    } else {
      a := PlainStepForEarly(sp, st, toks, st');
      SkipPlain(sp, false, se, toks);
      n, se' := 1, se;
    }
  }

  // ---------------------------------------------------------------------------------------------
  // Two-pass agreement
  // ---------------------------------------------------------------------------------------------

  /** The first pass reads the program name as a token; this one makes it do nothing. */
  predicate Harmless(sp: Spec, program: string) {
    program != "" && !(IsDash(program) && FindsEarly(sp, NameOf(program)))
  }

  /** A harmless program name is skipped; any other one fails the first pass or leaves an event of its own. */
  lemma ProgramToken(sp: Spec, se: State, program: string, args: seq<string>) returns (se': State)
    ensures var re := EarlyLoop(sp, false, se, [program] + args);
      if Harmless(sp, program) then re == EarlyLoop(sp, false, se, args)
      else
        re.Done? ==>
          && re == EarlyLoop(sp, false, se', args)
          && se.log <= se'.log && |se'.log| == |se.log| + 1
  {
    hide EarlyLoop;
    hide FindOption;
    var toks := [program] + args;
    se' := se;
    assert toks[1..] == args && toks[0] == program;
    EarlyLoopUnfolds(sp, false, se, toks);
    if IsPlain(program) {
      SkipPlain(sp, false, se, toks);
    } else if program != "" {
      if FindsEarly(sp, NameOf(program)) {
        TakeEarly(sp, se, toks, 1);
        se' := EarlyStep(sp, false, se, toks).st;
      } else {
        SkipOther(sp, se, toks, 1);
      }
    }
  }

  /** What keeping step means for the events: they agree exactly when nothing was shadowed. */
  lemma InStepAgrees(sp: Spec, se: State, re: RunResult, log: seq<Action>)
    requires InStep(sp, se, re, log)
    ensures Shadowings(sp, log) == 0 <==> re.Done? && Since(se, re.st) == EarlyActions(sp, log)
  {
  }

  /** An event logged before the arguments is one too many. */
  lemma ExtraEvent(sp: Spec, se: State, se': State, re: RunResult, log: seq<Action>)
    requires InStep(sp, se', re, log) && se.log <= se'.log && |se'.log| == |se.log| + 1
    ensures !(re.Done? && Since(se, re.st) == EarlyActions(sp, log))
  {
  }

  /**
   Two-pass agreement, run by run. Whenever the token loop of `parse` gets through its arguments, the
   first pass over the whole argument vector succeeds with exactly the early-option events of `parse`
   if and only if the program name is harmless and `parse` resolved no option name in a subcommand that
   also names an early option.
   */
  lemma TwoPassAgreement(sp: Spec, st: State, se: State, program: string, args: seq<string>)
    requires sp.Valid() && sp.WellFormed(st) && sp.Loop(st, args).Done?
    ensures var log, re := Since(st, sp.Loop(st, args).st), EarlyLoop(sp, false, se, [program] + args);
      Harmless(sp, program) && NoneShadows(sp, log) <==> re.Done? && Since(se, re.st) == EarlyActions(sp, log)
  {
    hide *;
    var log := Since(st, sp.Loop(st, args).st);
    var re := EarlyLoop(sp, false, se, [program] + args);
    var se' := ProgramToken(sp, se, program, args);
    ShadowingsNone(sp, log);
    if Harmless(sp, program) {
      Synchronised(sp, st, se, args);
      InStepAgrees(sp, se, re, log);
    } else if re.Done? {
      Synchronised(sp, st, se', args);
      ExtraEvent(sp, se, se', re, log);
    }
  }

  /** No subcommand option shares a name with an early option of the application. */
  ghost predicate NoSharedNames(sp: Spec) {
    forall c, i, name :: 0 <= c < |sp.cmds| && 0 <= i < |sp.cmds[c].options| && name in sp.cmds[c].options[i].names ==>
      !FindsEarly(sp, name)
  }

  lemma {:induction false} NothingShadowed(sp: Spec, st: State, toks: seq<string>)
    requires sp.Valid() && sp.WellFormed(st) && sp.Loop(st, toks).Done? && NoSharedNames(sp)
    ensures st.log <= sp.Loop(st, toks).st.log
    ensures Shadowings(sp, Since(st, sp.Loop(st, toks).st)) == 0
    decreases |toks|
  {
    hide Spec.WellFormed;
    hide Spec.Loop;
    sp.LoopUnfolds(st, toks);
    if toks != [] {
      var st', end := sp.Step(st, toks).st, sp.Loop(st, toks).st;
      var a := StepShadowsNothing(sp, st, toks, st');
      hide Spec.Step;
      hide NoSharedNames;
      hide Spec.Valid;
      NothingShadowed(sp, st', toks[Spec.LastTaken(st')..]);
      assert Since(st, end) == [a] + Since(st', end);
      assert Since(st, end)[1..] == Since(st', end);
    }
  }

  lemma StepShadowsNothing(sp: Spec, st: State, toks: seq<string>, st': State) returns (a: Action)
    requires sp.Valid() && sp.WellFormed(st) && toks != [] && NoSharedNames(sp) && sp.Step(st, toks) == Done(st')
    ensures st'.log == st.log + [a] && !IsShadowing(sp, a)
  {
    hide Spec.Valid;
    a := st'.log[|st.log|];
  }

  /** For a declaration that shares no names, the program name alone decides: every successful run agrees or none. */
  lemma TwoPassAgreementWithoutSharedNames(sp: Spec, st: State, se: State, program: string, args: seq<string>)
    requires sp.Valid() && sp.WellFormed(st) && sp.Loop(st, args).Done? && NoSharedNames(sp)
    ensures var re := EarlyLoop(sp, false, se, [program] + args);
      Harmless(sp, program) <==> re.Done? && Since(se, re.st) == EarlyActions(sp, Since(st, sp.Loop(st, args).st))
  {
    hide *;
    NothingShadowed(sp, st, args);
    ShadowingsNone(sp, Since(st, sp.Loop(st, args).st));
    TwoPassAgreement(sp, st, se, program, args);
  }

  // ---------------------------------------------------------------------------------------------
  // Where agreement ends
  // ---------------------------------------------------------------------------------------------

  function Flag(name: string, early: bool): OptionSpec {
    OptionSpec([name], false, true, false, early, false, false, x => Some(x), x => true, x => true)
  }

  /** An application with an early flag -q and a subcommand x with a flag -q of its own. */
  function SharedNameSpec(): Spec {
    Spec(true, [Flag("-q", true)], [0], [], [Command("x", None, [Flag("-q", false)], [], false, [])])
  }

  lemma DashQ()
    ensures IsDash("-q") && NameOf("-q") == "-q"
    ensures FindOption("-q", SharedNameSpec().options) == Some(0)
    ensures FindOption("-q", SharedNameSpec().cmds[0].options) == Some(0)
  {
    assert "-q"[1..] == "q" && "q"[1..] == "";
    assert Find('=', "q") == 1;
    assert Find('=', "-q") == 2;
    assert NameOf("-q") == "-q"[..2];
  }

  lemma FirstPassSetsQ(st: State)
    requires st.log == []
    ensures var re := EarlyLoop(SharedNameSpec(), false, st, ["-q"]);
      re.Done? && re.st.log == [Named(OptRef(Root, 0), "-q", "true", ["-q"])]
  {
    var sp := SharedNameSpec();
    DashQ();
    var a := Named(OptRef(Root, 0), "-q", "true", ["-q"]);
    assert ["-q"][..1] == ["-q"];
    assert EarlyStep(sp, false, st, ["-q"]) == Done(sp.Record(st, a, OptRef(Root, 0), "true"));
    assert EarlyTaken(st, sp.Record(st, a, OptRef(Root, 0), "true")) == 1;
    assert ["-q"][1..] == [];
  }

  lemma EnterX(st: State)
    requires st == Spec.Start({}, {}, map[])
    ensures var sp := SharedNameSpec();
      && sp.Valid()
      && sp.Step(st, ["x", "-q"]) == Done(sp.EnterStep(st, 0, "x"))
  {
    var sp := SharedNameSpec();
    assert !IsDash("x") && sp.FindCommand("x", sp.Children([])) == Some(0);
  }

  lemma InX(st: State)
    requires st == SharedNameSpec().EnterStep(Spec.Start({}, {}, map[]), 0, "x")
    ensures var sp := SharedNameSpec();
      && sp.Valid() && sp.WellFormed(st) && st.chain == [0]
      && sp.Lookup([0], "-q") == Some(OptRef(Cmd(0), 0)) && sp.Opt(OptRef(Cmd(0), 0)) == Flag("-q", false)
  {
    DashQ();
    hide NameOf;
    hide FindOption;
  }

  lemma SetQInX(st: State)
    requires st == SharedNameSpec().EnterStep(Spec.Start({}, {}, map[]), 0, "x")
    ensures var sp, r := SharedNameSpec(), OptRef(Cmd(0), 0);
      && sp.Valid() && sp.WellFormed(st)
      && sp.Step(st, ["-q"]) == Done(sp.Record(st, Named(r, "-q", "true", ["-q"]), r, "true"))
  {
    DashQ();
    InX(st);
    hide SharedNameSpec;
    hide Spec.EnterStep;
    hide Spec.Lookup;
    hide Spec.Valid;
    hide Spec.WellFormed;
    hide NameOf;
    hide FindOption;
    assert ["-q"][..1] == ["-q"];
    assert ["-q"][0] == "-q" && "-q"[0] == '-';
    assert SharedNameSpec().Step(st, ["-q"]) == SharedNameSpec().NamedStep(st, ["-q"]);
  }

  lemma ParseSetsSubcommandQ(st: State)
    requires st == Spec.Start({}, {}, map[])
    ensures var sp := SharedNameSpec();
      && sp.Valid()
      && var r := sp.Loop(st, ["x", "-q"]);
         r.Done? && r.st.log == [Enter(0, ["x"]), Named(OptRef(Cmd(0), 0), "-q", "true", ["-q"])]
  {
    var sp, r := SharedNameSpec(), OptRef(Cmd(0), 0);
    var st1 := sp.EnterStep(st, 0, "x");
    var st2 := sp.Record(st1, Named(r, "-q", "true", ["-q"]), r, "true");
    EnterX(st);
    SetQInX(st1);
    hide Spec.Step;
    hide Spec.Loop;
    assert ["x", "-q"][1..] == ["-q"] && ["-q"][1..] == [];
    sp.LoopUnfolds(st, ["x", "-q"]);
    sp.LoopUnfolds(st1, ["-q"]);
    sp.LoopUnfolds(st2, []);
  }

  lemma NothingEarly(sp: Spec, a: Action, b: Action)
    requires !IsEarly(sp, a) && !IsEarly(sp, b)
    ensures EarlyActions(sp, [a, b]) == []
  {
    assert [a, b][1..] == [b] && [b][1..] == [];
    assert EarlyActions(sp, [b]) == [];
  }

  /**
   With a shared name the passes part: on `x -q` the first pass sets the application's -q, `parse` the
   subcommand's.
   */
  lemma SharedNameDisagrees()
    ensures var sp, st := SharedNameSpec(), Spec.Start({}, {}, map[]);
      && sp.Valid() && sp.Loop(st, ["x", "-q"]).Done?
      && var log, re := Since(st, sp.Loop(st, ["x", "-q"]).st), EarlyLoop(sp, false, st, ["pmt", "x", "-q"]);
         EarlyActions(sp, log) == [] && re.Done? && Since(st, re.st) == [Named(OptRef(Root, 0), "-q", "true", ["-q"])]
  {
    hide SharedNameSpec;
    hide Spec.Loop;
    hide Spec.Valid;
    hide EarlyLoop;
    hide EarlyActions;
    var sp, st := SharedNameSpec(), Spec.Start({}, {}, map[]);
    ParseSetsSubcommandQ(st);
    FirstPassSetsQ(st);
    FirstPassSkipsX(sp, st);
    NothingEarly(sp, Enter(0, ["x"]), Named(OptRef(Cmd(0), 0), "-q", "true", ["-q"]));
  }

  lemma FirstPassSkipsX(sp: Spec, st: State)
    ensures EarlyLoop(sp, false, st, ["pmt", "x", "-q"]) == EarlyLoop(sp, false, st, ["-q"])
  {
    hide EarlyLoop;
    SkipPlain(sp, false, st, ["pmt", "x", "-q"]);
    assert ["pmt", "x", "-q"][1..] == ["x", "-q"];
    SkipPlain(sp, false, st, ["x", "-q"]);
    assert ["x", "-q"][1..] == ["-q"];
  }

  /** A program name that is not harmless: the first pass sets the early option it names. */
  lemma DashProgramDisagrees()
    ensures var sp, st := SharedNameSpec(), Spec.Start({}, {}, map[]);
      && sp.Valid() && sp.Loop(st, []) == Done(st) && !Harmless(sp, "-q")
      && var re := EarlyLoop(sp, false, st, ["-q"]);
         re.Done? && Since(st, re.st) == [Named(OptRef(Root, 0), "-q", "true", ["-q"])]
  {
    DashQ();
    FirstPassSetsQ(Spec.Start({}, {}, map[]));
  }
}
