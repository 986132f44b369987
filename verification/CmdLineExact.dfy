/** Exactly what one token does, in terms of what is declared, and what the values set over a run are. */
module CmdLineExact {
  import opened Common
  import opened CmdLine
  import opened CmdLineRun

  // ---------------------------------------------------------------------------------------------
  // Dash tokens
  // ---------------------------------------------------------------------------------------------

  /** The value an option gets from its token and the ones after it. */
  predicate ValueFrom(o: OptionSpec, toks: seq<string>, raw: string, taken: nat)
    requires toks != []
  {
    if o.flag then raw == "true" && taken == 1
    else if '=' in toks[0] then toks[0] == NameOf(toks[0]) + "=" + raw && taken == 1
    else |toks| > 1 && raw == toks[1] != "" && raw[0] != '-' && taken == 2
  }

  /** The option needs a value, none is attached, and the next token is missing, empty, or a dash token. */
  predicate ValueMissing(o: OptionSpec, toks: seq<string>)
    requires toks != []
  {
    !o.flag && '=' !in toks[0] && (|toks| == 1 || toks[1] == "" || toks[1][0] == '-')
  }

  lemma ValueForMeans(o: OptionSpec, toks: seq<string>)
    requires toks != []
    ensures match ValueFor(o, toks[0], toks[1..])
      case Ok((raw, extra)) => !ValueMissing(o, toks) && ValueFrom(o, toks, raw, 1 + extra) && 1 + extra <= |toks|
      case Err(e) =>
        && ValueMissing(o, toks)
        && e == if |toks| > 1 && toks[1] == "" then EmptyToken else MissingValue(NameOf(toks[0]))
  {
  }

  /**
   Everything a dash token can come to. The name, up to the first '=', stands for the option declared
   innermost. Unknown when there is none; else the error for a missing value, when one is needed and not
   there; else the value is "true" for a flag, what follows the first '=', or the next token. If it
   passes, the option is used and holds what the transformer makes of it; if not, it is rejected.
   */
  lemma DashTokenExactly(sp: Spec, st: State, toks: seq<string>)
    returns (found: Option<OptRef>, raw: string, taken: nat)
    requires sp.Valid() && sp.WellFormed(st) && toks != [] && toks[0] != "" && toks[0][0] == '-'
    ensures Resolves(sp, st.chain, NameOf(toks[0]), found)
    ensures found.None? ==> sp.NamedStep(st, toks) == Failed(UnknownOption(NameOf(toks[0])), st)
    ensures found.Some? ==>
      && sp.ValidRef(found.value)
      && var r := found.value;
         var o := sp.Opt(r);
         if ValueMissing(o, toks) then
           sp.NamedStep(st, toks)
           == Failed(if |toks| > 1 && toks[1] == "" then EmptyToken else MissingValue(NameOf(toks[0])), st)
         else
           && taken <= |toks| && ValueFrom(o, toks, raw, taken)
           && sp.NamedStep(st, toks)
              == if Passes(o, raw) then
                   Done(st.(used := st.used + {r}, values := st.values[r := o.transform(raw).value],
                            log := st.log + [Named(r, NameOf(toks[0]), raw, toks[..taken])]))
                 else Failed(Rejected(r), st)
  {
    LookupResolves(sp, st.chain, NameOf(toks[0]));
    hide Resolves;
    hide Spec.Valid;
    hide Spec.IsPath;
    found := sp.Lookup(st.chain, NameOf(toks[0]));
    raw, taken := "", 0;
    if found.Some? {
      raw, taken := KnownOption(sp, st, toks, found.value);
    } else {
      hide Spec.Lookup;
      hide NameOf;
    }
  }

  /** What a dash token comes to once its option is found. */
  lemma KnownOption(sp: Spec, st: State, toks: seq<string>, r: OptRef) returns (raw: string, taken: nat)
    requires toks != [] && forall i :: 0 <= i < |st.chain| ==> st.chain[i] < |sp.cmds|
    requires sp.Lookup(st.chain, NameOf(toks[0])) == Some(r)
    ensures sp.ValidRef(r)
    ensures var o := sp.Opt(r);
      if ValueMissing(o, toks) then
        sp.NamedStep(st, toks)
        == Failed(if |toks| > 1 && toks[1] == "" then EmptyToken else MissingValue(NameOf(toks[0])), st)
      else
        && taken <= |toks| && ValueFrom(o, toks, raw, taken)
        && sp.NamedStep(st, toks)
           == if Passes(o, raw) then
                Done(st.(used := st.used + {r}, values := st.values[r := o.transform(raw).value],
                         log := st.log + [Named(r, NameOf(toks[0]), raw, toks[..taken])]))
              else Failed(Rejected(r), st)
  {
    hide FindOption;
    hide Spec.Lookup;
    hide Passes;
    hide NameOf;
    raw, taken := "", 0;
    ValueForMeans(sp.Opt(r), toks);
    var v := ValueFor(sp.Opt(r), toks[0], toks[1..]);
    hide ValueFor;
    if v.Ok? {
      raw, taken := v.value.0, 1 + v.value.1;
    }
  }

  /** An option is unknown exactly when neither the active chain nor the application declares its name. */
  lemma UnknownExactly(sp: Spec, st: State, toks: seq<string>)
    requires sp.Valid() && sp.WellFormed(st) && toks != [] && toks[0] != "" && toks[0][0] == '-'
    ensures sp.NamedStep(st, toks) == Failed(UnknownOption(NameOf(toks[0])), st) <==>
              Resolves(sp, st.chain, NameOf(toks[0]), None)
  {
    var found, raw, taken := DashTokenExactly(sp, st, toks);
    ResolvesOnce(sp, st.chain, NameOf(toks[0]), found);
    hide *;
  }

  /** A name that somebody declares is not unresolved. */
  lemma ResolvesOnce(sp: Spec, chain: seq<nat>, name: string, found: Option<OptRef>)
    requires forall i :: 0 <= i < |chain| ==> chain[i] < |sp.cmds|
    requires Resolves(sp, chain, name, found)
    ensures found.Some? ==> !Resolves(sp, chain, name, None)
  {
    hide FindOption;
  }

  // ---------------------------------------------------------------------------------------------
  // Other tokens
  // ---------------------------------------------------------------------------------------------

  /**
   A token without a dash enters the first subcommand of its name: a top-level one while none is active,
   else one declared in the innermost active subcommand. Only when there is none of that name there is
   it a positional.
   */
  lemma PlainTokenExactly(sp: Spec, st: State, toks: seq<string>) returns (k: Option<nat>)
    requires sp.Valid() && sp.WellFormed(st) && toks != [] && toks[0] != "" && toks[0][0] != '-'
    ensures var ids := if st.chain == [] then sp.subs else sp.cmds[st.chain[|st.chain| - 1]].subs;
      match k
      case Some(i) =>
        && i < |ids| && ids[i] < |sp.cmds| && sp.cmds[ids[i]].name == toks[0]
        && (forall j :: 0 <= j < i ==> ids[j] < |sp.cmds| && sp.cmds[ids[j]].name != toks[0])
        && sp.Step(st, toks)
           == Done(st.(chain := st.chain + [ids[i]], cursors := st.cursors + [0], foundCmds := st.foundCmds + {ids[i]},
                       log := st.log + [Enter(ids[i], [toks[0]])]))
      case None =>
        && (forall j :: 0 <= j < |ids| ==> ids[j] < |sp.cmds| && sp.cmds[ids[j]].name != toks[0])
        && sp.Step(st, toks) == sp.PositionalStep(st, toks[0])
  {
    var ids := sp.Children(st.chain);
    if sp.FindCommand(toks[0], ids).Some? {
      var i := FindCommandAt(sp, ids, toks[0]);
      k := Some(i);
    } else {
      k := None;
    }
    hide Spec.PositionalStep;
  }

  /** The positional option that is up at level `k` of the chain, or of the application for |chain|. */
  function NextOf(sp: Spec, st: State, k: nat): Option<OptRef>
    requires |st.chain| == |st.cursors| && forall i :: 0 <= i < |st.chain| ==> st.chain[i] < |sp.cmds|
    requires k <= |st.chain|
  {
    var owner := if k < |st.chain| then Cmd(st.chain[k]) else Root;
    match NextAt(sp.OptionsOf(owner), if k < |st.chain| then st.cursors[k] else st.appCursor)
    case Some(i) => Some(OptRef(owner, i))
    case None => None
  }

  /**
   Everything a positional token can come to: it is unexpected when no one has a positional left; else it
   moves the one cursor of whoever is to take it, and fills that one's next positional if it passes; if
   not, it is rejected.
   */
  lemma PositionalTokenExactly(sp: Spec, st: State, token: string) returns (lvl: Option<nat>)
    requires sp.Valid() && sp.WellFormed(st)
    ensures TakesPositional(sp, st, lvl)
    ensures lvl.None? ==> sp.PositionalStep(st, token) == Failed(Unexpected(token), st)
    ensures lvl.Some? ==>
      && lvl.value <= |st.chain| && NextOf(sp, st, lvl.value).Some?
      && var k, r := lvl.value, NextOf(sp, st, lvl.value).value;
         && sp.ValidRef(r)
         && var o := sp.Opt(r);
            var st' := if k < |st.chain| then st.(cursors := st.cursors[k := st.cursors[k] + 1])
                       else st.(appCursor := st.appCursor + 1);
            sp.PositionalStep(st, token)
            == if Passes(o, token) then
                 Done(st'.(used := st.used + {r}, values := st.values[r := o.transform(token).value],
                           log := st.log + [Positional(r, [token])]))
               else Failed(Rejected(r), st')
  {
    lvl := sp.PositionalLevel(st, |st.chain|);
    PositionalLevelTakes(sp, st, |st.chain|);
    hide Spec.Valid;
    hide Spec.IsPath;
    hide TakesPositional;
    hide Passes;
    if lvl.Some? {
      var k := lvl.value;
      var owner := if k < |st.chain| then Cmd(st.chain[k]) else Root;
      NextIsNext(sp.OptionsOf(owner), if k < |st.chain| then st.cursors[k] else st.appCursor);
      hide NextAt;
    }
  }

  lemma UnexpectedExactly(sp: Spec, st: State, token: string)
    requires sp.Valid() && sp.WellFormed(st)
    ensures sp.PositionalStep(st, token) == Failed(Unexpected(token), st) <==> TakesPositional(sp, st, None)
  {
    var lvl := PositionalTokenExactly(sp, st, token);
    hide Spec.Valid;
    hide Spec.IsPath;
    hide Spec.PositionalStep;
    hide NextAt;
  }

  /** Which of these a token is: help comes first, about the innermost active subcommand, then the empty token. */
  lemma StepExactly(sp: Spec, st: State, toks: seq<string>)
    requires sp.Valid() && sp.WellFormed(st) && toks != []
    ensures var t := toks[0];
      var about := if st.chain == [] then Root else Cmd(st.chain[|st.chain| - 1]);
      && (sp.Step(st, toks).Helped? <==> sp.autoHelp && t in ["-h", "--help"])
      && (sp.Step(st, toks).Helped? ==> sp.Step(st, toks) == Helped(about, st))
      && (t == "" ==> sp.Step(st, toks) == Failed(EmptyToken, st))
      && (t != "" && t[0] == '-' && !sp.Step(st, toks).Helped? ==> sp.Step(st, toks) == sp.NamedStep(st, toks))
  {
    hide Spec.Valid;
    hide Spec.IsPath;
  }
}
