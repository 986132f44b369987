/**
 AsyncManager: tasks run on detached threads and their results are gathered through futures.

 Tasks are numbered in the order they were added; `work(i)` is what task i returns. A schedule is any
 interleaving of the manager's own steps with the completions of running tasks.
 */
module AsyncManager {
  import opened Common

  datatype Event =
    | Add
    | StartAll
    | BeginGet
    | TakeNext
    | Complete(task: nat)

  /** `futures` lists the tasks behind the futures; `waiting` is the future `getResults` is at, while it runs. */
  datatype State<R> = State(added: nat, tasks: seq<nat>, futures: seq<nat>, running: set<nat>, done: map<nat, R>,
                            results: seq<R>, got: bool, waiting: Option<nat>)

  function Start<R>(): State<R> {
    State(0, [], [], {}, map[], [], false, None)
  }

  /** The manager's thread is blocked inside getResults until the future it is at is ready. */
  predicate Enabled<R>(s: State<R>, e: Event) {
    match e
    case Complete(t) => t in s.running
    case TakeNext => s.waiting.Some? && (s.waiting.value < |s.futures| ==> s.futures[s.waiting.value] in s.done)
    case _ => s.waiting.None?
  }

  function Step<R>(s: State<R>, e: Event, work: nat -> R): State<R>
    requires Enabled(s, e)
  {
    match e
    case Add => s.(tasks := s.tasks + [s.added], added := s.added + 1)
    case StartAll => s.(futures := s.futures + s.tasks, running := s.running + (set t | t in s.tasks), tasks := [])
    case BeginGet => if s.got then s else s.(waiting := Some(0))
    case TakeNext =>
      var k := s.waiting.value;
      if k < |s.futures| then s.(results := s.results + [s.done[s.futures[k]]], waiting := Some(k + 1))
      else s.(got := true, waiting := None)
    case Complete(t) => s.(running := s.running - {t}, done := s.done[t := work(t)])
  }

  /** The schedule is possible from `s`. */
  predicate Possible<R>(s: State<R>, events: seq<Event>, work: nat -> R)
    decreases |events|
  {
    events == [] || (Enabled(s, events[0]) && Possible(Step(s, events[0], work), events[1..], work))
  }

  function Run<R>(s: State<R>, events: seq<Event>, work: nat -> R): State<R>
    requires Possible(s, events, work)
    decreases |events|
  {
    if events == [] then s else Run(Step(s, events[0], work), events[1..], work)
  }

  // ---------------------------------------------------------------------------------------------
  // The simple form: only the calls on the manager, each done at once
  // ---------------------------------------------------------------------------------------------

  /** Tasks added, tasks started, and how many were started when results were first asked for. */
  datatype Simple = Simple(added: nat, started: nat, collected: Option<nat>)

  function SimpleStep(m: Simple, e: Event): Simple {
    match e
    case Add => m.(added := m.added + 1)
    case StartAll => m.(started := m.added)
    case BeginGet => if m.collected.Some? then m else m.(collected := Some(m.started))
    case _ => m
  }

  function SimpleRun(m: Simple, events: seq<Event>): Simple
    decreases |events|
  {
    if events == [] then m else SimpleRun(SimpleStep(m, events[0]), events[1..])
  }

  /** The calls of a schedule: what is left when the interleaving is forgotten. */
  function Calls(events: seq<Event>): seq<Event> {
    if events == [] then []
    else (if events[0].TakeNext? || events[0].Complete? then [] else [events[0]]) + Calls(events[1..])
  }

  /** A run goes on from where it has come to, one possible event at a time. */
  lemma {:induction false} RunAppends<R>(s: State<R>, events: seq<Event>, e: Event, work: nat -> R)
    ensures Possible(s, [], work) && Run(s, [], work) == s
    ensures Possible(s, events + [e], work) <==> Possible(s, events, work) && Enabled(Run(s, events, work), e)
    ensures Possible(s, events + [e], work) ==> Run(s, events + [e], work) == Step(Run(s, events, work), e, work)
    decreases |events|
  {
    hide Step;
    hide Enabled;
    if events == [] {
      assert [] + [e] == [e] && [e][1..] == [];
      if Enabled(s, e) {
        assert Possible(Step(s, e, work), [], work) && Run(Step(s, e, work), [], work) == Step(s, e, work);
      }
    } else {
      assert (events + [e])[1..] == events[1..] + [e] && (events + [e])[0] == events[0];
      if Enabled(s, events[0]) {
        RunAppends(Step(s, events[0], work), events[1..], e, work);
      }
    }
  }

  lemma {:induction false} SimpleRunAppends(m: Simple, events: seq<Event>, e: Event)
    ensures SimpleRun(m, []) == m && SimpleRun(m, events + [e]) == SimpleStep(SimpleRun(m, events), e)
    decreases |events|
  {
    hide SimpleStep;
    if events == [] {
      assert [] + [e] == [e] && [e][1..] == [];
      assert SimpleRun(SimpleStep(m, e), []) == SimpleStep(m, e);
    } else {
      assert (events + [e])[1..] == events[1..] + [e];
      SimpleRunAppends(SimpleStep(m, events[0]), events[1..], e);
    }
  }

  /** The calls of a schedule are those of its parts, in order. */
  lemma {:induction false} CallsAppend(x: seq<Event>, y: seq<Event>)
    ensures Calls(x + y) == Calls(x) + Calls(y)
  {
    if x == [] {
      assert x + y == y;
    } else {
      assert (x + y)[1..] == x[1..] + y && (x + y)[0] == x[0];
      CallsAppend(x[1..], y);
    }
  }

  /** Completions and waiting are no calls; anything else is one. */
  lemma CallsOne(e: Event)
    ensures Calls([]) == [] && Calls([e]) == if e.TakeNext? || e.Complete? then [] else [e]
  {
    assert [e][1..] == [];
  }

  /** The results of tasks 0 up to n, in the order they were added. */
  function ResultsOf<R>(work: nat -> R, n: nat): (r: seq<R>)
    ensures |r| == n && forall i :: 0 <= i < n ==> r[i] == work(i)
  {
    seq(n, i requires 0 <= i => work(i))
  }

  ghost predicate Refines<R>(s: State<R>, m: Simple, work: nat -> R) {
    && s.added == m.added && m.started <= m.added
    && |s.futures| == m.started && (forall i :: 0 <= i < m.started ==> s.futures[i] == i)
    && |s.tasks| == m.added - m.started && (forall i :: 0 <= i < |s.tasks| ==> s.tasks[i] == m.started + i)
    && (forall t :: t in s.running || t in s.done ==> t < m.started)
    && (forall t :: 0 <= t < m.started ==> t in s.running || t in s.done)
    && (forall t :: t in s.done ==> s.done[t] == work(t))
    && (match m.collected
        case None => !s.got && s.waiting.None? && s.results == []
        case Some(n) =>
          && n <= m.started && s.got == s.waiting.None?
          && (s.got ==> s.results == ResultsOf(work, n))
          && (s.waiting.Some? ==>
                && n == m.started && s.waiting.value <= n
                && s.results == ResultsOf(work, s.waiting.value)))
  }

  lemma StepRefines<R>(s: State<R>, m: Simple, e: Event, work: nat -> R)
    requires Refines(s, m, work) && Enabled(s, e)
    ensures Refines(Step(s, e, work), SimpleStep(m, e), work)
  {
    match e
    case StartAll =>
      var s' := Step(s, e, work);
      forall t | 0 <= t < m.added
        ensures t in s'.running || t in s'.done
      {
        if t >= m.started { assert s.tasks[t - m.started] == t; }
      }
    case TakeNext =>
      var k := s.waiting.value;
      if k < |s.futures| {
        assert ResultsOf(work, k + 1) == ResultsOf(work, k) + [work(k)];
      }
    case _ =>
  }

  lemma {:induction false} RunRefines<R>(s: State<R>, m: Simple, events: seq<Event>, work: nat -> R)
    requires Refines(s, m, work) && Possible(s, events, work)
    ensures Refines(Run(s, events, work), SimpleRun(m, Calls(events)), work)
    decreases |events|
  {
    hide Refines;
    if events != [] {
      var e := events[0];
      StepRefines(s, m, e, work);
      RunRefines(Step(s, e, work), SimpleStep(m, e), events[1..], work);
      if !e.TakeNext? && !e.Complete? {
        assert Calls(events)[0] == e && Calls(events)[1..] == Calls(events[1..]);
      } else {
        assert Calls(events) == Calls(events[1..]);
        assert SimpleStep(m, e) == m;
      }
    }
  }

  /** Two managers between calls that refine the same simple run agree. */
  lemma SameEnd<R>(s: State<R>, s': State<R>, m: Simple, work: nat -> R)
    requires Refines(s, m, work) && Refines(s', m, work) && s.waiting.None? && s'.waiting.None?
    ensures s.results == s'.results && s.got == s'.got && s.futures == s'.futures && s.tasks == s'.tasks
    ensures s.got == m.collected.Some? && (s.got ==> s.results == ResultsOf(work, m.collected.value))
  {
    hide ResultsOf;
  }

  lemma CanGoOn<R>(s: State<R>, m: Simple, work: nat -> R)
    requires Refines(s, m, work) && s.waiting.Some?
    ensures Enabled(s, TakeNext) || Enabled(s, Complete(s.futures[s.waiting.value]))
  {
  }

  /**
   Schedule independence. However completions interleave with the calls, once getResults has returned
   it holds the result of each task started before the first getResults, exactly once, in the order
   the tasks were added; two schedules with the same calls leave the manager with the same results.
   */
  lemma ScheduleIndependence<R>(events: seq<Event>, events': seq<Event>, work: nat -> R)
    requires Possible(Start(), events, work) && Possible(Start(), events', work) && Calls(events) == Calls(events')
    requires Run(Start(), events, work).waiting.None? && Run(Start(), events', work).waiting.None?
    ensures var s, s' := Run(Start(), events, work), Run(Start(), events', work);
      && s.results == s'.results && s.got == s'.got && s.futures == s'.futures && s.tasks == s'.tasks
      && var m := SimpleRun(Simple(0, 0, None), Calls(events));
         && s.got == m.collected.Some?
         && (s.got ==> s.results == ResultsOf(work, m.collected.value))
  {
    var m := Simple(0, 0, None);
    RunRefines(Start(), m, events, work);
    RunRefines(Start(), m, events', work);
    hide *;
    SameEnd(Run(Start(), events, work), Run(Start(), events', work), SimpleRun(m, Calls(events)), work);
  }

  /** getResults never hangs: while it waits, it can go on, or the task it waits for can complete. */
  lemma NoDeadlock<R>(events: seq<Event>, work: nat -> R)
    requires Possible(Start(), events, work) && Run(Start(), events, work).waiting.Some?
    ensures var s := Run(Start(), events, work);
      Enabled(s, TakeNext) || Enabled(s, Complete(s.futures[s.waiting.value]))
  {
    RunRefines(Start(), Simple(0, 0, None), events, work);
    hide *;
    CanGoOn(Run(Start(), events, work), SimpleRun(Simple(0, 0, None), Calls(events)), work);
  }

  /** Tasks started after the first getResults are never collected, whatever is called later. */
  lemma {:induction false} LateTasksAreLost(m: Simple, events: seq<Event>)
    requires m.collected.Some?
    ensures SimpleRun(m, events).collected == m.collected
    decreases |events|
  {
    if events != [] {
      LateTasksAreLost(SimpleStep(m, events[0]), events[1..]);
    }
  }

  lemma {:induction false} AllResults<R>(work: nat -> R, m: nat, n: nat)
    ensures ResultsOf(work, m) == ResultsOf(work, n) <==> m == n
  {
    assert |ResultsOf(work, m)| == m && |ResultsOf(work, n)| == n;
  }

  /**
   When getResults has returned, whatever the schedule, the results are those of all tasks added so far
   if and only if all of them had been started when results were first asked for.
   */
  lemma NothingLostExactly<R>(events: seq<Event>, work: nat -> R)
    requires Possible(Start(), events, work)
    requires Run(Start(), events, work).waiting.None? && Run(Start(), events, work).got
    ensures var s, m := Run(Start(), events, work), SimpleRun(Simple(0, 0, None), Calls(events));
      && s.added == m.added
      && (s.results == ResultsOf(work, s.added) <==> m.collected == Some(s.added))
  {
    var s, m := Run(Start(), events, work), SimpleRun(Simple(0, 0, None), Calls(events));
    ScheduleIndependence(events, events, work);
    RunRefines(Start(), Simple(0, 0, None), events, work);
    hide Run;
    hide SimpleRun;
    hide Possible;
    hide Calls;
    AllResults(work, m.collected.value, s.added);
  }

  /** Ask for results, then add a task, start it, let it complete, and ask again. */
  const LATE: seq<Event> := [BeginGet, TakeNext, Add, StartAll, Complete(0), BeginGet]

  lemma LateUnfolds<R>(s: State<R>, e: Event, rest: seq<Event>, work: nat -> R)
    requires Enabled(s, e)
    ensures Possible(Step(s, e, work), rest, work) ==>
      Possible(s, [e] + rest, work) && Run(s, [e] + rest, work) == Run(Step(s, e, work), rest, work)
  {
    assert ([e] + rest)[1..] == rest;
  }

  /** A possible schedule that loses a task: it was added, started and has completed, and the results are empty. */
  lemma LosesATask<R>(work: nat -> R)
    ensures Possible(Start(), LATE, work)
    ensures var s := Run(Start(), LATE, work);
      s.got && s.waiting.None? && s.added == 1 && 0 in s.done && s.results == []
  {
    var s0 := Start<R>();
    var s1 := Step(s0, BeginGet, work);
    var s2 := Step(s1, TakeNext, work);
    var s3 := Step(s2, Add, work);
    var s4 := Step(s3, StartAll, work);
    assert s3.tasks == [0] && 0 in s4.running;
    var s5 := Step(s4, Complete(0), work);
    var s6 := Step(s5, BeginGet, work);
    assert Possible(s6, [], work) && Run(s6, [], work) == s6;
    LateUnfolds(s5, BeginGet, [], work);
    LateUnfolds(s4, Complete(0), [BeginGet], work);
    LateUnfolds(s3, StartAll, [Complete(0), BeginGet], work);
    LateUnfolds(s2, Add, [StartAll, Complete(0), BeginGet], work);
    LateUnfolds(s1, TakeNext, [Add, StartAll, Complete(0), BeginGet], work);
    LateUnfolds(s0, BeginGet, [TakeNext, Add, StartAll, Complete(0), BeginGet], work);
  }

  // ---------------------------------------------------------------------------------------------
  // The object, for tasks that report a message and whether they succeeded
  // ---------------------------------------------------------------------------------------------

  datatype Report = Report(message: string, ok: bool)

  function Failures(results: seq<Report>): seq<string> {
    if results == [] then []
    else
      var before, last := Failures(results[..|results| - 1]), results[|results| - 1];
      if last.ok then before else before + [last.message]
  }

  function Successes(results: seq<Report>): seq<string> {
    if results == [] then []
    else
      var before, last := Successes(results[..|results| - 1]), results[|results| - 1];
      if last.ok then before + [last.message] else before
  }

  /** `messages` are those of the results with the given outcome, in order: `at` lists exactly their places. */
  ghost predicate Lists(results: seq<Report>, ok: bool, at: seq<nat>, messages: seq<string>) {
    && |messages| == |at| && (forall j, k :: 0 <= j < k < |at| ==> at[j] < at[k])
    && (forall k :: 0 <= k < |at| ==>
          at[k] < |results| && results[at[k]].ok == ok && messages[k] == results[at[k]].message)
    && (forall i :: 0 <= i < |results| && results[i].ok == ok ==> i in at)
  }

  ghost predicate AreThose(results: seq<Report>, ok: bool, messages: seq<string>) {
    exists at :: Lists(results, ok, at, messages)
  }

  lemma ListsNoMore(results: seq<Report>, ok: bool, at: seq<nat>, messages: seq<string>, last: Report)
    requires Lists(results, ok, at, messages) && last.ok != ok
    ensures Lists(results + [last], ok, at, messages)
  {
    var all := results + [last];
    forall i | 0 <= i < |all| && all[i].ok == ok
      ensures i in at
    {
      assert i < |results| && results[i].ok == ok;
    }
  }

  lemma ListsOneMore(results: seq<Report>, ok: bool, at: seq<nat>, messages: seq<string>, last: Report)
    requires Lists(results, ok, at, messages) && last.ok == ok
    ensures Lists(results + [last], ok, at + [|results|], messages + [last.message])
  {
    var all, at' := results + [last], at + [|results|];
    forall i | 0 <= i < |all| && all[i].ok == ok
      ensures i in at'
    {
      if i < |results| {
        assert results[i].ok == ok && i in at;
      } else {
        assert at'[|at|] == i;
      }
    }
  }

  lemma {:induction false} SelectionLists(results: seq<Report>, ok: bool) returns (at: seq<nat>)
    ensures Lists(results, ok, at, if ok then Successes(results) else Failures(results))
  {
    hide Lists;
    if results == [] {
      at := [];
      EmptyLists(ok);
    } else {
      var n := |results| - 1;
      var before := SelectionLists(results[..n], ok);
      var messages := if ok then Successes(results[..n]) else Failures(results[..n]);
      assert results == results[..n] + [results[n]];
      if results[n].ok == ok {
        ListsOneMore(results[..n], ok, before, messages, results[n]);
        at := before + [n];
      } else {
        ListsNoMore(results[..n], ok, before, messages, results[n]);
        at := before;
      }
    }
  }

  lemma EmptyLists(ok: bool)
    ensures Lists([], ok, [], [])
  {
  }

  lemma SelectionsAre(results: seq<Report>)
    ensures AreThose(results, false, Failures(results)) && AreThose(results, true, Successes(results))
  {
    var f := SelectionLists(results, false);
    var t := SelectionLists(results, true);
  }

  lemma LinesAppend(messages: seq<string>, m: string)
    ensures Lines([]) == "" && Lines(messages + [m]) == Lines(messages) + m + "\n"
  {
    assert (messages + [m])[..|messages|] == messages;
  }

  /** Each message on a line of its own. */
  function Lines(messages: seq<string>): string {
    if messages == [] then "" else Lines(messages[..|messages| - 1]) + messages[|messages| - 1] + "\n"
  }

  class Manager {
    const work: nat -> Report
    var added: nat
    var tasks: seq<nat>
    var futures: seq<nat>
    var results: seq<Report>
    var get: bool
    var printing: bool

    /** The manager between calls, with no call in progress. */
    ghost predicate At(m: Simple)
      reads this
    {
      && added == m.added && m.started <= m.added
      && |futures| == m.started && (forall i :: 0 <= i < m.started ==> futures[i] == i)
      && |tasks| == m.added - m.started && (forall i :: 0 <= i < |tasks| ==> tasks[i] == m.started + i)
      && get == m.collected.Some?
      && results == if get then ResultsOf(work, m.collected.value) else []
    }

    constructor (work: nat -> Report)
      ensures this.work == work && printing && At(Simple(0, 0, None))
    {
      this.work := work;
      added, tasks, futures, results, get, printing := 0, [], [], [], false, true;
    }

    method AddProcess(ghost m: Simple)
      requires At(m)
      modifies this`added, this`tasks
      ensures At(SimpleStep(m, Add))
    {
      tasks := tasks + [added];
      added := added + 1;
    }

    method StartAllTasks(ghost m: Simple)
      requires At(m)
      modifies this`tasks, this`futures
      ensures At(SimpleStep(m, StartAll))
    {
      futures := futures + tasks;
      tasks := [];
    }

    /** getResults; each future yields its task's result once that is there. */
    method GetResults(ghost m: Simple) returns (r: seq<Report>)
      requires At(m)
      modifies this`results, this`get
      ensures At(SimpleStep(m, BeginGet)) && r == results
    {
      if !get {
        for i := 0 to |futures|
          invariant !get
          invariant results == ResultsOf(work, i)
        {
          results := results + [work(futures[i])];
        }
        get := true;
      }
      r := results;
    }

    /**
     finalize: false before any results; otherwise true exactly when every task succeeded, and else an
     error made of exactly the failing tasks' messages, in the order the tasks were added.
     */
    method Finalize() returns (r: Result<bool, string>, printed: seq<string>)
      ensures !get ==> r == Ok(false)
      ensures get && (forall i :: 0 <= i < |results| ==> results[i].ok) ==> r == Ok(true)
      ensures get && !(forall i :: 0 <= i < |results| ==> results[i].ok) ==> r == Err(Lines(Failures(results)))
      ensures get ==> AreThose(results, false, Failures(results))
      ensures r == Ok(true) <==> get && Failures(results) == []
      ensures if get && printing then AreThose(results, true, printed) else printed == []
    {
      hide AreThose;
      printed := [];
      if !get {
        return Ok(false), printed;
      }
      var oss, ret := "", true;
      for i := 0 to |results|
        invariant oss == Lines(Failures(results[..i]))
        invariant ret <==> Failures(results[..i]) == []
        invariant ret <==> forall j :: 0 <= j < i ==> results[j].ok
        invariant oss == "" <==> ret
        invariant printed == if printing then Successes(results[..i]) else []
      {
        assert results[..i + 1][..i] == results[..i];
        if !results[i].ok {
          oss := oss + results[i].message + "\n";
          ret := false;
        } else if printing {
          printed := printed + [results[i].message];
        }
      }
      assert results[..|results|] == results;
      SelectionsAre(results);
      if oss != "" {
        return Err(oss), printed;
      }
      return Ok(ret), printed;
    }

    /**
     operator(): collect, then finalize. True exactly when every task started before results were first
     asked for succeeded; otherwise an error of exactly those tasks' messages that failed, in the order
     they were added.
     */
    method Call(ghost m: Simple) returns (r: Result<bool, string>, printed: seq<string>)
      requires At(m)
      modifies this`results, this`get
      ensures At(SimpleStep(m, BeginGet))
      ensures var n := SimpleStep(m, BeginGet).collected.value;
        && (r == Ok(true) <==> forall i :: 0 <= i < n ==> work(i).ok)
        && (r != Ok(true) ==> r == Err(Lines(Failures(ResultsOf(work, n)))))
        && AreThose(ResultsOf(work, n), false, Failures(ResultsOf(work, n)))
        && if printing then AreThose(ResultsOf(work, n), true, printed) else printed == []
    {
      hide AreThose;
      var collected := GetResults(m);
      ghost var n := SimpleStep(m, BeginGet).collected.value;
      assert results == ResultsOf(work, n);
      assert (forall i :: 0 <= i < |results| ==> results[i].ok) <==> forall i :: 0 <= i < n ==> work(i).ok;
      r, printed := Finalize();
    }
  }
}
