/**
 What any run of any number of Silencers leaves, in whatever order they are started and stopped and
 whatever opens and duplications fail: exactly what a few marks, kept from the operations alone, say.
 */
module SilencingRuns {
  import opened Common
  import opened Silencing

  datatype Op = Silence(id: nat, picks: Picks) | Stop(id: nat)

  datatype System = System(console: Console, fields: map<nat, Fields>) {
    function Of(id: nat): Fields {
      if id in fields then fields[id] else IDLE
    }
  }

  ghost predicate AllCoherent(s: System) {
    forall id :: Coherent(s.Of(id))
  }

  predicate PossibleOp(s: System, op: Op) {
    op.Silence? && !IsActive(s.Of(op.id)) ==> Possible(s.console, op.id, op.picks)
  }

  function Step(s: System, op: Op): System
    requires AllCoherent(s)
  {
    match op
    case Silence(id, p) =>
      if IsActive(s.Of(id)) then s
      else System(Silenced(s.console, id, p), s.fields[id := SilencedFields(s.console, p)])
    case Stop(id) =>
      if !IsActive(s.Of(id)) then s
      else System(Stopped(s.console, s.Of(id)), s.fields[id := IDLE])
  }

  lemma StepCoherent(s: System, op: Op)
    requires AllCoherent(s)
    ensures AllCoherent(Step(s, op))
  {
    hide Silenced;
    hide Stopped;
    var s' := Step(s, op);
    forall id
      ensures Coherent(s'.Of(id))
    {
      assert Coherent(s.Of(id));
    }
  }

  predicate PossibleRun(s: System, ops: seq<Op>)
    requires AllCoherent(s)
    decreases |ops|
  {
    ops == [] ||
    (PossibleOp(s, ops[0]) && (StepCoherent(s, ops[0]); PossibleRun(Step(s, ops[0]), ops[1..])))
  }

  function Run(s: System, ops: seq<Op>): System
    requires AllCoherent(s)
    decreases |ops|
  {
    if ops == [] then s
    else
      StepCoherent(s, ops[0]);
      Run(Step(s, ops[0]), ops[1..])
  }

  // ---------------------------------------------------------------------------------------------
  // The marks
  // ---------------------------------------------------------------------------------------------

  /** What a descriptor refers to: what it did at the start, or a null file opened since. */
  datatype Source = Original | NullFile(file: nat)

  /** What a `stop` will give back: the buffers always, stdout and stderr unless the duplication failed. */
  datatype Kept = Kept(bufs: Option<nat>, out: Option<Source>, err: Option<Source>)

  /** `bufs`: whose null stream cout and cerr write to (None: their own). `saved`: what the active ones keep. */
  datatype Marks = Marks(bufs: Option<nat>, out: Source, err: Source, saved: map<nat, Kept>, files: nat)

  function Mark(m: Marks, op: Op): Marks {
    match op
    case Silence(id, p) =>
      if id in m.saved then m
      else
        var files := m.files + if p.stream < 0 then 0 else 1;
        if p.nullFd < 0 then Marks(Some(id), m.out, m.err, m.saved[id := Kept(m.bufs, None, None)], files)
        else
          var kept := Kept(m.bufs, if p.savedStdout < 0 then None else Some(m.out),
                           if p.savedStderr < 0 then None else Some(m.err));
          Marks(Some(id), NullFile(files), NullFile(files), m.saved[id := kept], files + 1)
    case Stop(id) =>
      if id !in m.saved then m
      else
        var k := m.saved[id];
        Marks(k.bufs, Or(k.out, m.out), Or(k.err, m.err), m.saved - {id}, m.files)
  }

  function Or(s: Option<Source>, other: Source): Source {
    match s
    case Some(x) => x
    case None => other
  }

  function MarkAll(m: Marks, ops: seq<Op>): Marks
    decreases |ops|
  {
    if ops == [] then m else MarkAll(Mark(m, ops[0]), ops[1..])
  }

  function StartMarks(files: nat): Marks {
    Marks(None, Original, Original, map[], files)
  }

  /** Runs, and the marks kept of them, go on from where they have come to, one operation at a time. */
  lemma {:induction false} RunAppends(s: System, m: Marks, ops: seq<Op>, op: Op)
    requires AllCoherent(s)
    ensures PossibleRun(s, []) && Run(s, []) == s && MarkAll(m, []) == m
    ensures AllCoherent(Run(s, ops))
    ensures PossibleRun(s, ops + [op]) <==> PossibleRun(s, ops) && PossibleOp(Run(s, ops), op)
    ensures Run(s, ops + [op]) == Step(Run(s, ops), op)
    ensures MarkAll(m, ops + [op]) == Mark(MarkAll(m, ops), op)
    decreases |ops|
  {
    hide Step;
    hide Mark;
    hide PossibleOp;
    if ops == [] {
      StepCoherent(s, op);
      assert [] + [op] == [op] && [op][1..] == [];
      assert Run(Step(s, op), []) == Step(s, op) && MarkAll(Mark(m, op), []) == Mark(m, op);
      assert PossibleRun(Step(s, op), []);
    } else {
      assert (ops + [op])[1..] == ops[1..] + [op] && (ops + [op])[0] == ops[0];
      StepCoherent(s, ops[0]);
      RunAppends(Step(s, ops[0]), Mark(m, ops[0]), ops[1..], op);
    }
  }

  // ---------------------------------------------------------------------------------------------
  // What one call does to the console
  // ---------------------------------------------------------------------------------------------

  /** Descriptors 1 and 2 are open, and descriptors are not negative. */
  ghost predicate Standard(c: Console) {
    STDOUT in c.table && STDERR in c.table && forall k :: k in c.table ==> k >= 0
  }

  /** Descriptors other than 1 and 2 that are open in `c` are in `c'` what they were. */
  ghost predicate Untouched(c: Console, c': Console, except: set<int>) {
    forall k :: k in c.table && k !in except && k != STDOUT && k != STDERR ==>
      k in c'.table && c'.table[k] == c.table[k]
  }

  function FilesAfter(c: Console, p: Picks): nat {
    c.files + if p.stream < 0 then 0 else 1
  }

  /** The descriptors a Silencer holds differ, but for failures. */
  predicate Separate(f: Fields) {
    && (f.nullStream == -1 || f.nullStream !in {f.nullFd, f.savedStdout, f.savedStderr})
    && (f.nullFd == -1 || (f.nullFd != f.savedStdout && f.nullFd != f.savedStderr))
    && (f.savedStdout == -1 || f.savedStdout != f.savedStderr)
    && f.nullStream >= -1 && f.nullFd >= -1 && f.savedStdout >= -1 && f.savedStderr >= -1
  }

  /** What a successful or partly failed `silence` leaves. */
  ghost predicate SilencedTo(c: Console, c': Console, id: nat, f: Fields, p: Picks)
    requires Standard(c)
  {
    && c'.table.Keys == c.table.Keys + Fds(f) && Fds(f) !! c.table.Keys
    && Untouched(c, c', {}) && Standard(c')
    && c'.cout == c'.cerr == Null(id)
    && Coherent(f) && IsActive(f) && Separate(f)
    && f.savedCout == Some(c.cout) && f.savedCerr == Some(c.cerr)
    && (f.savedStdout >= 0 ==> c'.table[f.savedStdout] == c.table[STDOUT])
    && (f.savedStderr >= 0 ==> c'.table[f.savedStderr] == c.table[STDERR])
    && if p.nullFd < 0 then
         && f.savedStdout == f.savedStderr == -1 && c'.files == FilesAfter(c, p)
         && c'.table[STDOUT] == c.table[STDOUT] && c'.table[STDERR] == c.table[STDERR]
       else
         && f.savedStdout == p.savedStdout && f.savedStderr == p.savedStderr && c'.files == FilesAfter(c, p) + 1
         && c'.table[STDOUT] == c'.table[STDERR] == FilesAfter(c, p)
  }

  /** Opening the null files adds their descriptors and changes no other. */
  lemma NullOpenedEffect(c: Console, id: nat, p: Picks)
    requires Standard(c) && Possible(c, id, p)
    ensures var c1 := NullOpened(c, id, p);
      && c1.table.Keys == c.table.Keys + ({p.stream, p.nullFd} - {-1})
      && (p.stream == -1 || (p.stream >= 0 && p.stream !in c.table && p.stream != p.nullFd))
      && (p.nullFd == -1 || (p.nullFd >= 0 && p.nullFd !in c.table && c1.table[p.nullFd] == FilesAfter(c, p)))
      && (forall k :: k in c.table ==> c1.table[k] == c.table[k])
      && c1.cout == c1.cerr == Null(id) && c1.files == FilesAfter(c, p) + if p.nullFd < 0 then 0 else 1
  {
  }

  /** Duplicating stdout and stderr adds the duplicates and changes no other. */
  lemma SavedEffect(c: Console, out: int, err: int)
    requires Standard(c) && Grantable(c, out) && Grantable(Duplicated(c, STDOUT, out), err)
    ensures var c' := Duplicated(Duplicated(c, STDOUT, out), STDERR, err);
      && c'.table.Keys == c.table.Keys + ({out, err} - {-1})
      && (forall k :: k in c.table ==> c'.table[k] == c.table[k])
      && (out == -1 || (out >= 0 && out !in c.table && out != err && c'.table[out] == c.table[STDOUT]))
      && (err == -1 || (err >= 0 && err !in c.table && c'.table[err] == c.table[STDERR]))
      && c'.cout == c.cout && c'.cerr == c.cerr && c'.files == c.files
  {
  }

  lemma RedirectEffect(c: Console, fd: int)
    requires Standard(c) && fd in c.table && fd != STDOUT && fd != STDERR
    ensures var c' := Redirected(Redirected(c, fd, STDOUT), fd, STDERR);
      && c'.table.Keys == c.table.Keys && Untouched(c, c', {})
      && c'.table[STDOUT] == c'.table[STDERR] == c.table[fd]
      && c'.cout == c.cout && c'.cerr == c.cerr && c'.files == c.files
  {
  }

  /** The null file could not be opened: only the buffers are redirected. */
  lemma HalfSilenceEffect(c: Console, id: nat, p: Picks)
    requires Standard(c) && Possible(c, id, p) && p.nullFd < 0
    ensures SilencedTo(c, Silenced(c, id, p), id, SilencedFields(c, p), p)
  {
    NullOpenedEffect(c, id, p);
    hide NullOpened;
    hide Opened;
  }

  lemma FullSilenceEffect(c: Console, id: nat, p: Picks)
    requires Standard(c) && Possible(c, id, p) && p.nullFd >= 0
    ensures SilencedTo(c, Silenced(c, id, p), id, SilencedFields(c, p), p)
  {
    var c1, c2 := NullOpened(c, id, p), Saved(c, id, p);
    var f := SilencedFields(c, p);
    NullOpenedEffect(c, id, p);
    SavedEffect(c1, p.savedStdout, p.savedStderr);
    assert Standard(c1) && Standard(c2);
    RedirectEffect(c2, p.nullFd);
    hide NullOpened;
    hide Saved;
    hide Redirected;
    hide Possible;
    assert Fds(f) == ({p.stream, p.nullFd} - {-1}) + ({p.savedStdout, p.savedStderr} - {-1});
    assert Separate(f);
    hide Fds;
    hide Separate;
  }

  lemma SilenceEffect(c: Console, id: nat, p: Picks)
    requires Standard(c) && Possible(c, id, p)
    ensures SilencedTo(c, Silenced(c, id, p), id, SilencedFields(c, p), p)
  {
    hide *;
    if p.nullFd < 0 {
      HalfSilenceEffect(c, id, p);
    } else {
      FullSilenceEffect(c, id, p);
    }
  }

  lemma StopEffect(c: Console, f: Fields)
    requires Standard(c) && Coherent(f) && IsActive(f) && Separate(f)
    requires Fds(f) <= c.table.Keys && STDOUT !in Fds(f) && STDERR !in Fds(f)
    ensures var c' := Stopped(c, f);
      && c'.table.Keys == c.table.Keys - Fds(f) && Untouched(c, c', Fds(f)) && Standard(c')
      && c'.cout == f.savedCout.value && c'.cerr == f.savedCerr.value && c'.files == c.files
      && c'.table[STDOUT] == c.table[if f.savedStdout >= 0 then f.savedStdout else STDOUT]
      && c'.table[STDERR] == c.table[if f.savedStderr >= 0 then f.savedStderr else STDERR]
  {
    assert forall k :: k >= 0 && k in [f.nullStream, f.nullFd, f.savedStdout, f.savedStderr] ==> k in Fds(f);
  }

  // ---------------------------------------------------------------------------------------------
  // The invariant
  // ---------------------------------------------------------------------------------------------

  function FileOf(start: Console, src: Source, fd: int): nat
    requires fd in start.table
  {
    match src
    case Original => start.table[fd]
    case NullFile(file) => file
  }

  function BufOf(own: Buf, bufs: Option<nat>): Buf {
    match bufs
    case None => own
    case Some(id) => Null(id)
  }

  /** A null file was opened after the start. */
  predicate Later(start: Console, src: Source) {
    src.NullFile? ==> src.file >= start.files
  }

  /** The streams are where the marks say. */
  ghost predicate Shows(c: Console, start: Console, m: Marks)
    requires Standard(start)
  {
    && Standard(c) && c.files == m.files >= start.files
    && c.table[STDOUT] == FileOf(start, m.out, STDOUT) && c.table[STDERR] == FileOf(start, m.err, STDERR)
    && c.cout == BufOf(start.cout, m.bufs) && c.cerr == BufOf(start.cerr, m.bufs)
    && Later(start, m.out) && Later(start, m.err)
  }

  /** What descriptor `fd` of a Silencer keeps for the standard descriptor `std`; -1 keeps nothing. */
  predicate KeepsFd(c: Console, start: Console, fd: int, std: int, kept: Option<Source>)
    requires std in start.table
  {
    match kept
    case None => fd == -1
    case Some(src) => fd >= 0 && fd in c.table && c.table[fd] == FileOf(start, src, std) && Later(start, src)
  }

  /** An active Silencer holds its own open descriptors, and they and its fields keep what the marks say. */
  ghost predicate Keeps(c: Console, start: Console, f: Fields, kept: Kept)
    requires Standard(start)
  {
    && Coherent(f) && IsActive(f) && Separate(f)
    && Fds(f) <= c.table.Keys && Fds(f) !! start.table.Keys
    && f.savedCout == Some(BufOf(start.cout, kept.bufs)) && f.savedCerr == Some(BufOf(start.cerr, kept.bufs))
    && KeepsFd(c, start, f.savedStdout, STDOUT, kept.out) && KeepsFd(c, start, f.savedStderr, STDERR, kept.err)
  }

  /** The active Silencers are those with marks, and each keeps what its mark says. */
  ghost predicate ActiveInv(s: System, start: Console, m: Marks)
    requires Standard(start)
  {
    && (forall id :: Coherent(s.Of(id)) && (IsActive(s.Of(id)) <==> id in m.saved))
    && (forall id :: id in m.saved ==> Keeps(s.console, start, s.Of(id), m.saved[id]))
  }

  ghost predicate NoneShared(s: System, m: Marks) {
    forall i, j :: i in m.saved && j in m.saved && i != j ==> Fds(s.Of(i)) !! Fds(s.Of(j))
  }

  predicate Held(s: System, m: Marks, fd: int) {
    exists id :: id in m.saved && fd in Fds(s.Of(id))
  }

  /** What is open is what was at the start, unchanged but for stdout and stderr, and what active Silencers hold. */
  ghost predicate TableInv(s: System, start: Console, m: Marks) {
    && (forall k :: k in start.table ==> k in s.console.table)
    && Untouched(start, s.console, {})
    && (forall k :: k in s.console.table ==> k in start.table || Held(s, m, k))
  }

  ghost predicate Inv(s: System, start: Console, m: Marks) {
    && Standard(start) && Shows(s.console, start, m) && ActiveInv(s, start, m)
    && NoneShared(s, m) && TableInv(s, start, m)
  }

  /** What a Silencer keeps, others starting or stopping does not touch. */
  lemma KeepsOn(c: Console, c': Console, start: Console, f: Fields, kept: Kept, except: set<int>)
    requires Standard(start) && Keeps(c, start, f, kept) && Untouched(c, c', except) && Fds(f) !! except
    ensures Keeps(c', start, f, kept)
  {
    assert forall k :: k >= 0 && k in [f.nullStream, f.nullFd, f.savedStdout, f.savedStderr] ==> k in Fds(f);
    assert STDOUT in start.table && STDERR in start.table;
  }

  /** From `s` to `s'` only Silencer `id` has changed, to fields `f`. */
  ghost predicate OneChanged(s: System, s': System, id: nat, f: Fields) {
    s'.Of(id) == f && forall i :: i != id ==> s'.Of(i) == s.Of(i)
  }

  /** The console gained exactly the descriptors of `f`, or lost exactly those. */
  ghost predicate Gained(c: Console, c': Console, f: Fields) {
    c'.table.Keys == c.table.Keys + Fds(f) && Fds(f) !! c.table.Keys && Untouched(c, c', {})
  }

  ghost predicate Lost(c: Console, c': Console, f: Fields) {
    c'.table.Keys == c.table.Keys - Fds(f) && Untouched(c, c', Fds(f))
  }

  lemma GainKeepsTable(s: System, s': System, start: Console, m: Marks, m': Marks, id: nat, f: Fields)
    requires TableInv(s, start, m) && OneChanged(s, s', id, f) && Gained(s.console, s'.console, f)
    requires id !in m.saved && m'.saved.Keys == m.saved.Keys + {id}
    ensures TableInv(s', start, m')
  {
    hide Fds;
    forall k | k in s'.console.table
      ensures k in start.table || Held(s', m', k)
    {
      if k in Fds(f) {
        assert id in m'.saved && k in Fds(s'.Of(id));
      } else if k !in start.table {
        var i :| i in m.saved && k in Fds(s.Of(i));
        assert i in m'.saved && k in Fds(s'.Of(i));
      }
    }
  }

  lemma LossKeepsTable(s: System, s': System, start: Console, m: Marks, m': Marks, id: nat, f: Fields)
    requires TableInv(s, start, m) && OneChanged(s, s', id, IDLE) && Lost(s.console, s'.console, f)
    requires f == s.Of(id) && Fds(f) !! start.table.Keys && m'.saved.Keys == m.saved.Keys - {id}
    ensures TableInv(s', start, m')
  {
    hide Fds;
    forall k | k in s'.console.table
      ensures k in start.table || Held(s', m', k)
    {
      if k !in start.table {
        var i :| i in m.saved && k in Fds(s.Of(i));
        assert i in m'.saved && k in Fds(s'.Of(i));
      }
    }
  }

  lemma GainKeepsApart(s: System, s': System, start: Console, m: Marks, m': Marks, id: nat, f: Fields)
    requires Standard(start) && ActiveInv(s, start, m) && NoneShared(s, m)
    requires OneChanged(s, s', id, f) && Gained(s.console, s'.console, f) && m'.saved.Keys == m.saved.Keys + {id}
    ensures NoneShared(s', m')
  {
    hide Fds;
    forall i | i in m.saved
      ensures Fds(s.Of(i)) <= s.console.table.Keys
    {
      assert Keeps(s.console, start, s.Of(i), m.saved[i]);
    }
  }

  /** The Silencers that have not changed keep what they kept. */
  lemma OthersKeep(s: System, s': System, start: Console, m: Marks, m': Marks, id: nat, except: set<int>)
    requires Standard(start) && ActiveInv(s, start, m) && OneChanged(s, s', id, s'.Of(id))
    requires Untouched(s.console, s'.console, except)
    requires forall i :: i in m.saved && i != id ==> Fds(s.Of(i)) !! except
    requires Coherent(s'.Of(id)) && (IsActive(s'.Of(id)) <==> id in m'.saved)
    requires forall i :: i != id ==> (i in m'.saved <==> i in m.saved) && (i in m.saved ==> m'.saved[i] == m.saved[i])
    requires id in m'.saved ==> Keeps(s'.console, start, s'.Of(id), m'.saved[id])
    ensures ActiveInv(s', start, m')
  {
    hide Fds;
    hide Keeps;
    hide Untouched;
    forall i | i in m'.saved && i != id
      ensures Keeps(s'.console, start, s'.Of(i), m'.saved[i])
    {
      KeepsOn(s.console, s'.console, start, s.Of(i), m.saved[i], except);
    }
  }

  /** The Silencer that has started shows and keeps what its mark says. */
  lemma SilencedShows(c: Console, c': Console, start: Console, m: Marks, id: nat, f: Fields, p: Picks)
    requires Standard(start) && Shows(c, start, m) && SilencedTo(c, c', id, f, p) && id !in m.saved
    requires forall k :: k in start.table ==> k in c.table
    ensures var m' := Mark(m, Silence(id, p));
      && Shows(c', start, m') && Keeps(c', start, f, m'.saved[id]) && Gained(c, c', f)
      && Coherent(f) && IsActive(f)
  {
    assert forall k :: k >= 0 && k in [f.savedStdout, f.savedStderr] ==> k in Fds(f);
  }

  lemma SilenceKeeps(s: System, start: Console, m: Marks, id: nat, p: Picks)
    requires Inv(s, start, m) && AllCoherent(s) && id !in m.saved && PossibleOp(s, Silence(id, p))
    ensures Inv(Step(s, Silence(id, p)), start, Mark(m, Silence(id, p)))
  {
    var s', m' := Step(s, Silence(id, p)), Mark(m, Silence(id, p));
    var f := SilencedFields(s.console, p);
    SilenceEffect(s.console, id, p);
    assert OneChanged(s, s', id, f);
    hide Silenced;
    hide SilencedFields;
    hide Possible;
    SilencedShows(s.console, s'.console, start, m, id, f, p);
    hide Shows;
    hide SilencedTo;
    hide Keeps;
    hide Standard;
    GainKeepsTable(s, s', start, m, m', id, f);
    GainKeepsApart(s, s', start, m, m', id, f);
    OthersKeep(s, s', start, m, m', id, {});
  }

  lemma StopKeeps(s: System, start: Console, m: Marks, id: nat)
    requires Inv(s, start, m) && AllCoherent(s) && id in m.saved
    ensures Inv(Step(s, Stop(id)), start, Mark(m, Stop(id)))
  {
    var s', m' := Step(s, Stop(id)), Mark(m, Stop(id));
    var f := s.Of(id);
    assert Keeps(s.console, start, f, m.saved[id]);
    StopEffect(s.console, f);
    assert Lost(s.console, s'.console, f) && OneChanged(s, s', id, IDLE);
    hide Stopped;
    LossKeepsTable(s, s', start, m, m', id, f);
    OthersKeep(s, s', start, m, m', id, Fds(f));
  }

  lemma StepKeeps(s: System, start: Console, m: Marks, op: Op)
    requires Inv(s, start, m) && AllCoherent(s) && PossibleOp(s, op)
    ensures Inv(Step(s, op), start, Mark(m, op))
  {
    hide Inv;
    ActiveAre(s, start, m, op.id);
    if op.Silence? && op.id !in m.saved {
      SilenceKeeps(s, start, m, op.id, op.picks);
    } else if op.Stop? && op.id in m.saved {
      StopKeeps(s, start, m, op.id);
    }
  }

  lemma ActiveAre(s: System, start: Console, m: Marks, id: nat)
    requires Inv(s, start, m)
    ensures IsActive(s.Of(id)) <==> id in m.saved
  {
  }

  lemma {:induction false} RunKeeps(s: System, start: Console, m: Marks, ops: seq<Op>)
    requires Inv(s, start, m) && AllCoherent(s) && PossibleRun(s, ops)
    ensures Inv(Run(s, ops), start, MarkAll(m, ops))
    decreases |ops|
  {
    hide Inv;
    hide Step;
    hide Mark;
    if ops != [] {
      StepCoherent(s, ops[0]);
      StepKeeps(s, start, m, ops[0]);
      RunKeeps(Step(s, ops[0]), start, Mark(m, ops[0]), ops[1..]);
    }
  }

  // ---------------------------------------------------------------------------------------------
  // Whole runs
  // ---------------------------------------------------------------------------------------------

  /** No Silencer is active, and the standard streams have their own buffers and files opened before. */
  ghost predicate Quiet(s: System) {
    && Standard(s.console) && AllCoherent(s) && s.fields == map[]
    && s.console.cout.Own? && s.console.cerr.Own?
    && s.console.table[STDOUT] < s.console.files && s.console.table[STDERR] < s.console.files
  }

  /** Equal but for the count of files opened. */
  predicate Same(c: Console, d: Console) {
    c.table == d.table && c.cout == d.cout && c.cerr == d.cerr
  }

  function MarksOf(s: System, ops: seq<Op>): Marks {
    MarkAll(StartMarks(s.console.files), ops)
  }

  lemma QuietInv(s: System)
    requires Quiet(s)
    ensures Inv(s, s.console, StartMarks(s.console.files))
  {
  }

  lemma InvMeans(s: System, start: System, m: Marks)
    requires Quiet(start) && Inv(s, start.console, m)
    ensures var c, c0 := s.console, start.console;
      && (forall id :: IsActive(s.Of(id)) <==> id in m.saved)
      && STDOUT in c.table && c.table[STDOUT] == FileOf(c0, m.out, STDOUT) && c.cout == BufOf(c0.cout, m.bufs)
      && STDERR in c.table && c.table[STDERR] == FileOf(c0, m.err, STDERR) && c.cerr == BufOf(c0.cerr, m.bufs)
      && (c.table[STDOUT] == c0.table[STDOUT] <==> m.out == Original)
      && (c.table[STDERR] == c0.table[STDERR] <==> m.err == Original)
      && (c.cout == c0.cout <==> m.bufs == None) && (c.cerr == c0.cerr <==> m.bufs == None)
      && (m.saved == map[] ==>
            && c.table.Keys == c0.table.Keys
            && (Same(c, c0) <==> m.out == m.err == Original && m.bufs == None))
  {
    var c, c0 := s.console, start.console;
    if m.saved == map[] {
      assert forall k :: k in c.table <==> k in c0.table;
      if m.out == m.err == Original {
        forall k | k in c0.table
          ensures c.table[k] == c0.table[k]
        {
          assert Untouched(c0, c, {});
        }
      }
    }
  }

  /**
   Silencing, exactly. Over any possible run of any number of Silencers, well nested or not, opens and
   duplications failing or not: the active ones are those with a mark; stdout, stderr, cout and cerr are
   what their marks say, so the original ones exactly when the marks say original; and once no Silencer
   is active, no descriptor has leaked, and everything is restored exactly when all marks say original.
   */
  lemma SilencingExactly(s: System, ops: seq<Op>)
    requires Quiet(s) && PossibleRun(s, ops)
    ensures var c, c0, m := Run(s, ops).console, s.console, MarksOf(s, ops);
      && (forall id :: IsActive(Run(s, ops).Of(id)) <==> id in m.saved)
      && STDOUT in c.table && c.table[STDOUT] == FileOf(c0, m.out, STDOUT) && c.cout == BufOf(c0.cout, m.bufs)
      && STDERR in c.table && c.table[STDERR] == FileOf(c0, m.err, STDERR) && c.cerr == BufOf(c0.cerr, m.bufs)
      && (c.table[STDOUT] == c0.table[STDOUT] <==> m.out == Original)
      && (c.table[STDERR] == c0.table[STDERR] <==> m.err == Original)
      && (c.cout == c0.cout <==> m.bufs == None) && (c.cerr == c0.cerr <==> m.bufs == None)
      && (m.saved == map[] ==>
            && c.table.Keys == c0.table.Keys
            && (Same(c, c0) <==> m.out == m.err == Original && m.bufs == None))
  {
    hide Inv;
    QuietInv(s);
    RunKeeps(s, s.console, StartMarks(s.console.files), ops);
    InvMeans(Run(s, ops), s, MarksOf(s, ops));
  }

  // ---------------------------------------------------------------------------------------------
  // Well-nested runs
  // ---------------------------------------------------------------------------------------------

  /** The stack of active Silencers, innermost last, after an operation; None when it stops one out of order. */
  function Push(stack: seq<nat>, op: Op): Option<seq<nat>> {
    match op
    case Silence(id, _) => if id in stack then Some(stack) else Some(stack + [id])
    case Stop(id) =>
      if id !in stack then Some(stack)
      else if stack[|stack| - 1] == id then Some(stack[..|stack| - 1])
      else None
  }

  function PushAll(stack: seq<nat>, ops: seq<Op>): Option<seq<nat>>
    decreases |ops|
  {
    if ops == [] then Some(stack)
    else match Push(stack, ops[0])
      case Some(stack') => PushAll(stack', ops[1..])
      case None => None
  }

  lemma {:induction false} PushAllAppends(stack: seq<nat>, ops: seq<Op>, op: Op)
    ensures PushAll(stack, []) == Some(stack)
    ensures PushAll(stack, ops + [op]) == match PushAll(stack, ops)
      case Some(stack') => Push(stack', op)
      case None => None
    decreases |ops|
  {
    hide Push;
    if ops == [] {
      assert [] + [op] == [op] && [op][1..] == [];
    } else {
      assert (ops + [op])[1..] == ops[1..] + [op];
      if Push(stack, ops[0]).Some? {
        PushAllAppends(Push(stack, ops[0]).value, ops[1..], op);
      }
    }
  }

  /** Opens and duplications succeed. */
  predicate Granted(op: Op) {
    op.Silence? ==>
      op.picks.stream >= 0 && op.picks.nullFd >= 0 && op.picks.savedStdout >= 0 && op.picks.savedStderr >= 0
  }

  /** What level `k` of a stack keeps: the outermost the original, every other one a null file and a null stream. */
  predicate KeepsLevel(kept: Kept, k: nat) {
    && kept.out.Some? && kept.err.Some?
    && (kept.out.value == Original <==> k == 0) && (kept.err.value == Original <==> k == 0)
    && (kept.bufs == None <==> k == 0)
  }

  ghost predicate Nested(m: Marks, stack: seq<nat>) {
    && (forall id :: id in m.saved <==> id in stack)
    && (forall i, j :: 0 <= i < j < |stack| ==> stack[i] != stack[j])
    && (m.out == Original <==> stack == []) && (m.err == Original <==> stack == []) && (m.bufs == None <==> stack == [])
    && (forall k :: 0 <= k < |stack| ==> KeepsLevel(m.saved[stack[k]], k))
  }

  lemma NestedPush(m: Marks, stack: seq<nat>, op: Op)
    requires Nested(m, stack) && Granted(op) && op.Silence? && op.id !in stack
    ensures Nested(Mark(m, op), stack + [op.id])
  {
    var m', stack' := Mark(m, op), stack + [op.id];
    forall k | 0 <= k < |stack'|
      ensures KeepsLevel(m'.saved[stack'[k]], k)
    {
      if k < |stack| {
        assert KeepsLevel(m.saved[stack[k]], k) && stack[k] != op.id;
      }
    }
  }

  lemma NestedPop(m: Marks, stack: seq<nat>, id: nat)
    requires Nested(m, stack + [id])
    ensures Nested(Mark(m, Stop(id)), stack)
  {
    var m', above := Mark(m, Stop(id)), stack + [id];
    assert above[|stack|] == id && KeepsLevel(m.saved[above[|stack|]], |stack|);
    forall i | 0 <= i < |stack|
      ensures stack[i] != id
    {
      assert above[i] == stack[i] && above[i] != above[|stack|];
    }
    forall i, j | 0 <= i < j < |stack|
      ensures stack[i] != stack[j]
    {
      assert above[i] != above[j];
    }
    forall k | 0 <= k < |stack|
      ensures stack[k] in m'.saved && KeepsLevel(m'.saved[stack[k]], k)
    {
      assert above[k] == stack[k] && KeepsLevel(m.saved[above[k]], k);
    }
    forall i | i in m'.saved
      ensures i in stack
    {
      assert i in above;
    }
  }

  lemma NestedStep(m: Marks, stack: seq<nat>, op: Op)
    requires Nested(m, stack) && Granted(op) && Push(stack, op).Some?
    ensures Nested(Mark(m, op), Push(stack, op).value)
  {
    assert op.id in m.saved <==> op.id in stack;
    hide Nested;
    if op.Silence? && op.id !in stack {
      NestedPush(m, stack, op);
    } else if op.Stop? && op.id in stack {
      var below := stack[..|stack| - 1];
      assert stack == below + [op.id];
      NestedPop(m, below, op.id);
    }
  }

  lemma {:induction false} NestedRun(m: Marks, stack: seq<nat>, ops: seq<Op>)
    requires Nested(m, stack) && (forall i :: 0 <= i < |ops| ==> Granted(ops[i])) && PushAll(stack, ops).Some?
    ensures Nested(MarkAll(m, ops), PushAll(stack, ops).value)
    decreases |ops|
  {
    if ops != [] {
      NestedStep(m, stack, ops[0]);
      hide Nested;
      NestedRun(Mark(m, ops[0]), Push(stack, ops[0]).value, ops[1..]);
    }
  }

  /**
   Nested silencing. On every well-nested run of any number of Silencers whose opens and duplications
   succeed, stdout, stderr and their buffers are the original ones exactly when no Silencer is active;
   and when none is, the whole descriptor table is the original one, so no descriptor has leaked.
   */
  lemma NestedSilencing(s: System, ops: seq<Op>)
    requires Quiet(s) && PossibleRun(s, ops)
    requires (forall i :: 0 <= i < |ops| ==> Granted(ops[i])) && PushAll([], ops).Some?
    ensures var end, stack := Run(s, ops), PushAll([], ops).value;
      && (forall id :: IsActive(end.Of(id)) <==> id in stack)
      && STDOUT in end.console.table && STDERR in end.console.table
      && (end.console.table[STDOUT] == s.console.table[STDOUT] <==> stack == [])
      && (end.console.table[STDERR] == s.console.table[STDERR] <==> stack == [])
      && (end.console.cout == s.console.cout <==> stack == [])
      && (end.console.cerr == s.console.cerr <==> stack == [])
      && (stack == [] ==> Same(end.console, s.console))
  {
    SilencingExactly(s, ops);
    NestedRun(StartMarks(s.console.files), [], ops);
    hide Run;
    hide MarkAll;
    hide Same;
    hide PossibleRun;
    var m := MarksOf(s, ops);
    if PushAll([], ops).value == [] {
      assert forall id :: id !in m.saved;
    }
  }

  /** Stopping the Silencer that was started last undoes what its start did, when opens and duplications succeeded. */
  lemma StopUndoesSilence(s: System, start: Console, m: Marks, id: nat, p: Picks)
    requires Inv(s, start, m) && AllCoherent(s) && id !in m.saved
    requires PossibleOp(s, Silence(id, p)) && Granted(Silence(id, p))
    ensures AllCoherent(Step(s, Silence(id, p)))
    ensures Same(Step(Step(s, Silence(id, p)), Stop(id)).console, s.console)
  {
    StepCoherent(s, Silence(id, p));
    var s1, f := Step(s, Silence(id, p)), SilencedFields(s.console, p);
    SilenceEffect(s.console, id, p);
    hide Silenced;
    hide Possible;
    assert s1.Of(id) == f && f.savedStdout >= 0 && f.savedStderr >= 0;
    assert forall k :: k in Fds(f) ==> k !in s.console.table;
    StopEffect(s1.console, f);
    var c, c' := s.console, Step(s1, Stop(id)).console;
    hide Stopped;
    assert c'.table.Keys == c.table.Keys;
    forall k | k in c.table
      ensures c'.table[k] == c.table[k]
    {
      assert k in s1.console.table && k !in Fds(f);
    }
  }

  // ---------------------------------------------------------------------------------------------
  // Other runs
  // ---------------------------------------------------------------------------------------------

  lemma MarkTwo(m: Marks, a: Op, b: Op, rest: seq<Op>)
    ensures MarkAll(m, [a, b] + rest) == MarkAll(Mark(Mark(m, a), b), rest)
  {
    assert ([a, b] + rest)[1..] == [b] + rest && ([b] + rest)[1..] == rest;
  }

  function OuterFirst(p: Picks, q: Picks): seq<Op> {
    [Silence(1, p), Silence(2, q), Stop(1), Stop(2)]
  }

  /** Two Silencers stopped outer first: with none active, stdout and cout are left with the outer one's null file. */
  lemma OutOfOrderLeavesSilence(s: System, p: Picks, q: Picks)
    requires Granted(Silence(1, p)) && Granted(Silence(2, q)) && Quiet(s) && PossibleRun(s, OuterFirst(p, q))
    ensures var end := Run(s, OuterFirst(p, q));
      && (forall id :: !IsActive(end.Of(id)))
      && STDOUT in end.console.table && end.console.table[STDOUT] == s.console.files + 1 != s.console.table[STDOUT]
      && end.console.cout == Null(1) != s.console.cout
    ensures PushAll([], OuterFirst(p, q)) == None
  {
    hide Run;
    hide PossibleRun;
    hide MarksOf;
    OuterFirstMarks(s, p, q);
    NotNested(p, q);
    hide OuterFirst;
    SilencingExactly(s, OuterFirst(p, q));
  }

  lemma OuterFirstMarks(s: System, p: Picks, q: Picks)
    requires Granted(Silence(1, p)) && Granted(Silence(2, q))
    ensures var m := MarksOf(s, OuterFirst(p, q));
      m.saved == map[] && m.out == m.err == NullFile(s.console.files + 1) && m.bufs == Some(1)
  {
    var m := StartMarks(s.console.files);
    MarkTwo(m, Silence(1, p), Silence(2, q), [Stop(1), Stop(2)]);
    MarkTwo(Mark(Mark(m, Silence(1, p)), Silence(2, q)), Stop(1), Stop(2), []);
    assert [Stop(1), Stop(2)] + [] == [Stop(1), Stop(2)];
    assert [Silence(1, p), Silence(2, q)] + [Stop(1), Stop(2)] == OuterFirst(p, q);
  }

  lemma NotNested(p: Picks, q: Picks)
    ensures PushAll([], OuterFirst(p, q)) == None
  {
    var ops := OuterFirst(p, q);
    assert ops[1..] == [Silence(2, q), Stop(1), Stop(2)] && ops[1..][1..] == [Stop(1), Stop(2)];
    assert Push([1, 2], Stop(1)) == None;
    assert PushAll([1, 2], ops[1..][1..]) == None;
    assert [] + [1] == [1] && [1] + [2] == [1, 2];
    assert PushAll([1], ops[1..]) == None;
  }

  function InnerOnesSwapped(p: Picks, q: Picks, r: Picks): seq<Op> {
    [Silence(1, p), Silence(2, q), Silence(3, r), Stop(2), Stop(3), Stop(1)]
  }

  lemma SwappedMarks(s: System, p: Picks, q: Picks, r: Picks)
    requires Granted(Silence(1, p)) && Granted(Silence(2, q)) && Granted(Silence(3, r))
    ensures var m := MarksOf(s, InnerOnesSwapped(p, q, r));
      m.saved == map[] && m.out == m.err == Original && m.bufs == None
  {
    var m0 := StartMarks(s.console.files);
    var m2 := Mark(Mark(m0, Silence(1, p)), Silence(2, q));
    var m4 := Mark(Mark(m2, Silence(3, r)), Stop(2));
    var later, latest := [Silence(3, r), Stop(2), Stop(3), Stop(1)], [Stop(3), Stop(1)];
    MarkTwo(m0, Silence(1, p), Silence(2, q), later);
    MarkTwo(m2, Silence(3, r), Stop(2), latest);
    MarkTwo(m4, Stop(3), Stop(1), []);
    assert [Silence(1, p), Silence(2, q)] + later == InnerOnesSwapped(p, q, r);
    assert [Silence(3, r), Stop(2)] + latest == later && latest + [] == latest;
  }

  /** Well-nestedness is not necessary: three Silencers stopped in the order 2, 3, 1 restore everything. */
  lemma OutOfOrderMayRestore(s: System, p: Picks, q: Picks, r: Picks)
    requires Granted(Silence(1, p)) && Granted(Silence(2, q)) && Granted(Silence(3, r))
    requires Quiet(s) && PossibleRun(s, InnerOnesSwapped(p, q, r))
    ensures Same(Run(s, InnerOnesSwapped(p, q, r)).console, s.console)
    ensures Push([1, 2, 3], Stop(2)) == None
  {
    hide Run;
    hide PossibleRun;
    hide Same;
    hide MarksOf;
    hide InnerOnesSwapped;
    SwappedMarks(s, p, q, r);
    SilencingExactly(s, InnerOnesSwapped(p, q, r));
  }

  function Once(p: Picks): seq<Op> {
    [Silence(1, p), Stop(1)]
  }

  /** A failed duplication of stdout is not undone: one Silencer, started and stopped, leaves stdout on /dev/null. */
  lemma FailedDuplicationLeavesSilence(s: System, p: Picks)
    requires p.nullFd >= 0 && p.savedStdout == -1 && Quiet(s) && PossibleRun(s, Once(p))
    ensures var end := Run(s, Once(p));
      && (forall id :: !IsActive(end.Of(id)))
      && STDOUT in end.console.table && end.console.table[STDOUT] != s.console.table[STDOUT]
      && end.console.cout == s.console.cout
  {
    MarkTwo(StartMarks(s.console.files), Silence(1, p), Stop(1), []);
    assert Once(p) + [] == Once(p);
    SilencingExactly(s, Once(p));
  }

  // ---------------------------------------------------------------------------------------------
  // Real objects behave as the runs say
  // ---------------------------------------------------------------------------------------------

  /** Any number of Silencers on one terminal. */
  class Stage {
    const term: Terminal
    var silencers: map<nat, Silencer>

    ghost predicate Valid()
      reads this, silencers.Values
    {
      && (forall i :: i in silencers ==> silencers[i].Valid() && silencers[i].id == i && silencers[i].term == term)
    }

    ghost function Abs(): System
      reads this, silencers.Values, term
    {
      System(term.console, map i | i in silencers :: silencers[i].f)
    }

    constructor (term: Terminal)
      ensures Valid() && this.term == term && silencers == map[]
    {
      this.term, silencers := term, map[];
    }

    /** The Silencer with the identity, new and idle if it is not there yet. */
    method Get(id: nat) returns (o: Silencer)
      requires Valid()
      modifies this
      ensures Valid() && id in silencers && silencers[id] == o && term.console == old(term.console)
      ensures forall i :: Abs().Of(i) == old(Abs().Of(i))
      ensures forall o :: o in silencers.Values ==> o in old(silencers.Values) || fresh(o)
    {
      if id !in silencers {
        o := new Silencer(id, term);
        silencers := silencers[id := o];
      }
      o := silencers[id];
    }

    /** What the objects do is what the step of the same name does. */
    method Do(op: Op)
      requires Valid() && PossibleOp(Abs(), op)
      modifies this, silencers.Values, term
      ensures Valid() && old(AllCoherent(Abs()))
      ensures var s' := Step(old(Abs()), op);
        Abs().console == s'.console && forall i :: Abs().Of(i) == s'.Of(i)
    {
      hide Possible;
      hide Silenced;
      hide SilencedFields;
      hide Stopped;
      hide Coherent;
      ghost var s := Abs();
      ValidIsCoherent();
      var o := Get(op.id);
      ghost var s1 := Abs();
      assert o.f == s1.Of(op.id) == s.Of(op.id);
      assert forall i :: i in silencers && i != op.id ==> silencers[i] != o && silencers[i].f == s1.Of(i);
      if op.Silence? {
        o.Silence(op.picks);
      } else {
        o.Stop();
      }
      ghost var s' := Step(s, op);
      forall i
        ensures Abs().Of(i) == s'.Of(i)
      {
        if i != op.id {
          assert Abs().Of(i) == s1.Of(i) == s.Of(i);
          assert s'.Of(i) == s.Of(i);
        }
      }
    }

    lemma ValidIsCoherent()
      requires Valid()
      ensures AllCoherent(Abs())
    {
    }
  }
}
