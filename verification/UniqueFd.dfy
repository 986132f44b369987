/**
 Ownership of file descriptors by UniqueFD objects.

 The kernel's table maps each open descriptor to the serial number of the open call that made it, so
 that a number reused after a close counts as a new descriptor. Every close call is recorded: `closed`
 lists the serials closed, in order; `badCloses` counts close calls on descriptors that were not open.
 What an open call returns is the kernel's choice and enters as a parameter.
 */
module UniqueFd {
  import opened Common

  datatype Table = Table(open: map<int, nat>, next: nat, closed: seq<nat>, badCloses: nat)

  const EMPTY_TABLE := Table(map[], 0, [], 0)

  /** What an open call may return: a descriptor not in use, or -1 for failure. */
  predicate Available(t: Table, got: int) {
    got == -1 || (got >= 0 && got !in t.open)
  }

  function OpenFd(t: Table, got: int): Table {
    if got < 0 then t else t.(open := t.open[got := t.next], next := t.next + 1)
  }

  /** `Closer::close`: a negative descriptor is left alone. */
  function CloseFd(t: Table, fd: int): Table {
    if fd < 0 then t
    else if fd in t.open then t.(open := t.open - {fd}, closed := t.closed + [t.open[fd]])
    else t.(badCloses := t.badCloses + 1)
  }

  // ---------------------------------------------------------------------------------------------
  // The objects
  // ---------------------------------------------------------------------------------------------

  class Kernel {
    var table: Table

    constructor ()
      ensures table == EMPTY_TABLE
    {
      table := EMPTY_TABLE;
    }

    method Open(got: int) returns (fd: int)
      requires Available(table, got)
      modifies this
      ensures fd == got && table == OpenFd(old(table), got)
    {
      if got >= 0 {
        table := table.(open := table.open[got := table.next], next := table.next + 1);
      }
      fd := got;
    }

    method Close(fd: int)
      modifies this
      ensures table == CloseFd(old(table), fd)
    {
      if fd >= 0 {
        if fd in table.open {
          table := table.(open := table.open - {fd}, closed := table.closed + [table.open[fd]]);
        } else {
          table := table.(badCloses := table.badCloses + 1);
        }
      }
    }
  }

  class UniqueFD {
    const kernel: Kernel
    var fd: int
    var flags: int
    var mode: Option<nat>
    var path: string

    constructor Empty(kernel: Kernel)
      ensures this.kernel == kernel && fd == -1 && flags == 0 && mode == None && path == ""
    {
      this.kernel := kernel;
      fd, flags, mode, path := -1, 0, None, "";
    }

    constructor Opening(kernel: Kernel, path: string, flags: int, mode: Option<nat>, got: int)
      requires Available(kernel.table, got)
      modifies kernel
      ensures this.kernel == kernel && fd == got && kernel.table == OpenFd(old(kernel.table), got)
      ensures this.path == path && this.flags == flags && this.mode == mode
    {
      this.kernel := kernel;
      this.flags, this.mode, this.path := flags, mode, path;
      new;
      fd := kernel.Open(got);
    }

    /** Take over a descriptor that is open already. What fcntl, fstat and readlink tell about it are inputs. */
    constructor Adopting(kernel: Kernel, raw: int, flags: int, mode: Option<nat>, path: string)
      ensures this.kernel == kernel && fd == raw && this.flags == flags && this.mode == mode && this.path == path
    {
      this.kernel := kernel;
      fd, this.flags, this.mode, this.path := raw, flags, mode, path;
    }

    constructor Moving(other: UniqueFD)
      modifies other
      ensures kernel == other.kernel && fd == old(other.fd) && other.fd == -1
      ensures flags == old(other.flags) && mode == old(other.mode) && path == old(other.path)
    {
      kernel := other.kernel;
      fd, flags, mode, path := other.fd, other.flags, other.mode, other.path;
      new;
      other.fd := -1;
    }

    /** The destructor closes what the object holds. */
    method Destroy()
      modifies kernel
      ensures kernel.table == CloseFd(old(kernel.table), fd)
    {
      kernel.Close(fd);
    }

    method Close()
      modifies this`fd, kernel
      ensures fd == -1 && kernel.table == CloseFd(old(kernel.table), old(fd))
    {
      kernel.Close(fd);
      fd := -1;
    }

    /** Open the stored path, unless something is open already. */
    method Open(got: int)
      requires fd < 0 ==> Available(kernel.table, got)
      modifies this`fd, kernel
      ensures if old(fd) >= 0 then fd == old(fd) && kernel.table == old(kernel.table)
              else fd == got && kernel.table == OpenFd(old(kernel.table), got)
    {
      if fd >= 0 {
        return;
      }
      fd := kernel.Open(got);
    }

    /** Open another path; while something is open, not even the stored path changes. */
    method OpenPath(path: string, flags: int, mode: Option<nat>, got: int)
      requires fd < 0 ==> Available(kernel.table, got)
      modifies this, kernel
      ensures if old(fd) >= 0 then
                fd == old(fd) && kernel.table == old(kernel.table) && this.path == old(this.path)
                && this.flags == old(this.flags) && this.mode == old(this.mode)
              else
                fd == got && kernel.table == OpenFd(old(kernel.table), got) && this.path == path && this.flags == flags
                && this.mode == if mode.Some? then mode else old(this.mode)
    {
      if fd >= 0 {
        return;
      }
      this.path, this.flags := path, flags;
      if mode.Some? {
        this.mode := mode;
      }
      fd := kernel.Open(got);
    }

    method ReOpen(got: int) returns (ok: bool)
      requires Available(CloseFd(kernel.table, fd), got)
      modifies this`fd, kernel
      ensures fd == got && (ok <==> fd >= 0)
      ensures kernel.table == OpenFd(CloseFd(old(kernel.table), old(fd)), got)
    {
      Close();
      fd := kernel.Open(got);
      ok := fd >= 0;
    }

    /** Move assignment: close what this object holds, then take what the other holds. Onto itself it does nothing. */
    method MoveFrom(other: UniqueFD)
      requires other.kernel == kernel
      modifies this, other, kernel
      ensures this == other ==> fd == old(fd) && kernel.table == old(kernel.table)
      ensures this != other ==>
        && fd == old(other.fd) && other.fd == -1 && kernel.table == CloseFd(old(kernel.table), old(fd))
        && flags == old(other.flags) && mode == old(other.mode) && path == old(other.path)
    {
      if this != other {
        Close();
        fd, flags, mode, path := other.fd, other.flags, other.mode, other.path;
        other.fd := -1;
      }
    }
  }

  // ---------------------------------------------------------------------------------------------
  // Runs over any number of objects
  // ---------------------------------------------------------------------------------------------

  /** What one object does; `got` is what the kernel's open returns. RawOpen is an open outside any object. */
  datatype Op =
    | Construct(id: nat)
    | ConstructOpen(id: nat, got: int)
    | RawOpen(got: int)
    | Adopt(id: nat, fd: int)
    | MoveConstruct(id: nat, from: nat)
    | MoveAssign(to: nat, from: nat)
    | Open(id: nat, got: int)
    | ReOpen(id: nat, got: int)
    | Close(id: nat)
    | Destroy(id: nat)

  /** The living objects with what each holds, the kernel's table, and the serials that ever had an owner. */
  datatype World = World(fds: map<nat, int>, table: Table, managed: set<nat>)

  const START := World(map[], EMPTY_TABLE, {})

  /** What callers owe: identities make sense, the kernel's choices are possible, and only an unowned open
      descriptor (or none) is adopted. */
  predicate Legal(w: World, op: Op) {
    match op
    case Construct(id) => id !in w.fds
    case ConstructOpen(id, got) => id !in w.fds && Available(w.table, got)
    case RawOpen(got) => Available(w.table, got)
    case Adopt(id, fd) => id !in w.fds && (fd < 0 || (fd in w.table.open && forall o :: o in w.fds ==> w.fds[o] != fd))
    case MoveConstruct(id, from) => id !in w.fds && from in w.fds
    case MoveAssign(to, from) => to in w.fds && from in w.fds
    case Open(id, got) => id in w.fds && (w.fds[id] < 0 ==> Available(w.table, got))
    case ReOpen(id, got) => id in w.fds && Available(CloseFd(w.table, w.fds[id]), got)
    case Close(id) => id in w.fds
    case Destroy(id) => id in w.fds
  }

  function Step(w: World, op: Op): World
    requires match op
      case Adopt(_, _) => true
      case _ => Legal(w, op)
  {
    match op
    case Construct(id) => w.(fds := w.fds[id := -1])
    case ConstructOpen(id, got) => Hold(w, id, got, OpenFd(w.table, got))
    case RawOpen(got) => w.(table := OpenFd(w.table, got))
    case Adopt(id, fd) => Hold(w, id, fd, w.table)
    case MoveConstruct(id, from) => w.(fds := w.fds[id := w.fds[from]][from := -1])
    case MoveAssign(to, from) =>
      if to == from then w
      else w.(fds := w.fds[to := w.fds[from]][from := -1], table := CloseFd(w.table, w.fds[to]))
    case Open(id, got) => if w.fds[id] >= 0 then w else Hold(w, id, got, OpenFd(w.table, got))
    case ReOpen(id, got) => Hold(w, id, got, OpenFd(CloseFd(w.table, w.fds[id]), got))
    case Close(id) => w.(fds := w.fds[id := -1], table := CloseFd(w.table, w.fds[id]))
    case Destroy(id) => w.(fds := w.fds - {id}, table := CloseFd(w.table, w.fds[id]))
  }

  /** Object `id` now holds `fd`, as the table `t` has it. */
  function Hold(w: World, id: nat, fd: int, t: Table): World {
    World(w.fds[id := fd], t, w.managed + if fd >= 0 && fd in t.open then {t.open[fd]} else {})
  }

  // ---------------------------------------------------------------------------------------------
  // The invariant
  // ---------------------------------------------------------------------------------------------

  predicate Distinct(s: seq<nat>) {
    forall i, j :: 0 <= i < j < |s| ==> s[i] != s[j]
  }

  predicate OpenSerial(t: Table, s: nat) {
    exists f :: f in t.open && t.open[f] == s
  }

  /** Serials are handed out once, and each is either open, under one descriptor, or closed, once. */
  ghost predicate TableInv(t: Table) {
    && t.badCloses == 0 && Distinct(t.closed)
    && (forall f :: f in t.open ==> f >= 0 && t.open[f] < t.next && t.open[f] !in t.closed)
    && (forall f, g :: f in t.open && g in t.open && t.open[f] == t.open[g] ==> f == g)
    && (forall i :: 0 <= i < |t.closed| ==> t.closed[i] < t.next)
    && (forall s: nat :: s < t.next ==> s in t.closed || OpenSerial(t, s))
  }

  /** Every living object that holds a descriptor is its one owner, and the descriptor is open. */
  ghost predicate OwnerInv(w: World) {
    && (forall o :: o in w.fds && w.fds[o] >= 0 ==> w.fds[o] in w.table.open && w.table.open[w.fds[o]] in w.managed)
    && (forall o, p :: o in w.fds && p in w.fds && w.fds[o] >= 0 && w.fds[o] == w.fds[p] ==> o == p)
  }

  predicate Owned(w: World, f: int) {
    exists o :: o in w.fds && w.fds[o] == f
  }

  /** A descriptor that ever had an owner and is still open has one now. */
  ghost predicate NoLeak(w: World) {
    && (forall f :: f in w.table.open && w.table.open[f] in w.managed ==> Owned(w, f))
    && (forall s :: s in w.managed ==> s < w.table.next)
  }

  ghost predicate Inv(w: World) {
    TableInv(w.table) && OwnerInv(w) && NoLeak(w)
  }

  lemma OpenKeepsTable(t: Table, got: int)
    requires TableInv(t) && Available(t, got)
    ensures TableInv(OpenFd(t, got))
  {
    if got >= 0 {
      var t' := OpenFd(t, got);
      forall s: nat | s < t'.next
        ensures s in t'.closed || OpenSerial(t', s)
      {
        if s == t.next {
          assert t'.open[got] == s;
        } else if OpenSerial(t, s) {
          var f :| f in t.open && t.open[f] == s;
          assert t'.open[f] == s;
        }
      }
    }
  }

  lemma CloseKeepsTable(t: Table, fd: int)
    requires TableInv(t) && (fd >= 0 ==> fd in t.open)
    ensures TableInv(CloseFd(t, fd))
  {
    if fd >= 0 {
      var t' := CloseFd(t, fd);
      forall s: nat | s < t'.next
        ensures s in t'.closed || OpenSerial(t', s)
      {
        if s in t.closed {
          assert s in t'.closed;
        } else {
          var f :| f in t.open && t.open[f] == s;
          if f == fd {
            assert t'.closed[|t.closed|] == s;
          } else {
            assert t'.open[f] == s;
          }
        }
      }
    }
  }

  /** Closing what a living object holds and letting it hold nothing. */
  lemma ReleaseKeeps(w: World, id: nat)
    requires Inv(w) && id in w.fds
    ensures Inv(w.(fds := w.fds[id := -1], table := CloseFd(w.table, w.fds[id])))
  {
    CloseKeepsTable(w.table, w.fds[id]);
    SerialsAreOld(w);
    hide TableInv;
    ReleaseKeepsOwners(w, id);
    ReleaseLeaksNothing(w, id);
  }

  lemma ReleaseKeepsOwners(w: World, id: nat)
    requires OwnerInv(w) && id in w.fds
    ensures OwnerInv(w.(fds := w.fds[id := -1], table := CloseFd(w.table, w.fds[id])))
  {
  }

  lemma ReleaseLeaksNothing(w: World, id: nat)
    requires NoLeak(w) && id in w.fds && forall f :: f in w.table.open ==> f >= 0
    ensures NoLeak(w.(fds := w.fds[id := -1], table := CloseFd(w.table, w.fds[id])))
  {
    var w' := w.(fds := w.fds[id := -1], table := CloseFd(w.table, w.fds[id]));
    forall f | f in w'.table.open && w'.table.open[f] in w.managed
      ensures Owned(w', f)
    {
      assert Owned(w, f);
      var o :| o in w.fds && w.fds[o] == f;
      assert w'.fds[o] == f;
    }
  }

  /** An object that holds nothing opens a descriptor. */
  lemma AcquireKeeps(w: World, id: nat, got: int)
    requires Inv(w) && (id in w.fds ==> w.fds[id] < 0) && Available(w.table, got)
    ensures Inv(Hold(w, id, got, OpenFd(w.table, got)))
  {
    OpenKeepsTable(w.table, got);
    var w' := Hold(w, id, got, OpenFd(w.table, got));
    SerialsAreOld(w);
    hide TableInv;
    if got < 0 {
      AcquireNothing(w, id, got);
    } else {
      AcquireOne(w, id, got);
    }
  }

  /** No open descriptor carries the next serial. */
  lemma SerialsAreOld(w: World)
    requires TableInv(w.table)
    ensures forall f :: f in w.table.open ==> f >= 0 && w.table.open[f] < w.table.next
  {
  }

  lemma AcquireNothing(w: World, id: nat, got: int)
    requires OwnerInv(w) && NoLeak(w) && (id in w.fds ==> w.fds[id] < 0) && got == -1
    requires forall f :: f in w.table.open ==> f >= 0
    ensures OwnerInv(Hold(w, id, got, w.table)) && NoLeak(Hold(w, id, got, w.table))
  {
    StillOwned(w, id, got);
  }

  /** An object that held nothing changes no one's ownership by what it takes. */
  lemma StillOwned(w: World, id: nat, fd: int)
    requires id in w.fds ==> w.fds[id] < 0
    ensures forall f :: f >= 0 && Owned(w, f) ==> Owned(w.(fds := w.fds[id := fd]), f)
  {
    var w' := w.(fds := w.fds[id := fd]);
    forall f | f >= 0 && Owned(w, f)
      ensures Owned(w', f)
    {
      var o :| o in w.fds && w.fds[o] == f;
      assert w'.fds[o] == f;
    }
  }

  lemma AcquireOne(w: World, id: nat, got: int)
    requires OwnerInv(w) && NoLeak(w) && (id in w.fds ==> w.fds[id] < 0) && got >= 0 && got !in w.table.open
    requires forall f :: f in w.table.open ==> f >= 0 && w.table.open[f] < w.table.next
    ensures var w' := Hold(w, id, got, OpenFd(w.table, got)); OwnerInv(w') && NoLeak(w')
  {
    var w' := Hold(w, id, got, OpenFd(w.table, got));
    StillOwned(w, id, got);
    forall f | f in w'.table.open && w'.table.open[f] in w'.managed
      ensures Owned(w', f)
    {
      if f == got {
        assert w'.fds[id] == f;
      } else {
        assert Owned(w.(fds := w.fds[id := got]), f);
        var o :| o in w'.fds && w'.fds[o] == f;
      }
    }
  }

  /** What one object holds passes to another that holds nothing. */
  lemma TransferKeeps(w: World, to: nat, from: nat)
    requires Inv(w) && to != from && from in w.fds && (to in w.fds ==> w.fds[to] < 0)
    ensures Inv(w.(fds := w.fds[to := w.fds[from]][from := -1]))
  {
    var w' := w.(fds := w.fds[to := w.fds[from]][from := -1]);
    SerialsAreOld(w);
    hide TableInv;
    forall f | f in w'.table.open && w'.table.open[f] in w.managed
      ensures Owned(w', f)
    {
      var o :| o in w.fds && w.fds[o] == f;
      assert w'.fds[if o == from then to else o] == f;
    }
  }

  lemma RawOpenKeeps(w: World, got: int)
    requires Inv(w) && Available(w.table, got)
    ensures Inv(w.(table := OpenFd(w.table, got)))
  {
    OpenKeepsTable(w.table, got);
  }

  lemma AdoptKeeps(w: World, id: nat, fd: int)
    requires Inv(w) && Legal(w, Adopt(id, fd))
    ensures Inv(Step(w, Adopt(id, fd)))
  {
    var w' := Step(w, Adopt(id, fd));
    forall f | f in w'.table.open && w'.table.open[f] in w'.managed
      ensures Owned(w', f)
    {
      if f == fd {
        assert w'.fds[id] == f;
      } else {
        var o :| o in w.fds && w.fds[o] == f;
        assert w'.fds[o] == f;
      }
    }
  }

  lemma DropKeeps(w: World, id: nat)
    requires Inv(w) && id in w.fds && w.fds[id] < 0
    ensures Inv(w.(fds := w.fds - {id}))
  {
    var w' := w.(fds := w.fds - {id});
    SerialsAreOld(w);
    hide TableInv;
    forall f | f in w'.table.open && w'.table.open[f] in w.managed
      ensures Owned(w', f)
    {
      var o :| o in w.fds && w.fds[o] == f;
      assert w'.fds[o] == f;
    }
  }

  /** Every legal step keeps the invariant. */
  lemma StepKeeps(w: World, op: Op)
    requires Inv(w) && Legal(w, op)
    ensures Inv(Step(w, op))
  {
    hide Inv;
    match op
    case Construct(id) => ConstructKeeps(w, id);
    case ConstructOpen(id, got) => AcquireKeeps(w, id, got);
    case RawOpen(got) => RawOpenKeeps(w, got);
    case Adopt(id, fd) => AdoptKeeps(w, id, fd);
    case MoveConstruct(id, from) => TransferKeeps(w, id, from);
    case MoveAssign(to, from) =>
      if to != from {
        var w1 := w.(fds := w.fds[to := -1], table := CloseFd(w.table, w.fds[to]));
        ReleaseKeeps(w, to);
        TransferKeeps(w1, to, from);
        assert w1.fds[to := w1.fds[from]] == w.fds[to := w.fds[from]];
      }
    case Open(id, got) =>
      if w.fds[id] < 0 {
        AcquireKeeps(w, id, got);
      }
    case ReOpen(id, got) =>
      var w1 := w.(fds := w.fds[id := -1], table := CloseFd(w.table, w.fds[id]));
      ReleaseKeeps(w, id);
      AcquireKeeps(w1, id, got);
      assert w1.fds[id := got] == w.fds[id := got];
    case Close(id) => ReleaseKeeps(w, id);
    case Destroy(id) =>
      var w1 := w.(fds := w.fds[id := -1], table := CloseFd(w.table, w.fds[id]));
      ReleaseKeeps(w, id);
      DropKeeps(w1, id);
      assert w1.fds - {id} == w.fds - {id};
  }

  lemma ConstructKeeps(w: World, id: nat)
    requires Inv(w) && id !in w.fds
    ensures Inv(w.(fds := w.fds[id := -1]))
  {
    var w' := w.(fds := w.fds[id := -1]);
    hide TableInv;
    forall f | f in w'.table.open && w'.table.open[f] in w.managed
      ensures Owned(w', f)
    {
      var o :| o in w.fds && w.fds[o] == f;
      assert w'.fds[o] == f;
    }
  }

  // ---------------------------------------------------------------------------------------------
  // Whole runs
  // ---------------------------------------------------------------------------------------------

  predicate LegalRun(w: World, ops: seq<Op>)
    decreases |ops|
  {
    ops == [] || (Legal(w, ops[0]) && LegalRun(Step(w, ops[0]), ops[1..]))
  }

  function Run(w: World, ops: seq<Op>): World
    requires LegalRun(w, ops)
    decreases |ops|
  {
    if ops == [] then w else Run(Step(w, ops[0]), ops[1..])
  }

  /** A run goes on from where it has come to, one legal operation at a time. */
  lemma {:induction false} RunAppends(w: World, ops: seq<Op>, op: Op)
    ensures LegalRun(w, []) && Run(w, []) == w
    ensures LegalRun(w, ops + [op]) <==> LegalRun(w, ops) && Legal(Run(w, ops), op)
    ensures LegalRun(w, ops + [op]) ==> Run(w, ops + [op]) == Step(Run(w, ops), op)
    decreases |ops|
  {
    hide Step;
    hide Legal;
    if ops == [] {
      assert [] + [op] == [op] && [op][1..] == [];
      if Legal(w, op) {
        assert LegalRun(Step(w, op), []) && Run(Step(w, op), []) == Step(w, op);
      }
    } else {
      assert (ops + [op])[1..] == ops[1..] + [op] && (ops + [op])[0] == ops[0];
      if Legal(w, ops[0]) {
        RunAppends(Step(w, ops[0]), ops[1..], op);
      }
    }
  }

  /** One living object, and no other, holds the descriptor with serial `s`. */
  ghost predicate HasOneOwner(w: World, s: nat) {
    exists o :: Holds(w, o, s) && forall p :: Holds(w, p, s) ==> p == o
  }

  predicate Holds(w: World, o: nat, s: nat) {
    o in w.fds && w.fds[o] in w.table.open && w.table.open[w.fds[o]] == s
  }

  lemma {:induction false} RunKeeps(w: World, ops: seq<Op>)
    requires Inv(w) && LegalRun(w, ops)
    ensures Inv(Run(w, ops))
    decreases |ops|
  {
    hide Inv;
    if ops != [] {
      StepKeeps(w, ops[0]);
      RunKeeps(Step(w, ops[0]), ops[1..]);
    }
  }

  /**
   Descriptor ownership. On every run, no close call ever hits a descriptor that is not open, no
   descriptor is closed twice, and each descriptor that ever had an owner either still has exactly one
   or has been closed. Once all objects are gone, every one of them has been closed, exactly once.
   */
  lemma OwnershipOverRuns(ops: seq<Op>)
    requires LegalRun(START, ops)
    ensures var w := Run(START, ops);
      && w.table.badCloses == 0 && Distinct(w.table.closed)
      && (forall s :: s in w.managed ==> (s in w.table.closed <==> !HasOneOwner(w, s)))
      && (w.fds == map[] ==> forall s :: s in w.managed ==> s in w.table.closed && !OpenSerial(w.table, s))
  {
    RunKeeps(START, ops);
    var w := Run(START, ops);
    hide Run;
    hide LegalRun;
    forall s | s in w.managed
      ensures s in w.table.closed <==> !HasOneOwner(w, s)
      ensures s in w.table.closed ==> !OpenSerial(w.table, s)
    {
      if s !in w.table.closed {
        assert OpenSerial(w.table, s);
        var f :| f in w.table.open && w.table.open[f] == s;
        assert Owned(w, f);
        var o :| o in w.fds && w.fds[o] == f;
        assert Holds(w, o, s);
        forall p | Holds(w, p, s)
          ensures p == o
        {
          assert w.fds[p] == f;
        }
      }
    }
    if w.fds == map[] {
      forall s | s in w.managed
        ensures s in w.table.closed
      {
        assert !HasOneOwner(w, s);
      }
    }
  }

  /** Taking over a raw descriptor keeps ownership sound exactly when it is negative, or open and not owned. */
  lemma AdoptExactly(w: World, id: nat, fd: int)
    requires Inv(w) && id !in w.fds
    ensures Inv(Step(w, Adopt(id, fd))) <==> Legal(w, Adopt(id, fd))
  {
    var w' := Step(w, Adopt(id, fd));
    if Legal(w, Adopt(id, fd)) {
      AdoptKeeps(w, id, fd);
    } else if fd in w.table.open {
      var o :| o in w.fds && w.fds[o] == fd;
      assert w'.fds[o] == fd && w'.fds[id] == fd;
    } else {
      assert w'.fds[id] == fd;
    }
  }

  /** What goes wrong when an owned descriptor is taken over: the second destructor closes a closed descriptor. */
  lemma AdoptOwnedClosesTwice(w: World, id: nat, o: nat)
    requires Inv(w) && id !in w.fds && o in w.fds && w.fds[o] >= 0
    ensures var w1 := Step(w, Adopt(id, w.fds[o]));
      Step(Step(w1, Destroy(o)), Destroy(id)).table.badCloses == 1
  {
  }

  // ---------------------------------------------------------------------------------------------
  // Real objects behave as the runs say
  // ---------------------------------------------------------------------------------------------

  /** A collection of living UniqueFD objects over one kernel. */
  class Pool {
    const kernel: Kernel
    var objs: map<nat, UniqueFD>
    ghost var managed: set<nat>

    ghost predicate Valid()
      reads this, objs.Values
    {
      && (forall i :: i in objs ==> objs[i].kernel == kernel)
      && (forall i, j :: i in objs && j in objs && objs[i] == objs[j] ==> i == j)
    }

    /** The objects are those of before, or new ones. */
    twostate predicate OnlyNew(before: set<UniqueFD>)
      reads this
    {
      forall o :: o in objs.Values ==> o in before || fresh(o)
    }

    ghost function Abs(): World
      reads this, objs.Values, kernel
    {
      World(map i | i in objs :: objs[i].fd, kernel.table, managed)
    }

    constructor ()
      ensures Valid() && Abs() == START && fresh(kernel)
    {
      kernel := new Kernel();
      objs, managed := map[], {};
    }

    /** Note who owns `fd` now. */
    ghost method Mark(fd: int)
      modifies this`managed
      ensures managed == old(managed) + if fd >= 0 && fd in kernel.table.open then {kernel.table.open[fd]} else {}
    {
      managed := managed + if fd >= 0 && fd in kernel.table.open then {kernel.table.open[fd]} else {};
    }

    /** Constructors. */
    method Create(op: Op)
      requires Valid() && Legal(Abs(), op) && (op.Construct? || op.ConstructOpen? || op.Adopt?)
      modifies this, kernel
      ensures Valid() && Abs() == Step(old(Abs()), op)
      ensures OnlyNew(old(objs.Values))
    {
      ghost var w := Abs();
      var o;
      if op.Construct? {
        o := new UniqueFD.Empty(kernel);
      } else if op.ConstructOpen? {
        o := new UniqueFD.Opening(kernel, "", 0, None, op.got);
      } else {
        o := new UniqueFD.Adopting(kernel, op.fd, 0, None, "");
      }
      Mark(o.fd);
      objs := objs[op.id := o];
      assert Abs().fds == w.fds[op.id := o.fd];
    }

    method Move(op: Op)
      requires Valid() && Legal(Abs(), op) && (op.MoveConstruct? || op.MoveAssign?)
      modifies this, objs.Values, kernel
      ensures Valid() && Abs() == Step(old(Abs()), op)
      ensures OnlyNew(old(objs.Values))
    {
      ghost var w := Abs();
      if op.MoveConstruct? {
        var o := new UniqueFD.Moving(objs[op.from]);
        objs := objs[op.id := o];
        assert Abs().fds == w.fds[op.id := w.fds[op.from]][op.from := -1];
      } else {
        objs[op.to].MoveFrom(objs[op.from]);
        assert op.to != op.from ==> Abs().fds == w.fds[op.to := w.fds[op.from]][op.from := -1];
        assert op.to == op.from ==> Abs().fds == w.fds;
      }
    }

    /** Open, reOpen, close and destruction of one object. */
    method Change(op: Op)
      requires Valid() && Legal(Abs(), op) && (op.Open? || op.ReOpen? || op.Close? || op.Destroy?)
      modifies this, objs.Values, kernel
      ensures Valid() && Abs() == Step(old(Abs()), op)
      ensures OnlyNew(old(objs.Values))
    {
      ghost var w := Abs();
      var o := objs[op.id];
      if op.Open? {
        var held := o.fd;
        o.Open(op.got);
        if held < 0 {
          Mark(op.got);
        }
      } else if op.ReOpen? {
        var ok := o.ReOpen(op.got);
        Mark(op.got);
      } else if op.Close? {
        o.Close();
      } else {
        o.Destroy();
      }
      assert Abs().fds == w.fds[op.id := o.fd];
      if op.Destroy? {
        objs := objs - {op.id};
        assert Abs().fds == w.fds - {op.id};
      }
    }

    /** Every operation on real objects is the step of the same name. */
    method Do(op: Op)
      requires Valid() && Legal(Abs(), op)
      modifies this, objs.Values, kernel
      ensures Valid() && Abs() == Step(old(Abs()), op)
      ensures OnlyNew(old(objs.Values))
    {
      if op.Construct? || op.ConstructOpen? || op.Adopt? {
        Create(op);
      } else if op.MoveConstruct? || op.MoveAssign? {
        Move(op);
      } else if op.RawOpen? {
        var fd := kernel.Open(op.got);
      } else {
        Change(op);
      }
    }

    /** A run on real objects comes to what the run on the abstract world does. */
    method DoAll(ops: seq<Op>)
      requires Valid() && LegalRun(Abs(), ops)
      modifies this, objs.Values, kernel
      ensures Valid() && Abs() == Run(old(Abs()), ops)
    {
      hide Step;
      hide Legal;
      ghost var w := Abs();
      for i := 0 to |ops|
        invariant Valid() && OnlyNew(old(objs.Values))
        invariant LegalRun(Abs(), ops[i..]) && Run(Abs(), ops[i..]) == Run(w, ops)
      {
        assert ops[i..][0] == ops[i] && ops[i..][1..] == ops[i + 1..];
        Do(ops[i]);
      }
    }
  }
}
