/**
 Silencing of stdout and stderr.

 The descriptor table maps descriptors to open files; opening a file makes one that was not there
 before. A Silencer saves the two stream buffers and duplicates of descriptors 1 and 2, and puts them
 back on `stop`. What the kernel hands out when a file is opened or a descriptor duplicated is its
 choice and enters as parameters; -1 is a failure.
 */
module Silencing {
  import opened Common

  const STDOUT: int := 1
  const STDERR: int := 2

  /** A stream buffer: that of a stream itself, or of the null stream of some Silencer. */
  datatype Buf = Own(stream: int) | Null(owner: nat)

  /** The descriptor table, the buffers behind cout and cerr, and the number of files opened so far. */
  datatype Console = Console(table: map<int, nat>, cout: Buf, cerr: Buf, files: nat)

  /** One Silencer's fields. `nullStream` is the descriptor behind its null_stream. */
  datatype Fields = Fields(savedCout: Option<Buf>, savedCerr: Option<Buf>, savedStdout: int, savedStderr: int,
                           nullFd: int, nullStream: int)

  const IDLE := Fields(None, None, -1, -1, -1, -1)

  predicate IsActive(f: Fields) {
    f.savedCout.Some? || f.nullFd != -1
  }

  /** What the fields of a Silencer look like between calls. */
  predicate Coherent(f: Fields) {
    && (f.savedCout.Some? <==> f.savedCerr.Some?)
    && (f.savedCout.None? ==> f == IDLE)
    && (f.nullFd == -1 ==> f.savedStdout == -1 && f.savedStderr == -1)
  }

  /** The descriptors a Silencer holds. */
  function Fds(f: Fields): set<int> {
    {f.nullStream, f.nullFd, f.savedStdout, f.savedStderr} - {-1}
  }

  // ---------------------------------------------------------------------------------------------
  // The kernel's calls
  // ---------------------------------------------------------------------------------------------

  /** What a call that makes a descriptor may return. */
  predicate Grantable(c: Console, pick: int) {
    pick == -1 || (pick >= 0 && pick !in c.table)
  }

  function Opened(c: Console, pick: int): Console {
    if pick < 0 then c else c.(table := c.table[pick := c.files], files := c.files + 1)
  }

  function Duplicated(c: Console, fd: int, pick: int): Console {
    if pick < 0 || fd !in c.table then c else c.(table := c.table[pick := c.table[fd]])
  }

  /** dup2: fails, and changes nothing, when `from` is not open. */
  function Redirected(c: Console, from: int, to: int): Console {
    if from < 0 || from !in c.table then c else c.(table := c.table[to := c.table[from]])
  }

  function Closed(c: Console, fd: int): Console {
    if fd < 0 then c else c.(table := c.table - {fd})
  }

  function Buffered(c: Console, cout: Buf, cerr: Buf): Console {
    c.(cout := cout, cerr := cerr)
  }

  // ---------------------------------------------------------------------------------------------
  // silence and stop
  // ---------------------------------------------------------------------------------------------

  /** What the kernel returns during one `silence`. */
  datatype Picks = Picks(stream: int, nullFd: int, savedStdout: int, savedStderr: int)

  /** The console once both null files have been opened, and once stdout and stderr have been duplicated. */
  function NullOpened(c: Console, id: nat, p: Picks): Console {
    Opened(Buffered(Opened(c, p.stream), Null(id), Null(id)), p.nullFd)
  }

  function Saved(c: Console, id: nat, p: Picks): Console {
    Duplicated(Duplicated(NullOpened(c, id, p), STDOUT, p.savedStdout), STDERR, p.savedStderr)
  }

  /** The picks are possible, each at its time; a descriptor that is not open cannot be duplicated. */
  predicate Possible(c: Console, id: nat, p: Picks) {
    && Grantable(c, p.stream) && Grantable(Opened(c, p.stream), p.nullFd)
    && (p.nullFd >= 0 ==>
          var c1 := NullOpened(c, id, p);
          var c2 := Duplicated(c1, STDOUT, p.savedStdout);
          && Grantable(c1, p.savedStdout) && (STDOUT !in c1.table ==> p.savedStdout == -1)
          && Grantable(c2, p.savedStderr) && (STDERR !in c2.table ==> p.savedStderr == -1))
  }

  function Silenced(c: Console, id: nat, p: Picks): Console {
    if p.nullFd < 0 then NullOpened(c, id, p)
    else Redirected(Redirected(Saved(c, id, p), p.nullFd, STDOUT), p.nullFd, STDERR)
  }

  function SilencedFields(c: Console, p: Picks): Fields {
    if p.nullFd < 0 then Fields(Some(c.cout), Some(c.cerr), -1, -1, -1, p.stream)
    else Fields(Some(c.cout), Some(c.cerr), p.savedStdout, p.savedStderr, p.nullFd, p.stream)
  }

  /** `stop` on an active Silencer. */
  function Stopped(c: Console, f: Fields): Console
    requires Coherent(f) && IsActive(f)
  {
    var c1 := Closed(Buffered(c, f.savedCout.value, f.savedCerr.value), f.nullStream);
    if f.nullFd == -1 then c1
    else
      var c2 := Redirected(Redirected(c1, f.savedStdout, STDOUT), f.savedStderr, STDERR);
      Closed(Closed(Closed(c2, f.savedStdout), f.savedStderr), f.nullFd)
  }

  class Terminal {
    var console: Console

    constructor (console: Console)
      ensures this.console == console
    {
      this.console := console;
    }

    /** open("/dev/null"): a new file behind the descriptor picked. */
    method OpenNull(pick: int) returns (fd: int)
      requires Grantable(console, pick)
      modifies this
      ensures fd == pick && console == Opened(old(console), pick)
    {
      if pick >= 0 {
        console := console.(table := console.table[pick := console.files], files := console.files + 1);
      }
      fd := pick;
    }

    method Dup(fd: int, pick: int) returns (copy: int)
      requires Grantable(console, pick) && (fd !in console.table ==> pick == -1)
      modifies this
      ensures copy == pick && console == Duplicated(old(console), fd, pick)
    {
      if pick >= 0 {
        console := console.(table := console.table[pick := console.table[fd]]);
      }
      copy := pick;
    }

    method Dup2(from: int, to: int)
      modifies this
      ensures console == Redirected(old(console), from, to)
    {
      if from >= 0 && from in console.table {
        console := console.(table := console.table[to := console.table[from]]);
      }
    }

    method Close(fd: int)
      modifies this
      ensures console == Closed(old(console), fd)
    {
      if fd >= 0 {
        console := console.(table := console.table - {fd});
      }
    }

    method SetBuffers(cout: Buf, cerr: Buf)
      modifies this
      ensures console == Buffered(old(console), cout, cerr)
    {
      console := console.(cout := cout, cerr := cerr);
    }
  }

  class Silencer {
    const id: nat
    const term: Terminal
    var f: Fields

    ghost predicate Valid()
      reads this
    {
      Coherent(f)
    }

    constructor (id: nat, term: Terminal)
      ensures Valid() && this.id == id && this.term == term && f == IDLE
    {
      this.id, this.term, f := id, term, IDLE;
    }

    /** Silence the output; nothing happens when this Silencer is active already. Opens and duplications may fail. */
    method Silence(p: Picks)
      requires Valid() && (!IsActive(f) ==> Possible(term.console, id, p))
      modifies this, term
      ensures Valid()
      ensures if IsActive(old(f)) then f == old(f) && term.console == old(term.console)
              else f == SilencedFields(old(term.console), p) && term.console == Silenced(old(term.console), id, p)
    {
      hide Opened;
      hide Duplicated;
      hide Redirected;
      if f.savedCout.Some? || f.nullFd != -1 {
        return;
      }
      ghost var c := term.console;
      var stream := term.OpenNull(p.stream);
      f := f.(nullStream := stream, savedCout := Some(term.console.cout), savedCerr := Some(term.console.cerr));
      OpenKeepsBuffers(c, p.stream);
      term.SetBuffers(Null(id), Null(id));
      var nullFd := term.OpenNull(p.nullFd);
      f := f.(nullFd := nullFd);
      if nullFd == -1 {
        return;
      }
      var savedStdout := term.Dup(STDOUT, p.savedStdout);
      var savedStderr := term.Dup(STDERR, p.savedStderr);
      f := f.(savedStdout := savedStdout, savedStderr := savedStderr);
      term.Dup2(nullFd, STDOUT);
      term.Dup2(nullFd, STDERR);
    }

    /** Stop muting; nothing happens when this Silencer is not active. */
    method Stop()
      requires Valid()
      modifies this, term
      ensures Valid()
      ensures if !IsActive(old(f)) then f == old(f) && term.console == old(term.console)
              else f == IDLE && term.console == Stopped(old(term.console), old(f))
    {
      hide Closed;
      hide Redirected;
      if f.savedCout.None? && f.nullFd == -1 {
        return;
      }
      if f.savedCout.Some? {
        term.SetBuffers(f.savedCout.value, f.savedCerr.value);
        term.Close(f.nullStream);
        f := f.(savedCout := None, savedCerr := None, nullStream := -1);
      }
      if f.nullFd != -1 {
        term.Dup2(f.savedStdout, STDOUT);
        term.Dup2(f.savedStderr, STDERR);
        term.Close(f.savedStdout);
        term.Close(f.savedStderr);
        term.Close(f.nullFd);
        f := f.(savedStdout := -1, savedStderr := -1, nullFd := -1);
      }
    }
  }

  /** Opening a file changes no stream buffer, and what may be picked next does not depend on the buffers. */
  lemma OpenKeepsBuffers(c: Console, pick: int)
    ensures Opened(c, pick).cout == c.cout && Opened(c, pick).cerr == c.cerr
    ensures forall x, y, q :: Grantable(Buffered(Opened(c, pick), x, y), q) <==> Grantable(Opened(c, pick), q)
  {
  }
}
