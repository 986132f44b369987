/**
 Moving partition data: dump, write, wipe and checksum over reads and writes that may be short.

 What the kernel does at each turn of a loop is an input: a schedule is a finite list of turns, each
 saying how much the next read and write transfer, or that they fail. A loop that is still going when
 the schedule ends is Running; so a schedule can also show a loop that makes no progress.
 */
module PartitionIo {
  import opened Common

  /**
   The kernel's answers in one iteration: bytes read (negative: the read fails, `eperm` says with
   EPERM) and bytes written (negative: the write fails). Requests cap both.
   */
  datatype Turn = Turn(read: int, eperm: bool, written: int)

  datatype Ending = Returned(value: bool) | Thrown | Running

  /** Every turn reads something, and writes out all it read. */
  predicate Progressing(turns: seq<Turn>) {
    forall i :: 0 <= i < |turns| ==> turns[i].read > 0 && turns[i].written >= turns[i].read
  }

  /** What a transfer of at most `count` bytes returns. */
  function Transfer(answer: int, count: nat): (r: int)
    ensures answer < 0 ==> r == -1
    ensures answer >= 0 ==> 0 <= r <= count && r <= answer && (r == count || r == answer)
  {
    if answer < 0 then -1 else if answer < count then answer else count
  }

  function Min(a: nat, b: nat): nat {
    if a < b then a else b
  }

  function Zeros(n: nat): (r: seq<Byte>)
    ensures |r| == n && forall i :: 0 <= i < n ==> r[i] == 0
  {
    seq(n, _ => 0)
  }

  /** An open partition: `size` bytes of a device, which may go on behind them. */
  class Partition {
    const bytes: array<Byte>
    const size: nat
    const writable: bool

    /** UINT64_MAX is not a size: it stands for an error. */
    ghost predicate Valid() {
      size <= bytes.Length && size < TWO_TO_THE_64 - 1
    }

    constructor (bytes: array<Byte>, size: nat, writable: bool)
      requires size <= bytes.Length && size < TWO_TO_THE_64 - 1
      ensures Valid() && this.bytes == bytes && this.size == size && this.writable == writable
    {
      this.bytes, this.size, this.writable := bytes, size, writable;
    }

    /** How much of a request at `offset` the device can serve. */
    function Within(count: nat, offset: nat): nat {
      if offset >= bytes.Length then 0 else Min(count, bytes.Length - offset)
    }

    /** `openpart_read`: a request reaching past the end of the device is answered short. */
    method ReadAt(buf: array<Byte>, count: nat, offset: nat, answer: int) returns (ret: int)
      requires count <= buf.Length && buf != bytes
      modifies buf
      ensures ret == Transfer(answer, Within(count, offset))
      ensures ret > 0 ==> offset + ret <= bytes.Length
      ensures ret >= 0 ==> buf[..ret] == if ret == 0 then [] else bytes[offset..offset + ret]
      ensures buf[if ret < 0 then 0 else ret..] == old(buf[if ret < 0 then 0 else ret..])
    {
      ret := Transfer(answer, Within(count, offset));
      if ret > 0 {
        forall i | 0 <= i < ret {
          buf[i] := bytes[offset + i];
        }
      }
    }

    /**
     `openpart_write`: refused unless the partition was opened for reading and writing; at the end of the
     device there is no room, and a request reaching past it is cut short.
     */
    method WriteAt(buf: array<Byte>, count: nat, offset: nat, answer: int) returns (ret: int)
      requires count <= buf.Length && buf != bytes
      modifies bytes
      ensures ret == if !writable || (count > 0 && Within(count, offset) == 0) then -1
                     else Transfer(answer, Within(count, offset))
      ensures ret <= 0 ==> bytes[..] == old(bytes[..])
      ensures ret > 0 ==>
        && offset + ret <= bytes.Length
        && bytes[..] == old(bytes[..offset]) + buf[..ret] + old(bytes[offset + ret..])
    {
      if !writable || (count > 0 && Within(count, offset) == 0) {
        return -1;
      }
      ret := Transfer(answer, Within(count, offset));
      if ret > 0 {
        forall i | 0 <= i < ret {
          bytes[offset + i] := buf[i];
        }
      }
    }
  }

  /** A prefix of `target` has been written over `before`, `k` bytes of it. */
  ghost predicate WrittenUpTo(before: seq<Byte>, now: seq<Byte>, target: seq<Byte>, k: nat) {
    k <= |target| <= |before| && now == target[..k] + before[k..]
  }

  lemma WriteOn(before: seq<Byte>, now: seq<Byte>, now': seq<Byte>, target: seq<Byte>, k: nat, piece: seq<Byte>)
    requires WrittenUpTo(before, now, target, k) && k + |piece| <= |target|
    requires piece == target[k..k + |piece|]
    requires now' == now[..k] + piece + now[k + |piece|..]
    ensures WrittenUpTo(before, now', target, k + |piece|)
  {
    var k' := k + |piece|;
    assert now[..k] == target[..k];
    assert target[..k] + piece == target[..k'];
    assert now[k'..] == before[k'..];
  }

  lemma WrittenAll(before: seq<Byte>, now: seq<Byte>, target: seq<Byte>)
    requires WrittenUpTo(before, now, target, |target|)
    ensures now == target + before[|target|..]
  {
  }

  /** Write the next `count` bytes of the target; however many go through, the prefix grows by those. */
  method WriteNext(p: Partition, buf: array<Byte>, count: nat, at: nat, answer: int, ghost before: seq<Byte>,
                   ghost target: seq<Byte>)
    returns (ret: int)
    requires p.Valid() && buf != p.bytes && count <= buf.Length && at + count <= |target| == p.size
    requires WrittenUpTo(before, p.bytes[..], target, at) && buf[..count] == target[at..at + count]
    modifies p.bytes
    ensures ret == if p.writable then Transfer(answer, count) else -1
    ensures WrittenUpTo(before, p.bytes[..], target, if ret < 0 then at else at + ret)
  {
    hide WrittenUpTo;
    ghost var now, data := p.bytes[..], buf[..count];
    ret := p.WriteAt(buf, count, at, answer);
    if ret > 0 {
      assert buf[..ret] == data[..ret] == target[at..at + ret];
      WriteOn(before, now, p.bytes[..], target, at, data[..ret]);
    }
  }

  // ---------------------------------------------------------------------------------------------
  // dump
  // ---------------------------------------------------------------------------------------------

  /** The reads of the first `n` turns that failed other than with EPERM. */
  function Slips(turns: seq<Turn>, n: nat): nat
    requires n <= |turns|
  {
    if n == 0 then 0 else Slips(turns, n - 1) + if turns[n - 1].read < 0 && !turns[n - 1].eperm then 1 else 0
  }

  lemma PieceAppends(bytes: seq<Byte>, size: nat, at: nat, n: nat, w: nat)
    requires w <= n && at + n <= size <= |bytes|
    ensures bytes[..size][..at] + bytes[at..at + n][..w] == bytes[..size][..at + w]
  {
  }

  /** What `dump` came to: how it ended, the file, and the turns used. */
  datatype Dumped = Dumped(ending: Ending, file: seq<Byte>, used: nat)

  /** The 64-bit count of bytes read, after a read that returned `bytesRead`; -1 takes one away. */
  function CountOn(soFar: nat, bytesRead: int): nat
    requires bytesRead >= -1
  {
    if soFar == 0 && bytesRead < 0 then TWO_TO_THE_64 - 1 else soFar + bytesRead
  }

  /**
   The loop of `dump` over a partition holding `data`. Only EPERM ends it after a failed read: the -1
   is passed on to write() as SIZE_MAX, which fails with the same -1.
   */
  function DumpFrom(data: seq<Byte>, bufferSize: nat, turns: seq<Turn>, soFar: nat, file: seq<Byte>, used: nat): Dumped
    requires used <= |turns|
    decreases |turns| - used
  {
    if soFar >= |data| then Dumped(Returned(soFar == |data|), file, used)
    else if used == |turns| then Dumped(Running, file, used)
    else if turns[used].read < 0 && turns[used].eperm then Dumped(Thrown, file, used)
    else
      var bytesRead := Transfer(turns[used].read, Min(bufferSize, |data| - soFar));
      var bytesWritten := if bytesRead < 0 then -1 else Transfer(turns[used].written, bytesRead);
      var file' := if bytesWritten > 0 then file + data[soFar..soFar + bytesWritten] else file;
      if bytesWritten != bytesRead then Dumped(Thrown, file', used + 1)
      else DumpFrom(data, bufferSize, turns, CountOn(soFar, bytesRead), file', used + 1)
  }

  /** Where the loop stands: the file grows with the count but for failures that slipped through. */
  ghost predicate DumpState(data: seq<Byte>, turns: seq<Turn>, soFar: nat, file: seq<Byte>, used: nat) {
    && used <= |turns| && |data| < TWO_TO_THE_64 - 1
    && (Slips(turns, used) == 0 ==> soFar <= |data| && file == data[..soFar])
    && (soFar <= |data| ==> |file| == soFar + Slips(turns, used))
    && (soFar > |data| ==> Slips(turns, used) > 0)
  }

  /** What the outcome of `dump` says about the file. */
  ghost predicate DumpOutcome(data: seq<Byte>, turns: seq<Turn>, d: Dumped) {
    && d.used <= |turns|
    && (Slips(turns, d.used) == 0 ==> d.file <= data && (d.ending.Returned? ==> d.ending.value && d.file == data))
    && (d.ending == Returned(true) ==> |d.file| == |data| + Slips(turns, d.used))
  }

  /** One turn of the loop of `dump` keeps its state, when what was read is written in full. */
  lemma DumpTurn(data: seq<Byte>, turns: seq<Turn>, soFar: nat, file: seq<Byte>, used: nat, bytesRead: int)
    requires DumpState(data, turns, soFar, file, used) && used < |turns| && soFar < |data|
    requires -1 <= bytesRead <= |data| - soFar && (bytesRead < 0 <==> turns[used].read < 0)
    requires bytesRead < 0 ==> !turns[used].eperm
    ensures var file' := if bytesRead > 0 then file + data[soFar..soFar + bytesRead] else file;
      DumpState(data, turns, CountOn(soFar, bytesRead), file', used + 1)
  {
    if bytesRead > 0 && Slips(turns, used) == 0 {
      assert data[..soFar] + data[soFar..soFar + bytesRead] == data[..soFar + bytesRead];
    }
  }

  lemma DumpEnds(data: seq<Byte>, turns: seq<Turn>, soFar: nat, file: seq<Byte>, used: nat)
    requires DumpState(data, turns, soFar, file, used)
    ensures soFar >= |data| ==> DumpOutcome(data, turns, Dumped(Returned(soFar == |data|), file, used))
    ensures DumpOutcome(data, turns, Dumped(Running, file, used))
    ensures DumpOutcome(data, turns, Dumped(Thrown, file, used))
  {
    hide Slips;
  }

  lemma DumpShortWrite(data: seq<Byte>, turns: seq<Turn>, soFar: nat, file: seq<Byte>, used: nat, written: int)
    requires DumpState(data, turns, soFar, file, used) && used < |turns| && turns[used].read >= 0
    requires soFar < |data| && -1 <= written <= |data| - soFar
    ensures var file' := if written > 0 then file + data[soFar..soFar + written] else file;
      DumpOutcome(data, turns, Dumped(Thrown, file', used + 1))
  {
    if written > 0 && Slips(turns, used) == 0 {
      assert data[..soFar] + data[soFar..soFar + written] == data[..soFar + written];
    }
  }

  lemma {:induction false} DumpMeans(data: seq<Byte>, bufferSize: nat, turns: seq<Turn>, soFar: nat,
                                     file: seq<Byte>, used: nat)
    requires DumpState(data, turns, soFar, file, used)
    ensures used <= |turns| && DumpOutcome(data, turns, DumpFrom(data, bufferSize, turns, soFar, file, used))
    decreases |turns| - used
  {
    assert used <= |turns|;
    DumpEnds(data, turns, soFar, file, used);
    hide DumpState;
    hide DumpOutcome;
    if soFar < |data| && used < |turns| && !(turns[used].read < 0 && turns[used].eperm) {
      var bytesRead := Transfer(turns[used].read, Min(bufferSize, |data| - soFar));
      var bytesWritten := if bytesRead < 0 then -1 else Transfer(turns[used].written, bytesRead);
      var file' := if bytesWritten > 0 then file + data[soFar..soFar + bytesWritten] else file;
      if bytesWritten == bytesRead {
        DumpTurn(data, turns, soFar, file, used, bytesRead);
        DumpMeans(data, bufferSize, turns, CountOn(soFar, bytesRead), file', used + 1);
      } else {
        DumpShortWrite(data, turns, soFar, file, used, bytesWritten);
      }
    }
  }

  /** On turns that make progress the loop returns true, and nothing slips through. */
  lemma {:induction false} DumpCompletes(data: seq<Byte>, bufferSize: nat, turns: seq<Turn>, soFar: nat,
                                         file: seq<Byte>, used: nat)
    requires used <= |turns| && Progressing(turns) && |turns| >= |data| && used <= soFar <= |data|
    requires (bufferSize > 0 || data == []) && Slips(turns, used) == 0
    ensures var d := DumpFrom(data, bufferSize, turns, soFar, file, used);
      d.ending == Returned(true) && d.used <= |turns| && Slips(turns, d.used) == 0
    decreases |turns| - used
  {
    if soFar < |data| {
      var bytesRead := Transfer(turns[used].read, Min(bufferSize, |data| - soFar));
      DumpCompletes(data, bufferSize, turns, soFar + bytesRead, file + data[soFar..soFar + bytesRead], used + 1);
    }
  }

  /** One turn of `dump`: read at `soFar`, write what was read. `eperm` tells that the read failed with EPERM. */
  method DumpPiece(p: Partition, buffer: array<Byte>, soFar: nat, turn: Turn, ghost data: seq<Byte>)
    returns (eperm: bool, bytesRead: int, bytesWritten: int, piece: seq<Byte>)
    requires p.Valid() && soFar < p.size && buffer != p.bytes && data == p.bytes[..p.size]
    modifies buffer
    ensures eperm == (turn.read < 0 && turn.eperm)
    ensures bytesRead == Transfer(turn.read, Min(buffer.Length, p.size - soFar))
    ensures bytesWritten == if bytesRead < 0 then -1 else Transfer(turn.written, bytesRead)
    ensures piece == if bytesWritten > 0 then data[soFar..soFar + bytesWritten] else []
  {
    piece := [];
    var toRead := Min(buffer.Length, p.size - soFar);
    bytesRead := p.ReadAt(buffer, toRead, soFar, turn.read);
    eperm := bytesRead <= 0 && turn.read < 0 && turn.eperm;
    // A negative count reaches write() as SIZE_MAX, and the write fails.
    bytesWritten := if bytesRead < 0 then -1 else Transfer(turn.written, bytesRead);
    if bytesWritten > 0 {
      PieceRead(p.bytes[..], buffer[..], p.size, soFar, bytesRead, bytesWritten);
      piece := buffer[..bytesWritten];
    }
  }

  /** The loop of `dump`. */
  method DumpLoop(p: Partition, buffer: array<Byte>, turns: seq<Turn>, ghost data: seq<Byte>)
    returns (r: Ending, file: seq<Byte>, used: nat)
    requires p.Valid() && buffer != p.bytes && data == p.bytes[..p.size]
    modifies buffer
    ensures Dumped(r, file, used) == DumpFrom(data, buffer.Length, turns, 0, [], 0)
  {
    file, used := [], 0;
    var soFar: nat := 0;
    ghost var end := DumpFrom(data, buffer.Length, turns, 0, [], 0);
    assert |data| == p.size;
    while soFar < p.size
      invariant used <= |turns| && p.bytes[..p.size] == data
      invariant DumpFrom(data, buffer.Length, turns, soFar, file, used) == end
      decreases |turns| - used
    {
      if used == |turns| {
        return Running, file, used;
      }
      var eperm, bytesRead, bytesWritten, piece := DumpPiece(p, buffer, soFar, turns[used], data);
      if eperm {
        return Thrown, file, used;
      }
      used := used + 1;
      assert file + [] == file;
      file := file + piece;
      if bytesWritten != bytesRead {
        return Thrown, file, used;
      }
      soFar := CountOn(soFar, bytesRead);
    }
    r := Returned(soFar == p.size);
  }

  /**
   `dump` into a truncated file. A read that fails other than with EPERM is not noticed, and the count of
   bytes read goes down by one. So when `dump` returns true, the file is the partition's content if and
   only if no such failure happened on the way; without one it is a prefix of it at every moment.
   */
  method Dump(p: Partition, bufsize: nat, turns: seq<Turn>) returns (r: Ending, file: seq<Byte>, used: nat)
    requires p.Valid()
    ensures used <= |turns|
    ensures Dumped(r, file, used) == DumpFrom(p.bytes[..p.size], Min(bufsize, p.size), turns, 0, [], 0)
    ensures Slips(turns, used) == 0 ==> file <= p.bytes[..p.size] && (r == Returned(true) ==> file == p.bytes[..p.size])
    ensures r.Returned? && Slips(turns, used) == 0 ==> r.value
    ensures r == Returned(true) ==> |file| == p.size + Slips(turns, used)
    ensures r == Returned(true) ==> (file == p.bytes[..p.size] <==> Slips(turns, used) == 0)
    ensures Progressing(turns) && |turns| >= p.size && bufsize > 0 ==> r == Returned(true) && Slips(turns, used) == 0
  {
    hide DumpFrom;
    ghost var data := p.bytes[..p.size];
    var bufferSize := Min(bufsize, p.size);
    var buffer := new Byte[bufferSize];
    r, file, used := DumpLoop(p, buffer, turns, data);
    assert DumpState(data, turns, 0, [], 0);
    DumpMeans(data, bufferSize, turns, 0, [], 0);
    if Progressing(turns) && |turns| >= p.size && bufsize > 0 {
      DumpCompletes(data, bufferSize, turns, 0, [], 0);
    }
  }

  lemma PieceRead(bytes: seq<Byte>, buffer: seq<Byte>, size: nat, at: nat, n: nat, w: nat)
    requires w <= n <= |buffer| && at + n <= size <= |bytes| && buffer[..n] == bytes[at..at + n]
    ensures buffer[..w] == bytes[at..at + n][..w] == bytes[..size][at..at + w]
  {
    assert buffer[..w] == buffer[..n][..w];
  }

  /** One byte is read, the next read fails, and then the rest is read byte by byte. */
  const SLIPPING: seq<Turn> :=
    [Turn(1, false, 1), Turn(-1, false, 0), Turn(1, false, 1), Turn(1, false, 1), Turn(1, false, 1)]

  /** `dump` returns true on a wrong file: for every content of a 3-byte partition, the first byte is there twice. */
  lemma DumpTrueOnWrongFile(data: seq<Byte>)
    requires |data| == 3
    ensures DumpFrom(data, 1, SLIPPING, 0, [], 0) == Dumped(Returned(true), [data[0]] + data, 5)
    ensures Slips(SLIPPING, 5) == 1
  {
    var t := SLIPPING;
    var f0, f1, f2 := [data[0]], [data[0], data[0]], [data[0], data[0], data[1]];
    assert [] + data[0..1] == f0 && f0 + data[0..1] == f1 && f1 + data[1..2] == f2 && f2 + data[2..3] == f0 + data;
    assert DumpFrom(data, 1, t, 3, f0 + data, 5) == Dumped(Returned(true), f0 + data, 5);
    assert DumpFrom(data, 1, t, 2, f2, 4) == DumpFrom(data, 1, t, 3, f0 + data, 5);
    assert DumpFrom(data, 1, t, 1, f1, 3) == DumpFrom(data, 1, t, 2, f2, 4);
    assert DumpFrom(data, 1, t, 0, f0, 2) == DumpFrom(data, 1, t, 1, f1, 3);
    assert DumpFrom(data, 1, t, 1, f0, 1) == DumpFrom(data, 1, t, 0, f0, 2);
    assert Slips(t, 2) == 1 && Slips(t, 4) == 1;
  }

  // ---------------------------------------------------------------------------------------------
  // write
  // ---------------------------------------------------------------------------------------------

  /** What a completed `write` leaves: the image, then zeros to the end of the partition, then what was there. */
  function ImageOn(image: seq<Byte>, size: nat): (r: seq<Byte>)
    requires |image| <= size
    ensures |r| == size && r[..|image|] == image && forall i :: |image| <= i < size ==> r[i] == 0
  {
    image + Zeros(size - |image|)
  }

  lemma ImagePart(image: seq<Byte>, size: nat, offset: nat, n: nat)
    requires offset + n <= |image| <= size
    ensures image[offset..offset + n] == ImageOn(image, size)[offset..offset + n]
  {
  }

  lemma ZeroPart(image: seq<Byte>, size: nat, length: nat, offset: nat, n: nat)
    requires n <= length && |image| <= offset && offset + n <= size
    ensures Zeros(length)[..n] == ImageOn(image, size)[offset..offset + n]
  {
  }

  /** The partition holds the first `k` bytes of what a completed write leaves, over what was there before. */
  ghost predicate Partial(p: Partition, before: seq<Byte>, image: seq<Byte>)
    requires |image| <= p.size
    reads p.bytes
  {
    exists k :: 0 <= k <= p.size && WrittenUpTo(before, p.bytes[..], ImageOn(image, p.size), k)
  }

  /** A turn on which the image cannot be copied on: nothing is read, or not all that was read is written. */
  predicate CopyFails(writable: bool, bufferSize: nat, turn: Turn) {
    !writable || bufferSize == 0 || turn.read <= 0 || turn.written < turn.read
  }

  /** On the first `n` turns something was read and written. */
  predicate Copying(writable: bool, bufferSize: nat, turns: seq<Turn>, n: nat) {
    && n <= |turns|
    && forall i :: 0 <= i < n ==> writable && bufferSize > 0 && turns[i].read > 0 && turns[i].written > 0
  }

  /** A turn on which no zeros can be written. */
  predicate PadFails(writable: bool, bufferSize: nat, turn: Turn) {
    !writable || bufferSize == 0 || turn.written <= 0
  }

  /** The first loop of `write`: copy the image, read by read. It stops only when a turn fails or none is left. */
  method CopyImage(p: Partition, image: seq<Byte>, buffer: array<Byte>, turns: seq<Turn>)
    returns (stop: Option<Ending>, used: nat)
    requires p.Valid() && |image| <= p.size && buffer != p.bytes
    modifies p.bytes, buffer
    ensures used <= |turns|
    ensures stop.None? ==> WrittenUpTo(old(p.bytes[..]), p.bytes[..], ImageOn(image, p.size), |image|)
    ensures stop.Some? ==> !stop.value.Returned? && Partial(p, old(p.bytes[..]), image)
    ensures stop != Some(Thrown) ==> Copying(p.writable, buffer.Length, turns, used)
    ensures stop == Some(Running) ==> used == |turns|
    ensures stop == Some(Thrown) ==>
      && used > 0 && image != [] && Copying(p.writable, buffer.Length, turns, used - 1)
      && CopyFails(p.writable, buffer.Length, turns[used - 1])
    ensures Progressing(turns) && |turns| >= |image| && (buffer.Length > 0 || image == []) && p.writable ==>
      stop.None? && used <= |image|
  {
    ghost var before, target := p.bytes[..], ImageOn(image, p.size);
    var soFar: nat := 0;
    used := 0;
    assert WrittenUpTo(before, p.bytes[..], target, 0);
    hide WrittenUpTo;
    while soFar < |image|
      invariant used <= |turns| && soFar <= |image|
      invariant WrittenUpTo(before, p.bytes[..], target, soFar)
      invariant Copying(p.writable, buffer.Length, turns, used)
      invariant Progressing(turns) && (buffer.Length > 0 || image == []) && p.writable ==> used <= soFar
      decreases |turns| - used
    {
      if used == |turns| {
        return Some(Running), used;
      }
      var turn := turns[used];
      used := used + 1;
      var toRead := Min(buffer.Length, |image| - soFar);
      var bytesRead := Transfer(turn.read, toRead);
      if bytesRead <= 0 {
        return Some(Thrown), used;
      }
      forall i | 0 <= i < bytesRead {
        buffer[i] := image[soFar + i];
      }
      assert buffer[..bytesRead] == image[soFar..soFar + bytesRead];
      ImagePart(image, p.size, soFar, bytesRead);
      var bytesWritten := WriteNext(p, buffer, bytesRead, soFar, turn.written, before, target);
      if bytesWritten != bytesRead {
        return Some(Thrown), used;
      }
      soFar := soFar + bytesRead;
    }
    stop := None;
  }

  /** The second loop of `write`: zeros up to the end of the partition, short writes allowed. */
  method PadWithZeros(p: Partition, image: seq<Byte>, buffer: array<Byte>, turns: seq<Turn>, start: nat,
                      ghost before: seq<Byte>)
    returns (stop: Option<Ending>, soFar: nat)
    requires p.Valid() && |image| <= p.size && buffer != p.bytes && start <= |turns|
    requires WrittenUpTo(before, p.bytes[..], ImageOn(image, p.size), |image|)
    modifies p.bytes, buffer
    ensures stop.None? ==> soFar == p.size && WrittenUpTo(before, p.bytes[..], ImageOn(image, p.size), p.size)
    ensures stop.Some? ==> !stop.value.Returned? && Partial(p, before, image)
    ensures stop == Some(Running) ==>
      forall i :: start <= i < |turns| ==> !PadFails(p.writable, buffer.Length, turns[i])
    ensures stop == Some(Thrown) ==>
      exists i :: start <= i < |turns| && PadFails(p.writable, buffer.Length, turns[i])
    ensures Progressing(turns) && |turns| >= p.size && p.writable && start <= |image| ==>
      (buffer.Length > 0 || |image| == p.size) ==> stop.None?
  {
    ghost var target := ImageOn(image, p.size);
    forall i | 0 <= i < buffer.Length {
      buffer[i] := 0;
    }
    assert buffer[..] == Zeros(buffer.Length);
    soFar := |image|;
    var used := start;
    while soFar < p.size
      invariant start <= used <= |turns| && |image| <= soFar <= p.size
      invariant forall i :: start <= i < used ==> !PadFails(p.writable, buffer.Length, turns[i])
      invariant WrittenUpTo(before, p.bytes[..], target, soFar)
      invariant buffer[..] == Zeros(buffer.Length)
      invariant Progressing(turns) && p.writable && start <= |image| ==>
        (buffer.Length > 0 || |image| == p.size) ==> used <= soFar
      decreases |turns| - used
    {
      if used == |turns| {
        return Some(Running), soFar;
      }
      var count := Min(buffer.Length, p.size - soFar);
      assert buffer[..count] == buffer[..][..count];
      ZeroPart(image, p.size, buffer.Length, soFar, count);
      var written := WriteNext(p, buffer, count, soFar, turns[used].written, before, target);
      if written <= 0 {
        assert PadFails(p.writable, buffer.Length, turns[used]);
        return Some(Thrown), soFar;
      }
      used := used + 1;
      soFar := soFar + written;
    }
    stop := None;
  }

  /**
   `write`. When it returns, the partition is the image followed by zeros, and the value it returns says
   only whether the image filled the partition. However it is cut short, the partition holds a prefix of
   that over what it held before. Nothing behind the partition's size ever changes.
   */
  method Write(p: Partition, image: seq<Byte>, bufsize: nat, turns: seq<Turn>) returns (r: Ending)
    requires p.Valid()
    modifies p.bytes
    ensures |image| > p.size ==> r == Thrown && p.bytes[..] == old(p.bytes[..])
    ensures |image| <= p.size ==> Partial(p, old(p.bytes[..]), image)
    ensures r.Returned? ==>
      && |image| <= p.size
      && p.bytes[..] == ImageOn(image, p.size) + old(p.bytes[p.size..])
      && (r.value <==> |image| == p.size)
    ensures r == Running ==> forall i :: 0 <= i < |turns| ==> !PadFails(p.writable, bufsize, turns[i])
    ensures r == Thrown && |image| <= p.size ==>
      exists i :: 0 <= i < |turns| &&
        (CopyFails(p.writable, bufsize, turns[i]) || PadFails(p.writable, bufsize, turns[i]))
    ensures Progressing(turns) && |turns| >= p.size >= |image| && bufsize > 0 && p.writable ==> r.Returned?
  {
    if |image| > p.size {
      return Thrown;
    }
    ghost var before := p.bytes[..];
    var bufferSize := Min(bufsize, p.size);
    var buffer := new Byte[bufferSize];
    var stop, used := CopyImage(p, image, buffer, turns);
    if stop.Some? {
      assert stop == Some(Thrown) ==> CopyFails(p.writable, bufsize, turns[used - 1]);
      return stop.value;
    }
    var soFar;
    stop, soFar := PadWithZeros(p, image, buffer, turns, used, before);
    if stop.Some? {
      return stop.value;
    }
    assert ImageOn(image, p.size)[..p.size] == ImageOn(image, p.size);
    r := Returned(soFar == |image|);
  }

  /**
   Image round trip: dump one partition and write the file to another. When both succeed and no failed
   read slipped through, that one holds the first one's contents, padded with zeros; and they do succeed
   when there is room and all reads and writes make progress.
   */
  method Copy(a: Partition, b: Partition, bufsize: nat, dumpTurns: seq<Turn>, writeTurns: seq<Turn>)
    returns (ok: bool, ghost used: nat)
    requires a.Valid() && b.Valid() && a.bytes != b.bytes
    modifies b.bytes
    ensures used <= |dumpTurns|
    ensures ok && Slips(dumpTurns, used) == 0 ==>
      a.size <= b.size && b.bytes[..b.size] == ImageOn(a.bytes[..a.size], b.size)
    ensures b.bytes[b.size..] == old(b.bytes[b.size..])
    ensures Progressing(dumpTurns) && |dumpTurns| >= a.size && Progressing(writeTurns) && |writeTurns| >= b.size ==>
      bufsize > 0 && a.size <= b.size && b.writable ==> ok && Slips(dumpTurns, used) == 0
  {
    var dumped, file, n := Dump(a, bufsize, dumpTurns);
    used := n;
    if dumped != Returned(true) {
      return false, used;
    }
    var written := Write(b, file, bufsize, writeTurns);
    ok := written.Returned?;
  }

  // ---------------------------------------------------------------------------------------------
  // wipe
  // ---------------------------------------------------------------------------------------------

  const CHUNK: nat := 4096

  /**
   `openpart_wipe`: when the loop ends, every byte up to the partition's size is zero and every byte
   behind it is what it was; cut short by an error, a prefix is zeroed and nothing else is touched.
   Without write permission nothing happens at all.
   */
  method Wipe(p: Partition, turns: seq<Turn>) returns (r: Ending)
    requires p.Valid()
    modifies p.bytes
    ensures r.Returned? ==> p.bytes[..] == Zeros(p.size) + old(p.bytes[p.size..])
    ensures Partial(p, old(p.bytes[..]), [])
    ensures !p.writable ==> r == Thrown && p.bytes[..] == old(p.bytes[..])
    ensures r == Running ==> forall i :: 0 <= i < |turns| ==> turns[i].written >= 0
    ensures r == Thrown && p.writable ==> exists i :: 0 <= i < |turns| && turns[i].written < 0
    ensures Progressing(turns) && |turns| >= p.size && p.writable ==> r.Returned?
  {
    ghost var before, target := p.bytes[..], ImageOn([], p.size);
    assert WrittenUpTo(before, p.bytes[..], target, 0);
    if !p.writable {
      return Thrown;
    }
    var buf := new Byte[CHUNK](_ => 0);
    assert buf[..] == Zeros(CHUNK);
    var offset: nat, used := 0, 0;
    while p.size - offset > 0
      invariant used <= |turns| && offset <= p.size
      invariant forall i :: 0 <= i < used ==> turns[i].written >= 0
      invariant WrittenUpTo(before, p.bytes[..], target, offset)
      invariant buf[..] == Zeros(CHUNK)
      invariant Progressing(turns) ==> used <= offset
      decreases |turns| - used
    {
      if used == |turns| {
        return Running;
      }
      var count := Min(CHUNK, p.size - offset);
      assert buf[..count] == buf[..][..count];
      ZeroPart([], p.size, CHUNK, offset, count);
      var ret := WriteNext(p, buf, count, offset, turns[used].written, before, target);
      if ret < 0 {
        return Thrown;
      }
      used := used + 1;
      offset := offset + ret;
    }
    WrittenAll(before, p.bytes[..], target);
    assert target == Zeros(p.size);
    r := Returned(true);
  }

  // ---------------------------------------------------------------------------------------------
  // checksum
  // ---------------------------------------------------------------------------------------------

  /** An update function that does not care how its input is cut up. */
  ghost predicate Streams<S(!new)>(update: (S, seq<Byte>) -> S) {
    && (forall s :: update(s, []) == s)
    && (forall s, a, b :: update(update(s, a), b) == update(s, a + b))
  }

  datatype Digest<+S> = Digest(state: S) | ReadError | Unfinished

  /** The reading loop of `openpart_checksum`: for any short reads, one update over the whole partition. */
  method StreamOver<S(!new)>(p: Partition, init: S, update: (S, seq<Byte>) -> S, turns: seq<Turn>)
    returns (r: Digest<S>)
    requires p.Valid() && Streams(update)
    ensures r.Digest? ==> r.state == update(init, p.bytes[..p.size])
    ensures r.ReadError? ==> exists i :: 0 <= i < |turns| && turns[i].read < 0
    ensures r.Unfinished? ==> forall i :: 0 <= i < |turns| ==> turns[i].read >= 0
    ensures Progressing(turns) && |turns| >= p.size ==> r.Digest?
  {
    hide Streams;
    ghost var data := p.bytes[..p.size];
    var buf := new Byte[CHUNK];
    var state, offset: nat, used := init, 0, 0;
    StreamStep(update, init, [], []);
    while p.size - offset > 0
      invariant used <= |turns| && offset <= p.size && p.bytes[..p.size] == data
      invariant forall i :: 0 <= i < used ==> turns[i].read >= 0
      invariant state == update(init, data[..offset])
      invariant Progressing(turns) ==> used <= offset
      decreases |turns| - used
    {
      if used == |turns| {
        return Unfinished;
      }
      var count := Min(CHUNK, p.size - offset);
      var ret := p.ReadAt(buf, count, offset, turns[used].read);
      if ret < 0 {
        return ReadError;
      }
      used := used + 1;
      PieceAppends(p.bytes[..], p.size, offset, ret, ret);
      assert p.bytes[offset..offset + ret][..ret] == buf[..ret];
      StreamStep(update, init, data[..offset], buf[..ret]);
      state := update(state, buf[..ret]);
      offset := offset + ret;
    }
    assert data[..offset] == data;
    r := Digest(state);
  }

  lemma StreamStep<S(!new)>(update: (S, seq<Byte>) -> S, s: S, a: seq<Byte>, b: seq<Byte>)
    requires Streams(update)
    ensures update(s, []) == s && update(update(s, a), b) == update(s, a + b)
  {
  }

  /** One entry of the CRC table, section 8 of RFC 1952: eight steps of shifting out a bit. */
  function CrcEntry(c: bv32, steps: nat): bv32
    decreases steps
  {
    if steps == 0 then c
    else CrcEntry(if c & 1 == 1 then 0xEDB8_8320 ^ (c >> 1) else c >> 1, steps - 1)
  }

  function CrcByte(c: bv32, b: Byte): bv32 {
    CrcEntry((c ^ (b as bv32)) & 0xFF, 8) ^ (c >> 8)
  }

  function CrcFold(c: bv32, data: seq<Byte>): bv32 {
    if data == [] then c else CrcByte(CrcFold(c, data[..|data| - 1]), data[|data| - 1])
  }

  /** `crc32`: the running value is kept complemented between calls. */
  function Crc32(crc: bv32, data: seq<Byte>): bv32 {
    Complement(CrcFold(Complement(crc), data))
  }

  function Complement(x: bv32): bv32 {
    x ^ 0xFFFF_FFFF
  }

  lemma ComplementTwice(x: bv32)
    ensures Complement(Complement(x)) == x
  {
  }

  lemma {:induction false} CrcFoldAppend(c: bv32, a: seq<Byte>, b: seq<Byte>)
    ensures CrcFold(c, a + b) == CrcFold(CrcFold(c, a), b)
  {
    if b == [] {
      assert a + b == a;
    } else {
      assert (a + b)[..|a + b| - 1] == a + b[..|b| - 1];
      CrcFoldAppend(c, a, b[..|b| - 1]);
    }
  }

  /** The complements at the end of one call and the start of the next cancel. */
  lemma Crc32Append(crc: bv32, a: seq<Byte>, b: seq<Byte>)
    ensures Crc32(crc, []) == crc
    ensures Crc32(Crc32(crc, a), b) == Crc32(crc, a + b)
  {
    hide CrcByte;
    hide Complement;
    ComplementTwice(crc);
    ComplementTwice(CrcFold(Complement(crc), a));
    CrcFoldAppend(Complement(crc), a, b);
  }

  /** The table's entries for the single bits, from which exclusive or makes all others. */
  lemma TableEntries()
    ensures CrcEntry(0x01, 8) == 0x7707_3096
    ensures CrcEntry(0x02, 8) == 0xEE0E_612C
    ensures CrcEntry(0x04, 8) == 0x076D_C419
    ensures CrcEntry(0x08, 8) == 0x0EDB_8832
    ensures CrcEntry(0x10, 8) == 0x1DB7_1064
    ensures CrcEntry(0x20, 8) == 0x3B6E_20C8
    ensures CrcEntry(0x40, 8) == 0x76DC_4190
    ensures CrcEntry(0x80, 8) == 0xEDB8_8320
  {
  }

  /** A check value: the CRC of the byte 0. */
  lemma Crc32OfZero()
    ensures Crc32(0, [0]) == 0xD202_EF8D
  {
    assert CrcFold(0xFFFF_FFFF, []) == 0xFFFF_FFFF && [0 as Byte][..0] == [];
    assert CrcByte(0xFFFF_FFFF, 0) == 0x2DFD_1072;
  }

  lemma Crc32Streams()
    ensures Streams(Crc32)
  {
    hide Crc32;
    forall crc
      ensures Crc32(crc, []) == crc
    {
      Crc32Append(crc, [], []);
    }
    forall crc, a, b
      ensures Crc32(Crc32(crc, a), b) == Crc32(crc, a + b)
    {
      Crc32Append(crc, a, b);
    }
  }

  /** `openpart_checksum` with OP_CKSUM_CRC32: None is an error, whether of the output buffer or of a read. */
  method ChecksumCrc32(p: Partition, outLength: nat, turns: seq<Turn>) returns (r: Digest<bv32>)
    requires p.Valid()
    ensures r.Digest? ==> outLength >= 4 && r.state == Crc32(0, p.bytes[..p.size])
    ensures outLength < 4 ==> r == ReadError
    ensures outLength >= 4 && r.ReadError? ==> exists i :: 0 <= i < |turns| && turns[i].read < 0
    ensures r.Unfinished? ==> forall i :: 0 <= i < |turns| ==> turns[i].read >= 0
    ensures Progressing(turns) && |turns| >= p.size && outLength >= 4 ==> r.Digest?
  {
    if outLength < 4 {
      return ReadError;
    }
    Crc32Streams();
    r := StreamOver(p, 0, Crc32, turns);
  }
}
