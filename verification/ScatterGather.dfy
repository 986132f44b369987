/**
 Chunked input and output lists, as the block cipher code walks them.

 Memory is one array of bytes. A chunk names `len` bytes to read at offset `inp` and `len` bytes to
 write at offset `out`; the two ranges may coincide (in-place operation). What a chunk list means is
 the list of addresses it covers, in order.
 */
module ScatterGather {
  import opened Common
  import Arithmetic

  datatype Side = In | Out

  datatype IoVec = IoVec(inp: nat, out: nat, len: nat) {
    function Base(side: Side): nat {
      if side == In then inp else out
    }

    /** The chunk without its first `n` bytes. */
    function DropPrefix(n: nat): IoVec
      requires n <= len
    {
      IoVec(inp + n, out + n, len - n)
    }
  }

  // ---------------------------------------------------------------------------------------------
  // Addresses covered by a chunk list
  // ---------------------------------------------------------------------------------------------

  function Span(base: nat, len: nat): (r: seq<nat>)
    ensures |r| == len
    ensures forall k :: 0 <= k < len ==> r[k] == base + k
  {
    seq(len, k requires 0 <= k => base + k)
  }

  /** Every address the list covers on one side, in list order. */
  function Addrs(v: seq<IoVec>, side: Side): (r: seq<nat>)
    ensures |r| == SumLen(v)
  {
    if v == [] then [] else Span(v[0].Base(side), v[0].len) + Addrs(v[1..], side)
  }

  /** The addresses covered by a partly consumed chunk followed by the chunks after it. */
  function Remaining(head: IoVec, rest: seq<IoVec>, side: Side): (r: seq<nat>)
    ensures |r| == head.len + SumLen(rest)
  {
    Span(head.Base(side), head.len) + Addrs(rest, side)
  }

  /** The mathematical sum of the chunk lengths. */
  function SumLen(v: seq<IoVec>): nat {
    if v == [] then 0 else v[0].len + SumLen(v[1..])
  }

  function Gather(m: seq<Byte>, addrs: seq<nat>): (r: seq<Byte>)
    requires InBounds(addrs, |m|)
    ensures |r| == |addrs|
    ensures forall k :: 0 <= k < |addrs| ==> r[k] == m[addrs[k]]
  {
    seq(|addrs|, k requires 0 <= k < |addrs| => m[addrs[k]])
  }

  predicate InBounds(addrs: seq<nat>, size: nat) {
    forall k :: 0 <= k < |addrs| ==> addrs[k] < size
  }

  lemma {:induction false} AddrsAppend(a: seq<IoVec>, b: seq<IoVec>, side: Side)
    ensures Addrs(a + b, side) == Addrs(a, side) + Addrs(b, side)
  {
    if a == [] {
      assert a + b == b;
    } else {
      var first := Span(a[0].Base(side), a[0].len);
      assert (a + b)[1..] == a[1..] + b;
      AddrsAppend(a[1..], b, side);
      assert Addrs(a + b, side) == first + (Addrs(a[1..], side) + Addrs(b, side));
    }
  }

  /** Byte `j` of chunk `i` is at its place in the list: behind all bytes of the chunks before it. */
  lemma AddrsAt(v: seq<IoVec>, i: nat, j: nat, side: Side)
    requires i < |v| && j < v[i].len
    ensures SumLen(v[..i]) + j < |Addrs(v, side)|
    ensures Addrs(v, side)[SumLen(v[..i]) + j] == if side == In then v[i].inp + j else v[i].out + j
  {
    assert v == v[..i] + v[i..];
    AddrsAppend(v[..i], v[i..], side);
    assert Addrs(v[i..], side)[j] == v[i].Base(side) + j;
  }

  /** Empty chunks at the end contribute no address. */
  lemma AddrsDropLastEmpty(v: seq<IoVec>, side: Side)
    requires v != [] && v[|v| - 1].len == 0
    ensures Addrs(v[..|v| - 1], side) == Addrs(v, side)
  {
    var last := v[|v| - 1];
    AddrsAppend(v[..|v| - 1], [last], side);
    assert v == v[..|v| - 1] + [last];
    assert [last][1..] == [] && Addrs([last], side) == [];
  }

  lemma SliceAppend<T>(s: seq<T>, lo: nat, mid: nat, hi: nat)
    requires lo <= mid <= hi <= |s|
    ensures s[lo..mid] + s[mid..hi] == s[lo..hi]
  {
  }

  lemma SlicePrefix<T>(s: seq<T>, lo: nat, hi: nat)
    requires lo <= hi <= |s|
    ensures s[..hi][..lo] == s[..lo] && s[..hi][lo..] == s[lo..hi]
  {
  }

  /** Position (head, rest) has `pos` bytes of the list with addresses `ins` and `outs` behind it. */
  predicate At(head: IoVec, rest: seq<IoVec>, ins: seq<nat>, outs: seq<nat>, pos: nat) {
    && pos <= |ins| == |outs|
    && Remaining(head, rest, In) == ins[pos..]
    && Remaining(head, rest, Out) == outs[pos..]
  }

  lemma AtStart(v: seq<IoVec>)
    requires v != []
    ensures At(v[0], v[1..], Addrs(v, In), Addrs(v, Out), 0)
  {
  }

  /** What is left at a position: the rest of the head chunk and the chunks behind it, at least `head.len` bytes. */
  lemma AtLength(head: IoVec, rest: seq<IoVec>, ins: seq<nat>, outs: seq<nat>, pos: nat)
    requires At(head, rest, ins, outs, pos)
    ensures pos + head.len + SumLen(rest) == |ins|
  {
  }

  lemma AtDropPrefix(head: IoVec, rest: seq<IoVec>, ins: seq<nat>, outs: seq<nat>, pos: nat, n: nat)
    requires At(head, rest, ins, outs, pos) && n <= head.len
    ensures pos + n <= |ins|
    ensures At(head.DropPrefix(n), rest, ins, outs, pos + n)
    ensures ins[pos..pos + n] == Span(head.inp, n) && outs[pos..pos + n] == Span(head.out, n)
  {
    assert pos + n <= |ins|;
    assert Remaining(head, rest, In)[..n] == Span(head.inp, n);
    assert Remaining(head, rest, Out)[..n] == Span(head.out, n);
    assert Remaining(head.DropPrefix(n), rest, In) == Remaining(head, rest, In)[n..];
    assert Remaining(head.DropPrefix(n), rest, Out) == Remaining(head, rest, Out)[n..];
  }

  lemma AtNext(head: IoVec, rest: seq<IoVec>, ins: seq<nat>, outs: seq<nat>, pos: nat)
    requires At(head, rest, ins, outs, pos) && rest != []
    ensures At(rest[0], rest[1..], ins, outs, pos + head.len)
  {
    assert Remaining(rest[0], rest[1..], In) == Remaining(head, rest, In)[head.len..];
    assert Remaining(rest[0], rest[1..], Out) == Remaining(head, rest, Out)[head.len..];
  }

  // ---------------------------------------------------------------------------------------------
  // Callbacks and what a list of calls does
  // ---------------------------------------------------------------------------------------------

  /** What one callback, or a run of callbacks, did: `ok` false stops the walk. */
  datatype Outcome<S> = Outcome(ok: bool, state: S, output: seq<Byte>)

  type Callback<!S> = (S, seq<Byte>) -> Outcome<S>

  datatype Call = Call(final: bool, data: seq<Byte>)

  /** With WriteOut a call that succeeds has written exactly as many bytes as it read. */
  predicate WritesBack<S>(r: Outcome<S>, d: seq<Byte>, writeOut: bool) {
    writeOut && r.ok ==> |r.output| == |d|
  }

  /** What is asked of a callback: nothing when it fails, and for whole calls only about block multiples. */
  ghost predicate Sized<S(!new)>(f: Callback<S>, final: bool, writeOut: bool, blockSize: nat)
    requires blockSize > 0
  {
    forall s, d :: final || IsBlocks(d, blockSize) ==> WritesBack(f(s, d), d, writeOut)
  }

  /** Continue with `f` on `d` unless already stopped. */
  function Then<S>(r: Outcome<S>, f: Callback<S>, d: seq<Byte>): Outcome<S> {
    if !r.ok then r
    else var t := f(r.state, d); Outcome(t.ok, t.state, r.output + t.output)
  }

  function RunCalls<S>(s: S, calls: seq<Call>, whole: Callback<S>, fin: Callback<S>): Outcome<S> {
    if calls == [] then Outcome(true, s, [])
    else
      var before, last := RunCalls(s, calls[..|calls| - 1], whole, fin), calls[|calls| - 1];
      if last.final then Then(before, fin, last.data) else Then(before, whole, last.data)
  }

  /** All bytes presented by the calls, in order. */
  function Presented(calls: seq<Call>): seq<Byte> {
    if calls == [] then [] else Presented(calls[..|calls| - 1]) + calls[|calls| - 1].data
  }

  predicate IsBlocks(d: seq<Byte>, blockSize: nat)
    requires blockSize > 0
  {
    |d| > 0 && |d| % blockSize == 0
  }

  /** Whole-block calls only, each a positive multiple of the block size that leaves input over. */
  ghost predicate WholeCalls(calls: seq<Call>, data: seq<Byte>, blockSize: nat)
    requires blockSize > 0
  {
    && Presented(calls) <= data
    && (calls != [] ==> |Presented(calls)| < |data|)
    && forall i :: 0 <= i < |calls| ==> !calls[i].final && IsBlocks(calls[i].data, blockSize)
  }

  /**
   A walk over `data`: every call but the last is a whole-block call that succeeded. A completed walk
   ends with its one final call and has presented exactly `data`; a stopped walk ends with the
   call that failed.
   */
  ghost predicate IsWalk<S>(calls: seq<Call>, data: seq<Byte>, blockSize: nat, s: S, whole: Callback<S>,
                            fin: Callback<S>, r: Outcome<S>)
    requires blockSize > 0
  {
    && calls != []
    && var before, last := calls[..|calls| - 1], calls[|calls| - 1];
    && WholeCalls(before, data, blockSize)
    && RunCalls(s, before, whole, fin).ok
    && r == RunCalls(s, calls, whole, fin)
    && (last.final ==> Presented(calls) == data && (last.data != [] <==> data != []))
    && (!last.final ==> !r.ok && WholeCalls(calls, data, blockSize))
  }

  /** Two outcomes agree: both stopped, or both ran to the end with equal state and output. */
  predicate Agree<S(==)>(r: Outcome<S>, t: Outcome<S>) {
    r.ok == t.ok && (r.ok ==> r == t)
  }

  /** The callbacks' composition law: peeling whole blocks off the front of a final call changes nothing. */
  ghost predicate Composes<S(!new)>(whole: Callback<S>, fin: Callback<S>, blockSize: nat)
    requires blockSize > 0
  {
    forall s, a, b :: IsBlocks(a, blockSize) && b != [] ==> Agree(fin(s, a + b), Then(whole(s, a), fin, b))
  }

  lemma {:induction false} PresentedPrefix(calls: seq<Call>, i: nat)
    requires i <= |calls|
    ensures Presented(calls[..i]) <= Presented(calls)
  {
    if i < |calls| {
      PresentedPrefix(calls[..|calls| - 1], i);
      assert calls[..|calls| - 1][..i] == calls[..i];
    } else {
      assert calls[..i] == calls;
    }
  }

  /** After any number of whole calls, one final call on what is left agrees with one final call on everything. */
  lemma {:induction false} WholeCallsThenFinal<S(!new)>(calls: seq<Call>, data: seq<Byte>, blockSize: nat, s: S,
                                                       whole: Callback<S>, fin: Callback<S>)
    requires blockSize > 0 && Composes(whole, fin, blockSize)
    requires WholeCalls(calls, data, blockSize)
    ensures Agree(fin(s, data), Then(RunCalls(s, calls, whole, fin), fin, data[|Presented(calls)|..]))
  {
    if calls == [] {
      assert data[0..] == data;
      var r := fin(s, data);
      assert [] + r.output == r.output;
    } else {
      var before, last := calls[..|calls| - 1], calls[|calls| - 1];
      var left := data[|Presented(before)|..];
      var left' := data[|Presented(calls)|..];
      WholeCallsThenFinal(before, data, blockSize, s, whole, fin);
      assert left == last.data + left';
      var r := RunCalls(s, before, whole, fin);
      if r.ok {
        assert Agree(fin(r.state, last.data + left'), Then(whole(r.state, last.data), fin, left'));
        var w := whole(r.state, last.data);
        if w.ok {
          var f := fin(w.state, left');
          assert r.output + (w.output + f.output) == (r.output + w.output) + f.output;
        }
      }
    }
  }

  /** Any walk by composing callbacks amounts to one final call on the contiguous input. */
  lemma WalkIsOneFinalCall<S(!new)>(calls: seq<Call>, data: seq<Byte>, blockSize: nat, s: S, whole: Callback<S>,
                                    fin: Callback<S>, r: Outcome<S>)
    requires blockSize > 0 && Composes(whole, fin, blockSize)
    requires IsWalk(calls, data, blockSize, s, whole, fin, r)
    ensures Agree(r, fin(s, data))
  {
    var before, last := calls[..|calls| - 1], calls[|calls| - 1];
    if last.final {
      WholeCallsThenFinal(before, data, blockSize, s, whole, fin);
      assert last.data == data[|Presented(before)|..];
    } else {
      WholeCallsThenFinal(calls, data, blockSize, s, whole, fin);
    }
  }

  /** Chunking independence: two walks over the same bytes, however they were cut up, agree. */
  lemma ChunkingIndependence<S(!new)>(calls: seq<Call>, calls': seq<Call>, data: seq<Byte>, blockSize: nat, s: S,
                                      whole: Callback<S>, fin: Callback<S>, r: Outcome<S>, r': Outcome<S>)
    requires blockSize > 0 && Composes(whole, fin, blockSize)
    requires IsWalk(calls, data, blockSize, s, whole, fin, r)
    requires IsWalk(calls', data, blockSize, s, whole, fin, r')
    ensures Agree(r, r')
  {
    WalkIsOneFinalCall(calls, data, blockSize, s, whole, fin, r);
    WalkIsOneFinalCall(calls', data, blockSize, s, whole, fin, r');
  }

  // ---------------------------------------------------------------------------------------------
  // Memory effects
  // ---------------------------------------------------------------------------------------------

  predicate Distinct(addrs: seq<nat>) {
    forall p, q :: 0 <= p < q < |addrs| ==> addrs[p] != addrs[q]
  }

  /** Output bytes are written to distinct places, each either outside the input or on its own input byte. */
  predicate NonInterfering(ins: seq<nat>, outs: seq<nat>) {
    && Distinct(outs)
    && forall p, q :: 0 <= p < |outs| && 0 <= q < |ins| && outs[p] == ins[q] ==> p == q
  }

  /** `m'` is `m` with `bytes` stored at `addrs` and nothing else changed. */
  ghost predicate Stored(m: seq<Byte>, m': seq<Byte>, addrs: seq<nat>, bytes: seq<Byte>) {
    && |m'| == |m| && |addrs| == |bytes| && InBounds(addrs, |m|)
    && (forall k :: 0 <= k < |addrs| ==> m'[addrs[k]] == bytes[k])
    && (forall a :: 0 <= a < |m| && a !in addrs ==> m'[a] == m[a])
  }

  lemma StoredAppend(m: seq<Byte>, m': seq<Byte>, m'': seq<Byte>, a: seq<nat>, b: seq<nat>, x: seq<Byte>, y: seq<Byte>)
    requires Stored(m, m', a, x) && Stored(m', m'', b, y)
    requires Distinct(a + b)
    ensures Stored(m, m'', a + b, x + y)
  {
    forall k | 0 <= k < |a + b|
      ensures (a + b)[k] < |m| && m''[(a + b)[k]] == (x + y)[k]
    {
      if k < |a| {
        assert (a + b)[k] == a[k];
        forall j | 0 <= j < |b| ensures b[j] != a[k] { assert (a + b)[|a| + j] == b[j]; }
      } else {
        assert (a + b)[k] == b[k - |a|];
      }
    }
    forall c | 0 <= c < |m| && c !in a + b
      ensures m''[c] == m[c]
    {
      assert c !in a && c !in b;
    }
  }

  lemma StoredNothing(m: seq<Byte>, addrs: seq<nat>)
    ensures Stored(m, m, addrs[..0], [])
  {
  }

  /** Storing `y` at the next stretch of `addrs` carries on a store of `x` at the first stretch. */
  lemma StoredExtend(m: seq<Byte>, m': seq<Byte>, m'': seq<Byte>, addrs: seq<nat>, mid: nat, end: nat,
                     x: seq<Byte>, y: seq<Byte>)
    requires mid <= end <= |addrs| && Distinct(addrs)
    requires Stored(m, m', addrs[..mid], x) && Stored(m', m'', addrs[mid..end], y)
    ensures Stored(m, m'', addrs[..end], x + y)
  {
    assert addrs[..mid] + addrs[mid..end] == addrs[..end];
    StoredAppend(m, m', m'', addrs[..mid], addrs[mid..end], x, y);
  }

  /** Input bytes not yet reached are still the original ones. */
  lemma InputIntact(m: seq<Byte>, m': seq<Byte>, ins: seq<nat>, outs: seq<nat>, pos: nat, bytes: seq<Byte>)
    requires |ins| == |outs| && pos <= |ins| && InBounds(ins, |m|) && NonInterfering(ins, outs)
    requires Stored(m, m', outs[..pos], bytes)
    ensures Gather(m', ins)[pos..] == Gather(m, ins)[pos..]
  {
    assert forall q :: pos <= q < |ins| ==> ins[q] !in outs[..pos];
  }

  /** Write `bytes` at `base`. */
  method StoreSpan(mem: array<Byte>, base: nat, bytes: seq<Byte>)
    requires base + |bytes| <= mem.Length || bytes == []
    modifies mem
    ensures Stored(old(mem[..]), mem[..], Span(base, |bytes|), bytes)
  {
    forall k | 0 <= k < |bytes| {
      mem[base + k] := bytes[k];
    }
    ghost var addrs := Span(base, |bytes|);
    forall a | 0 <= a < mem.Length && mem[a] != old(mem[a])
      ensures a in addrs
    {
      assert addrs[a - base] == a;
    }
  }

  /** Where the head chunk lies among the addresses `all` whose part from `done` on is left. */
  lemma HeadAmong(head: IoVec, rest: seq<IoVec>, all: seq<nat>, done: nat, n: nat, size: nat)
    requires done <= |all| && Remaining(head, rest, Out) == all[done..] && n <= head.len && InBounds(all, size)
    ensures done + head.len + SumLen(rest) == |all|
    ensures all[done..done + n] == Span(head.out, n) && (n > 0 ==> head.out + n <= size)
    ensures rest != [] ==> Remaining(rest[0], rest[1..], Out) == all[done + head.len..]
  {
    assert |Remaining(head, rest, Out)| == |all| - done;
    assert Remaining(head, rest, Out)[..n] == all[done..done + n];
    if n > 0 {
      assert all[done + (n - 1)] == all[done..done + n][n - 1] == head.out + n - 1;
    }
    if rest != [] {
      assert Remaining(rest[0], rest[1..], Out) == Remaining(head, rest, Out)[head.len..];
    }
  }

  /** Scatter `bytes` over the output side of the chunks from `head` on. */
  method CopySpanToIOVec(mem: array<Byte>, bytes: seq<Byte>, head: IoVec, rest: seq<IoVec>)
    requires |bytes| <= |Remaining(head, rest, Out)|
    requires InBounds(Remaining(head, rest, Out), mem.Length) && Distinct(Remaining(head, rest, Out))
    modifies mem
    ensures Stored(old(mem[..]), mem[..], Remaining(head, rest, Out)[..|bytes|], bytes)
  {
    hide Stored;
    hide InBounds;
    hide Distinct;
    hide Addrs;
    ghost var all, m0 := Remaining(head, rest, Out), mem[..];
    StoredNothing(m0, all);
    assert bytes[..0] == [] && bytes[0..] == bytes && all[0..] == all;
    var out, h, r := bytes, head, rest;
    ghost var done := 0;
    hide Remaining;
    while true
      invariant done <= |bytes| <= |all| && out == bytes[done..]
      invariant Remaining(h, r, Out) == all[done..]
      invariant Stored(m0, mem[..], all[..done], bytes[..done])
      decreases |r|
    {
      var toCopy := if h.len < |out| then h.len else |out|;
      ghost var m, end := mem[..], done + toCopy;
      HeadAmong(h, r, all, done, toCopy, mem.Length);
      StoreSpan(mem, h.out, out[..toCopy]);
      assert out[..toCopy] == bytes[done..end];
      StoredExtend(m0, m, mem[..], all, done, end, bytes[..done], bytes[done..end]);
      SliceAppend(bytes, 0, done, end);
      done := end;
      out := out[toCopy..];
      if out == [] {
        break;
      }
      h, r := r[0], r[1..];
    }
    assert bytes[..done] == bytes;
  }

  // ---------------------------------------------------------------------------------------------
  // The walk
  // ---------------------------------------------------------------------------------------------

  /** The list position (head, rest) still has input: the last chunk, which is not empty, is not used up. */
  predicate EndsNonEmpty(head: IoVec, rest: seq<IoVec>) {
    if rest == [] then head.len > 0 else rest[|rest| - 1].len > 0
  }

  lemma EndsNonEmptyNext(head: IoVec, rest: seq<IoVec>)
    requires EndsNonEmpty(head, rest) && rest != []
    ensures EndsNonEmpty(rest[0], rest[1..])
  {
  }

  lemma {:induction false} LastChunkCounts(rest: seq<IoVec>)
    requires rest != []
    ensures SumLen(rest) >= rest[|rest| - 1].len
  {
    if |rest| > 1 {
      LastChunkCounts(rest[1..]);
    }
  }

  /** One call has been made and its output, if there is any, stored at `addrs`. */
  ghost predicate Emitted(m: seq<Byte>, m': seq<Byte>, writeOut: bool, addrs: seq<nat>, output: seq<Byte>) {
    if writeOut then Stored(m, m', addrs, output) else m' == m
  }

  /** Nothing but the given places has changed. */
  ghost predicate OnlyAt(m: seq<Byte>, m': seq<Byte>, addrs: seq<nat>) {
    |m'| == |m| && forall a :: 0 <= a < |m| && a !in addrs ==> m'[a] == m[a]
  }

  /** What a call that may write to `addrs` leaves: its output if it succeeded, anything there if it failed. */
  ghost predicate Left<S>(m: seq<Byte>, m': seq<Byte>, writeOut: bool, addrs: seq<nat>, r: Outcome<S>) {
    if writeOut && !r.ok then OnlyAt(m, m', addrs) else Emitted(m, m', writeOut, addrs, r.output)
  }

  /** What a walk is about: memory and addresses on entry, the block size, and the callbacks. */
  datatype Job<!S(!new)> = Job(m0: seq<Byte>, ins: seq<nat>, outs: seq<nat>, writeOut: bool, blockSize: nat, s0: S,
                               whole: Callback<S>, fin: Callback<S>) {
    ghost predicate Valid() {
      && blockSize > 0 && InBounds(ins, |m0|) && |outs| == |ins|
      && (writeOut ==> InBounds(outs, |m0|) && NonInterfering(ins, outs))
    }

    /** The input as it was on entry. */
    ghost function Data(): seq<Byte>
      requires Valid()
    {
      Gather(m0, ins)
    }

    /** The walk so far: whole calls over the input before `pos`, their output stored, the rest intact. */
    ghost predicate Progress(m: seq<Byte>, calls: seq<Call>, s: S, output: seq<Byte>, pos: nat)
      requires Valid()
    {
      && |m| == |m0| && pos == |Presented(calls)|
      && WholeCalls(calls, Data(), blockSize)
      && RunCalls(s0, calls, whole, fin) == Outcome(true, s, output)
      && Gather(m, ins)[pos..] == Data()[pos..]
      && Emitted(m0, m, writeOut, outs[..pos], output)
    }

    /** Nothing outside the output regions has changed. */
    ghost predicate Framed(m: seq<Byte>) {
      && |m| == |m0|
      && (forall a :: 0 <= a < |m0| && a !in outs ==> m[a] == m0[a])
      && (!writeOut ==> m == m0)
    }

    /** The walk is over, with outcome `r`. */
    ghost predicate Finished(m: seq<Byte>, calls: seq<Call>, r: Outcome<S>)
      requires Valid()
    {
      && IsWalk(calls, Data(), blockSize, s0, whole, fin, r)
      && (r.ok ==> Emitted(m0, m, writeOut, outs, r.output))
      && Framed(m)
    }

    lemma Start()
      requires Valid()
      ensures Progress(m0, [], s0, [], 0)
    {
    }

    /** What a walk in progress finds ahead: memory of the same size, the input from `pos` on untouched. */
    lemma Ahead(m: seq<Byte>, calls: seq<Call>, s: S, output: seq<Byte>, pos: nat, n: nat)
      requires Valid() && Progress(m, calls, s, output, pos) && pos + n <= |ins|
      ensures blockSize > 0 && |outs| == |ins| && |m| == |m0|
      ensures InBounds(ins, |m|) && (writeOut ==> InBounds(outs, |m|))
      ensures Gather(m, ins)[pos..pos + n] == Data()[pos..pos + n]
    {
      assert Gather(m, ins)[pos..pos + n] == Gather(m, ins)[pos..][..n];
      assert Data()[pos..pos + n] == Data()[pos..][..n];
    }

    /** What a call on the next `n` input bytes does to memory. */
    lemma MemoryAfter(m: seq<Byte>, m': seq<Byte>, calls: seq<Call>, s: S, output: seq<Byte>, pos: nat, n: nat,
                      r: Outcome<S>)
      requires Valid() && Progress(m, calls, s, output, pos) && pos + n <= |ins|
      requires Left(m, m', writeOut, outs[pos..pos + n], r)
      ensures Framed(m')
      ensures r.ok ==>
        && Gather(m', ins)[pos + n..] == Data()[pos + n..]
        && Emitted(m0, m', writeOut, outs[..pos + n], output + r.output)
    {
      hide WholeCalls;
      hide RunCalls;
      hide Presented;
      hide Stored;
      if writeOut && r.ok {
        StoredExtend(m0, m, m', outs, pos, pos + n, output, r.output);
        StoredFrames(m', outs, pos + n, output + r.output);
        InputIntact(m0, m', ins, outs, pos + n, output + r.output);
      } else if writeOut {
        StoredFrames(m, outs, pos, output);
        FramedOn(m, m', pos, pos + n);
      } else {
        SliceLater(Gather(m, ins), Data(), pos, n);
      }
    }

    /** A call on the next input bytes: a successful whole call carries the walk on, any other ends it. */
    lemma OneMoreCall(m: seq<Byte>, m': seq<Byte>, calls: seq<Call>, s: S, output: seq<Byte>, pos: nat, c: Call,
                      r: Outcome<S>)
      requires Valid() && Progress(m, calls, s, output, pos)
      requires pos + |c.data| <= |ins| && c.data == Gather(m, ins)[pos..pos + |c.data|]
      requires if c.final then pos + |c.data| == |ins| && (c.data == [] ==> ins == [])
               else IsBlocks(c.data, blockSize) && pos + |c.data| < |ins|
      requires r == if c.final then fin(s, c.data) else whole(s, c.data)
      requires Left(m, m', writeOut, outs[pos..pos + |c.data|], r)
      ensures r.ok && !c.final ==> Progress(m', calls + [c], r.state, output + r.output, pos + |c.data|)
      ensures !r.ok || c.final ==> Finished(m', calls + [c], Outcome(r.ok, r.state, output + r.output))
    {
      hide NonInterfering;
      hide Distinct;
      hide IsBlocks;
      var end := pos + |c.data|;
      MemoryAfter(m, m', calls, s, output, pos, |c.data|, r);
      Ahead(m, calls, s, output, pos, |c.data|);
      assert Framed(m') ==> |m'| == |m0|;
      hide Stored;
      hide Emitted;
      hide Left;
      hide Framed;
      RunOneMore(s0, calls, c, whole, fin);
      CallsAfter(calls, c, Data(), blockSize);
      hide Gather;
      hide InBounds;
      hide RunCalls;
      hide Presented;
      hide WholeCalls;
      assert Data()[..|ins|] == Data() && outs[..|ins|] == outs;
      if r.ok && !c.final {
        hide IsWalk;
      } else {
        LastOfWalk(calls, c, output, r, end);
        hide IsWalk;
      }
    }

    /** The last call of a walk: the one final call, on all that was left, or the one that failed. */
    lemma LastOfWalk(calls: seq<Call>, c: Call, output: seq<Byte>, r: Outcome<S>, end: nat)
      requires Valid() && WholeCalls(calls, Data(), blockSize) && RunCalls(s0, calls, whole, fin).ok
      requires end <= |ins| && Presented(calls + [c]) == Data()[..end] && (!r.ok || c.final)
      requires RunCalls(s0, calls + [c], whole, fin) == Outcome(r.ok, r.state, output + r.output)
      requires if c.final then end == |ins| && (c.data == [] <==> ins == [])
               else WholeCalls(calls + [c], Data(), blockSize)
      ensures IsWalk(calls + [c], Data(), blockSize, s0, whole, fin, Outcome(r.ok, r.state, output + r.output))
    {
      hide RunCalls;
      hide WholeCalls;
      hide Presented;
      hide Gather;
      assert (calls + [c])[..|calls|] == calls && |Data()| == |ins|;
    }

    lemma FramedOn(m: seq<Byte>, m': seq<Byte>, pos: nat, end: nat)
      requires Framed(m) && writeOut && pos <= end <= |outs| && OnlyAt(m, m', outs[pos..end])
      ensures Framed(m')
    {
      assert forall a :: a in outs[pos..end] ==> a in outs;
    }

    lemma StoredFrames(m: seq<Byte>, addrs: seq<nat>, pos: nat, output: seq<Byte>)
      requires pos <= |addrs| && addrs == outs && writeOut && Stored(m0, m, addrs[..pos], output)
      ensures Framed(m)
    {
      assert forall a :: a in addrs[..pos] ==> a in addrs;
    }
  }

  lemma SliceLater<T>(a: seq<T>, b: seq<T>, pos: nat, n: nat)
    requires pos + n <= |a| == |b| && a[pos..] == b[pos..]
    ensures a[pos + n..] == b[pos + n..]
  {
    assert a[pos + n..] == a[pos..][n..] && b[pos + n..] == b[pos..][n..];
  }

  /** What has been presented with one more call, the next bytes of the input. */
  lemma CallsAfter(calls: seq<Call>, c: Call, data: seq<Byte>, blockSize: nat)
    requires blockSize > 0 && WholeCalls(calls, data, blockSize)
    requires |Presented(calls)| + |c.data| <= |data|
    requires c.data == data[|Presented(calls)|..|Presented(calls)| + |c.data|]
    ensures Presented(calls + [c]) == data[..|Presented(calls)| + |c.data|]
    ensures !c.final && IsBlocks(c.data, blockSize) && |Presented(calls + [c])| < |data| ==>
      WholeCalls(calls + [c], data, blockSize)
  {
    assert (calls + [c])[..|calls|] == calls;
    SliceAppend(data, 0, |Presented(calls)|, |Presented(calls)| + |c.data|);
    assert Presented(calls) == data[0..|Presented(calls)|];
  }

  lemma RunOneMore<S>(s0: S, calls: seq<Call>, c: Call, whole: Callback<S>, fin: Callback<S>)
    ensures var r := RunCalls(s0, calls, whole, fin);
      RunCalls(s0, calls + [c], whole, fin) == if c.final then Then(r, fin, c.data) else Then(r, whole, c.data)
    ensures Presented(calls + [c]) == Presented(calls) + c.data
  {
    assert (calls + [c])[..|calls|] == calls;
  }

  lemma StoredOnly(m: seq<Byte>, m': seq<Byte>, base: nat, len: nat, bytes: seq<Byte>)
    requires |bytes| <= len && Stored(m, m', Span(base, |bytes|), bytes)
    ensures OnlyAt(m, m', Span(base, len))
  {
    forall a | a in Span(base, |bytes|)
      ensures a in Span(base, len)
    {
      assert Span(base, len)[a - base] == a;
    }
  }

  /** Hand the first `len` bytes of a chunk to a callback where they lie. */
  method CallOnChunk<S(!new)>(mem: array<Byte>, f: Callback<S>, s: S, chunk: IoVec, writeOut: bool)
    returns (r: Outcome<S>)
    requires InBounds(Span(chunk.inp, chunk.len), mem.Length)
    requires var d := Gather(mem[..], Span(chunk.inp, chunk.len)); WritesBack(f(s, d), d, writeOut)
    requires writeOut ==> InBounds(Span(chunk.out, chunk.len), mem.Length)
    modifies mem
    ensures r == f(s, Gather(old(mem[..]), Span(chunk.inp, chunk.len)))
    ensures Left(old(mem[..]), mem[..], writeOut, Span(chunk.out, chunk.len), r)
  {
    if chunk.len == 0 {
      r := f(s, []);
      assert Gather(mem[..], Span(chunk.inp, 0)) == [];
    } else {
      assert Span(chunk.inp, chunk.len)[chunk.len - 1] == chunk.inp + chunk.len - 1;
      assert mem[chunk.inp..chunk.inp + chunk.len] == Gather(mem[..], Span(chunk.inp, chunk.len));
      r := f(s, mem[chunk.inp..chunk.inp + chunk.len]);
      if writeOut {
        assert Span(chunk.out, chunk.len)[chunk.len - 1] == chunk.out + chunk.len - 1;
        // What a failed call has written is not determined; it had the chunk's output range to write to.
        var written := if |r.output| <= chunk.len then r.output else r.output[..chunk.len];
        ghost var m := mem[..];
        StoreSpan(mem, chunk.out, written);
        StoredOnly(m, mem[..], chunk.out, chunk.len, written);
      }
    }
  }

  /** The next `n` bytes of the front chunk extend a block holding input bytes [pos..end). */
  lemma AppendPrefix(m: seq<Byte>, block: seq<Byte>, head: IoVec, rest: seq<IoVec>, n: nat, ins: seq<nat>,
                     outs: seq<nat>, pos: nat, end: nat, data: seq<Byte>)
    requires 0 < n <= head.len && At(head, rest, ins, outs, end)
    requires InBounds(ins, |m|) && data == Gather(m, ins)
    requires pos <= end && block == data[pos..end]
    ensures end + n <= |ins| && head.inp + n <= |m|
    ensures block + m[head.inp..head.inp + n] == data[pos..end + n]
  {
    AtDropPrefix(head, rest, ins, outs, end, n);
    assert ins[end + (n - 1)] == ins[end..end + n][n - 1] == head.inp + n - 1;
    assert m[head.inp..head.inp + n] == data[end..end + n];
    SliceAppend(data, pos, end, end + n);
  }

  /**
   Assemble one block from the chunks at (head, rest), looking ahead past chunk ends and empty chunks.
   Either the input runs out first (`atEnd`: the block is everything that was left, at most one block),
   or the block is full and at least one byte is left behind it.
   */
  method CollectBlock(mem: array<Byte>, head: IoVec, rest: seq<IoVec>, blockSize: nat,
                      ghost ins: seq<nat>, ghost outs: seq<nat>, ghost pos: nat, ghost data: seq<Byte>)
    returns (block: seq<Byte>, head': IoVec, rest': seq<IoVec>, atEnd: bool)
    requires 0 < head.len < blockSize && rest != [] && EndsNonEmpty(head, rest)
    requires InBounds(ins, mem.Length) && data == Gather(mem[..], ins) && At(head, rest, ins, outs, pos)
    ensures 0 < |block| <= blockSize && pos + |block| <= |ins|
    ensures block == data[pos..pos + |block|]
    ensures atEnd ==> pos + |block| == |ins|
    ensures !atEnd ==> |block| == blockSize && pos + blockSize < |ins|
    ensures !atEnd ==> EndsNonEmpty(head', rest') && |rest'| < |rest|
    ensures !atEnd ==> At(head', rest', ins, outs, pos + blockSize)
  {
    hide At;
    hide Gather;
    hide InBounds;
    AtLength(head, rest, ins, outs, pos);
    block, head', rest', atEnd := [], head, rest, false;
    ghost var m, end := mem[..], pos;
    while |block| <= blockSize
      invariant |block| <= blockSize && pos <= end <= |ins| && |block| == end - pos
      invariant block == data[pos..end]
      invariant At(head', rest', ins, outs, end)
      invariant EndsNonEmpty(head', rest')
      invariant if end == pos then head' == head && rest' == rest else |rest'| < |rest|
      decreases |rest'|
    {
      var remaining := blockSize - |block|;
      var take := if remaining < head'.len then remaining else head'.len;
      if take > 0 {
        AppendPrefix(m, block, head', rest', take, ins, outs, pos, end, data);
        block := block + mem[head'.inp..head'.inp + take];
      }
      AtDropPrefix(head', rest', ins, outs, end, take);
      end := end + take;
      AtLength(head'.DropPrefix(take), rest', ins, outs, end);
      if remaining < head'.len {
        head' := head'.DropPrefix(remaining);
        break;
      }
      if rest' == [] {
        atEnd := true;
        return;
      }
      AtNext(head'.DropPrefix(take), rest', ins, outs, end);
      EndsNonEmptyNext(head', rest');
      head', rest' := rest'[0], rest'[1..];
    }
    assert |block| == blockSize;
    assert head'.len != 0 || rest' != [];
    AtLength(head', rest', ins, outs, end);
  }

  /** Reading the output regions back gives what was stored there. */
  lemma StoredGathers(m: seq<Byte>, m': seq<Byte>, addrs: seq<nat>, bytes: seq<Byte>)
    requires Stored(m, m', addrs, bytes)
    ensures Gather(m', addrs) == bytes
  {
  }

  /** A chunk prefix lies in memory and reads as the next input bytes. */
  lemma ChunkIsNext(m: seq<Byte>, head: IoVec, rest: seq<IoVec>, ins: seq<nat>, outs: seq<nat>, pos: nat, n: nat)
    requires At(head, rest, ins, outs, pos) && n <= head.len && InBounds(ins, |m|)
    ensures pos + n <= |ins| && outs[pos..pos + n] == Span(head.out, n)
    ensures InBounds(Span(head.inp, n), |m|)
    ensures Gather(m, Span(head.inp, n)) == Gather(m, ins)[pos..pos + n]
    ensures InBounds(outs, |m|) ==> InBounds(Span(head.out, n), |m|)
    ensures At(head.DropPrefix(n), rest, ins, outs, pos + n)
  {
    AtDropPrefix(head, rest, ins, outs, pos, n);
  }

  /** Hand the next `n` input bytes, a prefix of the head chunk, to a callback where they lie. */
  method CallNext<S(!new)>(mem: array<Byte>, ghost job: Job<S>, final: bool, f: Callback<S>, s: S, head: IoVec, n: nat,
                           ghost rest: seq<IoVec>, writeOut: bool, ghost calls: seq<Call>, ghost output: seq<Byte>,
                           ghost pos: nat)
    returns (r: Outcome<S>)
    requires job.Valid() && writeOut == job.writeOut && job.Progress(mem[..], calls, s, output, pos)
    requires At(head, rest, job.ins, job.outs, pos)
    requires f == (if final then job.fin else job.whole) && Sized(f, final, writeOut, job.blockSize)
    requires if final then n == head.len > 0 && rest == []
             else 0 < n <= head.len && n % job.blockSize == 0 && EndsNonEmpty(head, rest) && rest != []
    modifies mem
    ensures pos + n <= |job.ins|
    ensures var c := Call(final, job.Data()[pos..pos + n]);
      && (r.ok && !final ==> job.Progress(mem[..], calls + [c], r.state, output + r.output, pos + n))
      && (!r.ok || final ==> job.Finished(mem[..], calls + [c], Outcome(r.ok, r.state, output + r.output)))
    ensures At(head.DropPrefix(n), rest, job.ins, job.outs, pos + n)
  {
    hide At;
    hide RunCalls;
    hide Job.Finished;
    hide Stored;
    ghost var m := mem[..];
    AtLength(head, rest, job.ins, job.outs, pos);
    if !final {
      LastChunkCounts(rest);
    }
    job.Ahead(m, calls, s, output, pos, n);
    hide Job.Progress;
    hide Job.Valid;
    hide Job.Data;
    hide InBounds;
    hide Emitted;
    ChunkIsNext(m, head, rest, job.ins, job.outs, pos, n);
    r := CallOnChunk(mem, f, s, head.(len := n), writeOut);
    hide Gather;
    ghost var d := Gather(m, job.ins)[pos..pos + n];
    job.OneMoreCall(m, mem[..], calls, s, output, pos, Call(final, d), r);
  }

  /** Hand an assembled block, the next input bytes, to a callback and scatter its output from `head` on. */
  method CallOnBlock<S(!new)>(mem: array<Byte>, ghost job: Job<S>, final: bool, f: Callback<S>, s: S, block: seq<Byte>,
                              head: IoVec, rest: seq<IoVec>, writeOut: bool, ghost calls: seq<Call>,
                              ghost output: seq<Byte>, ghost pos: nat)
    returns (r: Outcome<S>)
    requires job.Valid() && writeOut == job.writeOut && job.Progress(mem[..], calls, s, output, pos)
    requires At(head, rest, job.ins, job.outs, pos)
    requires f == (if final then job.fin else job.whole) && Sized(f, final, writeOut, job.blockSize)
    requires pos + |block| <= |job.ins| && block == Gather(mem[..], job.ins)[pos..pos + |block|]
    requires if final then pos + |block| == |job.ins| && block != []
             else |block| == job.blockSize && pos + |block| < |job.ins|
    modifies mem
    ensures var c := Call(final, block);
      && (r.ok && !final ==> job.Progress(mem[..], calls + [c], r.state, output + r.output, pos + |block|))
      && (!r.ok || final ==> job.Finished(mem[..], calls + [c], Outcome(r.ok, r.state, output + r.output)))
  {
    hide RunCalls;
    hide Job.Finished;
    hide Stored;
    ghost var m := mem[..];
    r := f(s, block);
    if r.ok && writeOut {
      assert Remaining(head, rest, Out) == job.outs[pos..];
      assert Remaining(head, rest, Out)[..|block|] == job.outs[pos..pos + |block|];
      CopySpanToIOVec(mem, r.output, head, rest);
    }
    job.OneMoreCall(m, mem[..], calls, s, output, pos, Call(final, block), r);
  }

  /** Rounding down to whole blocks. */
  lemma WholeBlocks(len: nat, blockSize: nat)
    requires blockSize > 0
    ensures var n := len / blockSize * blockSize; 0 <= n <= len < n + blockSize && n % blockSize == 0
  {
    Arithmetic.Multiple(len / blockSize * blockSize, blockSize, len / blockSize);
  }

  /**
   ForEachBlockRange over `ivecs`, with or without WriteOut. The callbacks are functions of their state
   and of the bytes they are handed; `outs` and `calls` record what they did. On every chunk list:
   - the calls form a walk over the concatenated input as it was on entry, also in place;
   - a completed WriteOut walk leaves the output regions, in order, holding the callbacks' outputs;
   - no byte outside the output regions changes;
   - composing callbacks give the result of one final call on the contiguous input.
   */
  method ForEachBlockRange<S(!new)>(mem: array<Byte>, ivecs: seq<IoVec>, blockSize: nat, writeOut: bool, s0: S,
                                    whole: Callback<S>, fin: Callback<S>)
    returns (ok: bool, s: S, ghost calls: seq<Call>, ghost output: seq<Byte>)
    requires blockSize > 0
    requires Sized(whole, false, writeOut, blockSize) && Sized(fin, true, writeOut, blockSize)
    requires InBounds(Addrs(ivecs, In), mem.Length)
    requires writeOut ==> InBounds(Addrs(ivecs, Out), mem.Length)
    requires writeOut ==> NonInterfering(Addrs(ivecs, In), Addrs(ivecs, Out))
    modifies mem
    ensures var data := Gather(old(mem[..]), Addrs(ivecs, In));
      && IsWalk(calls, data, blockSize, s0, whole, fin, Outcome(ok, s, output))
      && (Composes(whole, fin, blockSize) ==> Agree(Outcome(ok, s, output), fin(s0, data)))
    ensures ok && writeOut ==> Gather(mem[..], Addrs(ivecs, Out)) == output
    ensures forall a :: 0 <= a < mem.Length && a !in Addrs(ivecs, Out) ==> mem[a] == old(mem[a])
    ensures !writeOut ==> mem[..] == old(mem[..])
  {
    ghost var job := Job(mem[..], Addrs(ivecs, In), Addrs(ivecs, Out), writeOut, blockSize, s0, whole, fin);
    ok, s, calls, output := Walk(mem, ivecs, job, blockSize, writeOut, s0, whole, fin);
    ghost var r := Outcome(ok, s, output);
    if Composes(whole, fin, blockSize) {
      WalkIsOneFinalCall(calls, job.Data(), blockSize, s0, whole, fin, r);
    }
    if ok && writeOut {
      StoredGathers(job.m0, mem[..], job.outs, output);
    }
    assert forall a :: 0 <= a < mem.Length && a !in job.outs ==> mem[..][a] == job.m0[a];
  }

  /** The loops of ForEachBlockRange. */
  method Walk<S(!new)>(mem: array<Byte>, ivecs: seq<IoVec>, ghost job: Job<S>, blockSize: nat, writeOut: bool, s0: S,
                       whole: Callback<S>, fin: Callback<S>)
    returns (ok: bool, s: S, ghost calls: seq<Call>, ghost output: seq<Byte>)
    requires blockSize > 0 && Sized(whole, false, writeOut, blockSize) && Sized(fin, true, writeOut, blockSize)
    requires job == Job(mem[..], Addrs(ivecs, In), Addrs(ivecs, Out), writeOut, blockSize, s0, whole, fin)
    requires job.Valid()
    modifies mem
    ensures job.Finished(mem[..], calls, Outcome(ok, s, output))
  {
    hide At;
    hide RunCalls;
    hide Presented;
    hide Stored;
    hide Job.Progress;
    hide Job.Finished;
    hide Addrs;
    hide Gather;
    hide NonInterfering;
    calls, output, s := [], [], s0;

    var trimmed := ivecs;
    while trimmed != [] && trimmed[|trimmed| - 1].len == 0
      invariant Addrs(trimmed, In) == job.ins && Addrs(trimmed, Out) == job.outs
      invariant mem[..] == job.m0
    {
      AddrsDropLastEmpty(trimmed, In);
      AddrsDropLastEmpty(trimmed, Out);
      trimmed := trimmed[..|trimmed| - 1];
    }
    job.Start();
    if trimmed == [] {
      var r := CallOnChunk(mem, fin, s, IoVec(0, 0, 0), writeOut);
      assert job.outs[0..0] == [];
      job.OneMoreCall(job.m0, mem[..], calls, s, output, 0, Call(true, []), r);
      return r.ok, r.state, calls + [Call(true, [])], output + r.output;
    }

    var head, rest := trimmed[0], trimmed[1..];
    AtStart(trimmed);
    ghost var pos: nat := 0;
    while rest != []
      invariant job.Progress(mem[..], calls, s, output, pos)
      invariant At(head, rest, job.ins, job.outs, pos)
      invariant EndsNonEmpty(head, rest)
      decreases |rest|
    {
      // The whole blocks at the front of the head chunk need no copy.
      var wholeLen := head.len / blockSize * blockSize;
      WholeBlocks(head.len, blockSize);
      if wholeLen != 0 {
        var r := CallNext(mem, job, false, whole, s, head, wholeLen, rest, writeOut, calls, output, pos);
        s, calls, output := r.state, calls + [Call(false, job.Data()[pos..pos + wholeLen])], output + r.output;
        if !r.ok {
          return false, s, calls, output;
        }
        head, pos := head.DropPrefix(wholeLen), pos + wholeLen;
      }

      if head.len == 0 {
        AtNext(head, rest, job.ins, job.outs, pos);
        EndsNonEmptyNext(head, rest);
        head, rest := rest[0], rest[1..];
        continue;
      }

      // The next block straddles chunks, or the input ends inside it.
      var block, head', rest', atEnd :=
        CollectBlock(mem, head, rest, blockSize, job.ins, job.outs, pos, Gather(mem[..], job.ins));
      var r := CallOnBlock(mem, job, atEnd, if atEnd then fin else whole, s, block, head, rest, writeOut, calls, output,
                           pos);
      s, calls, output := r.state, calls + [Call(atEnd, block)], output + r.output;
      if !r.ok || atEnd {
        return r.ok, s, calls, output;
      }
      head, rest, pos := head', rest', pos + blockSize;
    }
    assert head.len != 0;
    var r := CallNext(mem, job, true, fin, s, head, head.len, [], writeOut, calls, output, pos);
    return r.ok, r.state, calls + [Call(true, job.Data()[pos..pos + head.len])], output + r.output;
  }

  /** In-place operation on distinct input bytes never interferes. */
  lemma InPlaceIsNonInterfering(v: seq<IoVec>)
    requires forall i :: 0 <= i < |v| ==> v[i].inp == v[i].out
    requires Distinct(Addrs(v, In))
    ensures NonInterfering(Addrs(v, In), Addrs(v, Out))
  {
    InPlaceAddrs(v);
    var a := Addrs(v, In);
    forall p, q | 0 <= p < |a| && 0 <= q < |a| && a[p] == a[q]
      ensures p == q
    {
      assert !(p < q) && !(q < p);
    }
  }

  lemma {:induction false} InPlaceAddrs(v: seq<IoVec>)
    requires forall i :: 0 <= i < |v| ==> v[i].inp == v[i].out
    ensures Addrs(v, In) == Addrs(v, Out)
  {
    if v != [] {
      InPlaceAddrs(v[1..]);
    }
  }

  // ---------------------------------------------------------------------------------------------
  // Lengths
  // ---------------------------------------------------------------------------------------------

  /** IsValid: at most `maxChunks` chunks whose lengths sum to at most SIZE_MAX. */
  method IsValid(ivecs: seq<IoVec>, maxChunks: nat) returns (valid: bool)
    ensures valid <==> |ivecs| <= maxChunks && SumLen(ivecs) <= SIZE_MAX
  {
    if |ivecs| > maxChunks {
      return false;
    }
    var allowed := SIZE_MAX;
    for i := 0 to |ivecs|
      invariant SumLen(ivecs[..i]) + allowed == SIZE_MAX && allowed >= 0
    {
      SumLenPrefix(ivecs, i);
      if ivecs[i].len > allowed {
        SumLenMonotone(ivecs, i + 1);
        return false;
      }
      allowed := allowed - ivecs[i].len;
    }
    assert ivecs[..|ivecs|] == ivecs;
    return true;
  }

  /** TotalLength adds in size_t arithmetic: the sum wraps around, and is exact on every valid list. */
  method TotalLength(ivecs: seq<IoVec>) returns (total: nat)
    requires forall i :: 0 <= i < |ivecs| ==> ivecs[i].len <= SIZE_MAX
    ensures total == SumLen(ivecs) % TWO_TO_THE_64
    ensures total == SumLen(ivecs) <==> SumLen(ivecs) <= SIZE_MAX
  {
    assert SumLen(ivecs[..0]) == 0;
    hide SumLen;
    total := 0;
    for i := 0 to |ivecs|
      invariant total == SumLen(ivecs[..i]) % TWO_TO_THE_64
    {
      SumLenPrefix(ivecs, i);
      WrapAdd(SumLen(ivecs[..i]), ivecs[i].len);
      total := (total + ivecs[i].len) % TWO_TO_THE_64;
    }
    assert ivecs[..|ivecs|] == ivecs;
    WrapExact(SumLen(ivecs));
  }

  lemma WrapAdd(a: nat, b: nat)
    ensures (a % TWO_TO_THE_64 + b) % TWO_TO_THE_64 == (a + b) % TWO_TO_THE_64
  {
  }

  lemma WrapExact(n: nat)
    ensures n % TWO_TO_THE_64 == n <==> n <= SIZE_MAX
  {
  }

  lemma {:induction false} SumLenAppend(a: seq<IoVec>, b: seq<IoVec>)
    ensures SumLen(a + b) == SumLen(a) + SumLen(b)
  {
    if a == [] {
      assert a + b == b;
    } else {
      assert (a + b)[1..] == a[1..] + b;
      SumLenAppend(a[1..], b);
    }
  }

  lemma SumLenPrefix(v: seq<IoVec>, i: nat)
    requires i < |v|
    ensures SumLen(v[..i + 1]) == SumLen(v[..i]) + v[i].len
  {
    assert v[..i + 1] == v[..i] + [v[i]];
    SumLenAppend(v[..i], [v[i]]);
    assert [v[i]][1..] == [] && SumLen([v[i]]) == v[i].len;
  }

  lemma SumLenMonotone(v: seq<IoVec>, i: nat)
    requires i <= |v|
    ensures SumLen(v[..i]) <= SumLen(v)
  {
    SumLenAppend(v[..i], v[i..]);
    assert v == v[..i] + v[i..];
  }

  // ---------------------------------------------------------------------------------------------
  // Taking a suffix off a chunk list
  // ---------------------------------------------------------------------------------------------

  /** Where GetAndRemoveSuffix found the bytes: nowhere, still inside one chunk, or copied to the buffer. */
  datatype Suffix = Missing | InChunk(base: nat) | InBuffer

  ghost predicate SameBases(v: seq<IoVec>, v': seq<IoVec>) {
    |v| == |v'| && forall i :: 0 <= i < |v| ==> v[i].inp == v'[i].inp && v[i].out == v'[i].out
  }

  ghost predicate EmptyFrom(v: seq<IoVec>, count: nat) {
    forall i :: count <= i < |v| ==> v[i].len == 0
  }

  lemma {:induction false} EmptyAddrs(v: seq<IoVec>, side: Side)
    requires EmptyFrom(v, 0)
    ensures Addrs(v, side) == []
  {
    if v != [] {
      EmptyAddrs(v[1..], side);
    }
  }

  /** Shortening the last non-empty chunk by `k` drops the last `k` addresses of the list. */
  lemma ShrinkLast(v: seq<IoVec>, i: nat, k: nat, side: Side)
    requires i < |v| && EmptyFrom(v, i + 1) && k <= v[i].len
    ensures var a, v' := Addrs(v, side), v[i := v[i].(len := v[i].len - k)];
      && |a| >= k && Addrs(v', side) == a[..|a| - k]
      && a[|a| - k..] == Span(v[i].Base(side) + v[i].len - k, k)
  {
    var c, v' := v[i], v[i := v[i].(len := v[i].len - k)];
    assert v == v[..i] + v[i..] && v' == v[..i] + v'[i..];
    AddrsAppend(v[..i], v[i..], side);
    AddrsAppend(v[..i], v'[i..], side);
    EmptyAddrs(v[i + 1..], side);
    assert v[i..][1..] == v[i + 1..] && v'[i..][1..] == v[i + 1..];
    assert Addrs(v[i..], side) == Span(c.Base(side), c.len);
    assert Addrs(v'[i..], side) == Span(c.Base(side), c.len - k);
  }

  /** `v` is the list `v0` with its last `n` bytes taken off; the chunks from `count` on are used up. */
  ghost predicate Taken(v0: seq<IoVec>, v: seq<IoVec>, count: nat, n: nat) {
    && SameBases(v0, v) && EmptyFrom(v, count) && count <= |v|
    && n <= SumLen(v0)
    && Addrs(v, In) == Addrs(v0, In)[..SumLen(v0) - n]
    && Addrs(v, Out) == Addrs(v0, Out)[..SumLen(v0) - n]
  }

  lemma TakenNothing(v: seq<IoVec>, count: nat)
    requires EmptyFrom(v, count) && count <= |v|
    ensures Taken(v, v, count, 0)
    ensures count == 0 ==> SumLen(v) == 0
  {
    if count == 0 {
      EmptyAddrs(v, In);
    }
  }

  lemma TakenMore(v0: seq<IoVec>, v: seq<IoVec>, count: nat, n: nat, k: nat)
    requires Taken(v0, v, count, n) && count > 0 && k <= v[count - 1].len
    ensures var c := v[count - 1]; var v' := v[count - 1 := c.(len := c.len - k)];
      && Taken(v0, v', count, n + k)
      && (k == c.len ==> Taken(v0, v', count - 1, n + k))
      && (k == c.len && count == 1 ==> SumLen(v0) == n + k)
      && Addrs(v0, In)[SumLen(v0) - (n + k)..SumLen(v0) - n] == Span(c.inp + c.len - k, k)
  {
    hide Addrs;
    hide SumLen;
    TakenSide(v0, v, count - 1, n, k, In);
    TakenSide(v0, v, count - 1, n, k, Out);
    hide Span;
    var c := v[count - 1];
    var v' := v[count - 1 := c.(len := c.len - k)];
    if k == c.len && count == 1 {
      EmptyAddrs(v', In);
    }
  }

  /** On one side: the addresses that go are the last ones of what was left. */
  lemma TakenSide(v0: seq<IoVec>, v: seq<IoVec>, i: nat, n: nat, k: nat, side: Side)
    requires i < |v| && EmptyFrom(v, i + 1) && k <= v[i].len && n <= SumLen(v0)
    requires Addrs(v, side) == Addrs(v0, side)[..SumLen(v0) - n]
    ensures n + k <= SumLen(v0)
    ensures Addrs(v[i := v[i].(len := v[i].len - k)], side) == Addrs(v0, side)[..SumLen(v0) - (n + k)]
    ensures Addrs(v0, side)[SumLen(v0) - (n + k)..SumLen(v0) - n] == Span(v[i].Base(side) + v[i].len - k, k)
  {
    hide Addrs;
    hide SumLen;
    ShrinkLast(v, i, k, side);
    hide EmptyFrom;
    hide Span;
    SlicePrefix(Addrs(v0, side), SumLen(v0) - n - k, SumLen(v0) - n);
  }

  /** Copy `k` bytes of a chunk in front of the part of the buffer that is filled already. */
  method CopyToSuffix(mem: array<Byte>, base: nat, k: nat, suffixBuf: array<Byte>, remaining: nat,
                      ghost data: seq<Byte>, ghost ins: seq<nat>, ghost taken: nat)
    requires mem != suffixBuf && k <= remaining <= suffixBuf.Length
    requires InBounds(ins, mem.Length) && data == Gather(mem[..], ins)
    requires taken + k <= |ins| && ins[|ins| - (taken + k)..|ins| - taken] == Span(base, k)
    requires suffixBuf[remaining..] == data[|data| - taken..]
    modifies suffixBuf
    ensures suffixBuf[remaining - k..] == data[|data| - (taken + k)..]
  {
    hide Gather;
    hide InBounds;
    ghost var lo, hi, before := |ins| - (taken + k), |ins| - taken, suffixBuf[..];
    SpanReads(mem[..], base, k, ins, lo, data);
    var piece := if k == 0 then [] else mem[base..base + k];
    CopyBytes(suffixBuf, remaining - k, piece);
    assert before[remaining..] == suffixBuf[..][remaining..];
    SuffixGrows(before, suffixBuf[..], remaining - k, piece, data, lo, hi);
  }

  method CopyBytes(dst: array<Byte>, at: nat, bytes: seq<Byte>)
    requires at + |bytes| <= dst.Length
    modifies dst
    ensures dst[..] == old(dst[..at]) + bytes + old(dst[at + |bytes|..])
  {
    forall i | 0 <= i < |bytes| {
      dst[at + i] := bytes[i];
    }
  }

  lemma SuffixGrows(b: seq<Byte>, b': seq<Byte>, at: nat, piece: seq<Byte>, data: seq<Byte>, lo: nat, hi: nat)
    requires at + |piece| <= |b| && b' == b[..at] + piece + b[at + |piece|..]
    requires lo <= hi <= |data| && b[at + |piece|..] == data[hi..] && piece == data[lo..hi]
    ensures b'[at..] == data[lo..]
  {
    assert b'[at..] == piece + b[at + |piece|..];
    SliceAppend(data, lo, hi, |data|);
  }

  lemma SpanReads(m: seq<Byte>, base: nat, k: nat, ins: seq<nat>, lo: nat, data: seq<Byte>)
    requires InBounds(ins, |m|) && data == Gather(m, ins)
    requires lo + k <= |ins| && ins[lo..lo + k] == Span(base, k)
    ensures k > 0 ==> base + k <= |m| && m[base..base + k] == data[lo..lo + k]
  {
    if k > 0 {
      assert ins[lo + (k - 1)] == ins[lo..lo + k][k - 1] == base + k - 1;
      var a, b := m[base..base + k], data[lo..lo + k];
      forall i | 0 <= i < k
        ensures a[i] == b[i]
      {
        assert ins[lo + i] == ins[lo..lo + k][i];
      }
    }
  }

  /** The collecting path: fill the buffer from its end while trimming chunks from the back. */
  method CollectSuffix(mem: array<Byte>, suffixBuf: array<Byte>, ivecs: array<IoVec>, start: nat) returns (found: bool)
    requires mem != suffixBuf && InBounds(Addrs(ivecs[..], In), mem.Length) && suffixBuf.Length > 0
    requires Taken(ivecs[..], ivecs[..], start, 0) && start > 0
    modifies suffixBuf, ivecs
    ensures found ==> Taken(old(ivecs[..]), ivecs[..], ivecs.Length, suffixBuf.Length)
    ensures found ==>
      suffixBuf[..] == Gather(mem[..], Addrs(old(ivecs[..]), In))[SumLen(old(ivecs[..])) - suffixBuf.Length..]
    ensures !found ==> Taken(old(ivecs[..]), ivecs[..], 0, SumLen(old(ivecs[..])))
    ensures !found ==> SumLen(old(ivecs[..])) < suffixBuf.Length
  {
    hide Addrs;
    hide SumLen;
    hide Gather;
    ghost var v0, ins := ivecs[..], Addrs(ivecs[..], In);
    ghost var data := Gather(mem[..], ins);
    var n, count := suffixBuf.Length, start;
    var remaining: nat := n;
    while count > 0
      invariant 0 < remaining <= n && Taken(v0, ivecs[..], count, n - remaining)
      invariant suffixBuf[remaining..] == data[|data| - (n - remaining)..]
      invariant count == 0 ==> SumLen(v0) == n - remaining
    {
      var src := ivecs[count - 1];
      var k := if src.len >= remaining then remaining else src.len;
      TakenMore(v0, ivecs[..], count, n - remaining, k);
      CopyToSuffix(mem, src.inp + src.len - k, k, suffixBuf, remaining, data, ins, n - remaining);
      ivecs[count - 1] := src.(len := src.len - k);
      remaining := remaining - k;
      if remaining == 0 {
        return true;
      }
      count := count - 1;
    }
    return false;
  }

  /** The last non-empty chunk holds `n` bytes. */
  ghost predicate LastChunkHolds(v: seq<IoVec>, n: nat) {
    exists i :: 0 <= i < |v| && v[i].len >= n && EmptyFrom(v, i + 1)
  }

  /**
   GetAndRemoveSuffix: take the last `suffixBuf.Length` bytes off the list. It fails exactly when the
   list is too short, and then leaves every chunk empty; otherwise the list keeps its other bytes, in
   chunks that start where they did, and the bytes handed back are the ones removed. They are copied
   only when they do not lie in the last non-empty chunk.
   */
  method GetAndRemoveSuffix(mem: array<Byte>, suffixBuf: array<Byte>, ivecs: array<IoVec>) returns (r: Suffix)
    requires mem != suffixBuf && InBounds(Addrs(ivecs[..], In), mem.Length)
    modifies suffixBuf, ivecs
    ensures r.Missing? <==> SumLen(old(ivecs[..])) < suffixBuf.Length
    ensures r.Missing? ==> Taken(old(ivecs[..]), ivecs[..], 0, SumLen(old(ivecs[..])))
    ensures !r.Missing? ==> Taken(old(ivecs[..]), ivecs[..], ivecs.Length, suffixBuf.Length)
    ensures r.InChunk? <==> suffixBuf.Length > 0 && LastChunkHolds(old(ivecs[..]), suffixBuf.Length)
    ensures var ins, keep := Addrs(old(ivecs[..]), In), SumLen(old(ivecs[..])) - suffixBuf.Length;
      && (r.InBuffer? ==> suffixBuf[..] == Gather(mem[..], ins)[keep..])
      && (r.InChunk? ==> Span(r.base, suffixBuf.Length) == ins[keep..] && suffixBuf[..] == old(suffixBuf[..]))
  {
    hide Addrs;
    hide SumLen;
    hide Gather;
    ghost var v0 := ivecs[..];
    if suffixBuf.Length == 0 {
      TakenNothing(v0, ivecs.Length);
      return InBuffer;
    }
    var count: nat := ivecs.Length;
    while count > 0 && ivecs[count - 1].len == 0
      invariant count <= ivecs.Length && EmptyFrom(v0, count) && ivecs[..] == v0
    {
      count := count - 1;
    }
    TakenNothing(v0, count);
    if count == 0 {
      return Missing;
    }
    var n := suffixBuf.Length;
    if ivecs[count - 1].len >= n {
      TakenMore(v0, v0, count, 0, n);
      ivecs[count - 1] := ivecs[count - 1].(len := ivecs[count - 1].len - n);
      return InChunk(ivecs[count - 1].inp + ivecs[count - 1].len);
    }
    var found := CollectSuffix(mem, suffixBuf, ivecs, count);
    return if found then InBuffer else Missing;
  }
}
