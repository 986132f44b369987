/** Modes of operation that go block by block: callbacks that obey the composition law of the walk. */
module BlockModes {
  import opened Common
  import opened ScatterGather
  import Arithmetic

  /** Run `t`, which has happened already, and then `r` from the state it left. */
  function Glue<S>(t: Outcome<S>, r: Outcome<S>): Outcome<S> {
    Outcome(r.ok, r.state, t.output + r.output)
  }

  /** A mode of operation: `step` on each block of a whole-block range. */
  function EachBlock<S>(step: Callback<S>, blockSize: nat, s: S, d: seq<Byte>): Outcome<S>
    requires blockSize > 0
  {
    if |d| < blockSize then Outcome(true, s, [])
    else
      var t := step(s, d[..blockSize]);
      if !t.ok then t else Glue(t, EachBlock(step, blockSize, t.state, d[blockSize..]))
  }

  /** The same for the final range: `last` gets what is left when at most one block is. */
  function LastBlocks<S>(step: Callback<S>, last: Callback<S>, blockSize: nat, s: S, d: seq<Byte>): Outcome<S>
    requires blockSize > 0
  {
    if |d| <= blockSize then last(s, d)
    else
      var t := step(s, d[..blockSize]);
      if !t.ok then t else Glue(t, LastBlocks(step, last, blockSize, t.state, d[blockSize..]))
  }

  lemma {:induction false} PeelBlocks<S(!new)>(step: Callback<S>, last: Callback<S>, blockSize: nat, s: S,
                                              a: seq<Byte>, b: seq<Byte>)
    requires blockSize > 0 && |a| % blockSize == 0 && b != []
    ensures var fin := (s, d) => LastBlocks(step, last, blockSize, s, d);
      Agree(fin(s, a + b), Then(EachBlock(step, blockSize, s, a), fin, b))
  {
    if a == [] {
      assert a + b == b;
      var r := LastBlocks(step, last, blockSize, s, b);
      assert [] + r.output == r.output;
    } else {
      OneBlockLess(|a|, blockSize);
      assert (a + b)[..blockSize] == a[..blockSize] && (a + b)[blockSize..] == a[blockSize..] + b;
      var t := step(s, a[..blockSize]);
      if t.ok {
        PeelBlocks(step, last, blockSize, t.state, a[blockSize..], b);
        var w := EachBlock(step, blockSize, t.state, a[blockSize..]);
        if w.ok {
          var f := LastBlocks(step, last, blockSize, w.state, b);
          assert t.output + (w.output + f.output) == (t.output + w.output) + f.output;
        }
      }
    }
  }

  lemma OneBlockLess(n: nat, blockSize: nat)
    requires blockSize > 0 && n > 0 && n % blockSize == 0
    ensures n >= blockSize && (n - blockSize) % blockSize == 0
  {
    var q := n / blockSize;
    assert n == q * blockSize && q > 0;
    assert n - blockSize == (q - 1) * blockSize;
    Arithmetic.Multiple(n - blockSize, blockSize, q - 1);
  }

  /** Every mode that goes block by block, carrying any state, obeys the composition law. */
  lemma BlockwiseComposes<S(!new)>(step: Callback<S>, last: Callback<S>, blockSize: nat)
    requires blockSize > 0
    ensures Composes((s, d) => EachBlock(step, blockSize, s, d), (s, d) => LastBlocks(step, last, blockSize, s, d),
                     blockSize)
  {
    forall s, a, b | IsBlocks(a, blockSize) && b != []
      ensures var fin := (s, d) => LastBlocks(step, last, blockSize, s, d);
        Agree(fin(s, a + b), Then(EachBlock(step, blockSize, s, a), fin, b))
    {
      PeelBlocks(step, last, blockSize, s, a, b);
    }
  }

  /** One block of `step` in, one block out, when it succeeds; and as many bytes of `last` as it gets. */
  ghost predicate BlockSized<S(!new)>(step: Callback<S>, last: Callback<S>, blockSize: nat) {
    && (forall s, d :: |d| == blockSize && step(s, d).ok ==> |step(s, d).output| == blockSize)
    && (forall s, d :: |d| <= blockSize && last(s, d).ok ==> |last(s, d).output| == |d|)
  }

  lemma {:induction false} EachBlockWrites<S(!new)>(step: Callback<S>, last: Callback<S>, blockSize: nat, s: S,
                                                   d: seq<Byte>)
    requires blockSize > 0 && |d| % blockSize == 0 && BlockSized(step, last, blockSize)
    ensures WritesBack(EachBlock(step, blockSize, s, d), d, true)
  {
    if d != [] {
      OneBlockLess(|d|, blockSize);
      var t := step(s, d[..blockSize]);
      if t.ok {
        EachBlockWrites(step, last, blockSize, t.state, d[blockSize..]);
      }
    }
  }

  lemma {:induction false} LastBlocksWrite<S(!new)>(step: Callback<S>, last: Callback<S>, blockSize: nat, s: S,
                                                   d: seq<Byte>)
    requires blockSize > 0 && BlockSized(step, last, blockSize)
    ensures WritesBack(LastBlocks(step, last, blockSize, s, d), d, true)
  {
    if |d| > blockSize {
      var t := step(s, d[..blockSize]);
      if t.ok {
        LastBlocksWrite(step, last, blockSize, t.state, d[blockSize..]);
      }
    }
  }

  /** A mode whose steps give back as much as they get can be walked with WriteOut. */
  lemma BlockwiseSized<S(!new)>(step: Callback<S>, last: Callback<S>, blockSize: nat)
    requires blockSize > 0 && BlockSized(step, last, blockSize)
    ensures Sized((s, d) => EachBlock(step, blockSize, s, d), false, true, blockSize)
    ensures Sized((s, d) => LastBlocks(step, last, blockSize, s, d), true, true, blockSize)
  {
    forall s, d | IsBlocks(d, blockSize)
      ensures WritesBack(EachBlock(step, blockSize, s, d), d, true)
    {
      EachBlockWrites(step, last, blockSize, s, d);
    }
    forall s, d
      ensures WritesBack(LastBlocks(step, last, blockSize, s, d), d, true)
    {
      LastBlocksWrite(step, last, blockSize, s, d);
    }
  }

  // ---------------------------------------------------------------------------------------------
  // Block by block, written out
  // ---------------------------------------------------------------------------------------------

  /** The `i`-th full block of the input, and what is left behind the first `n` of them. */
  function Block(d: seq<Byte>, blockSize: nat, i: nat): seq<Byte> {
    if i * blockSize + blockSize <= |d| then d[i * blockSize..i * blockSize + blockSize] else []
  }

  function Tail(d: seq<Byte>, blockSize: nat, n: nat): seq<Byte> {
    if n * blockSize <= |d| then d[n * blockSize..] else []
  }

  /** `n` full blocks leave a tail of one byte up to a block, and no tail only when there is no input. */
  predicate Blocks(size: nat, blockSize: nat, n: nat) {
    n * blockSize <= size && if size == 0 then n == 0 else 1 <= size - n * blockSize <= blockSize
  }

  /** The states before each block and before the tail. */
  ghost predicate Threads<S>(step: Callback<S>, blockSize: nat, s0: S, d: seq<Byte>, n: nat, states: seq<S>) {
    && |states| == n + 1 && states[0] == s0
    && forall i :: 0 <= i < n ==> states[i + 1] == step(states[i], Block(d, blockSize, i)).state
  }

  /** Every block goes through `step`, and the tail through `last`. */
  ghost predicate AllOk<S>(step: Callback<S>, last: Callback<S>, blockSize: nat, d: seq<Byte>, n: nat, states: seq<S>)
    requires |states| == n + 1
  {
    && (forall i :: 0 <= i < n ==> step(states[i], Block(d, blockSize, i)).ok)
    && last(states[n], Tail(d, blockSize, n)).ok
  }

  /** The output is that of each `step`, in order, and then that of `last`. */
  ghost predicate BlockOutputs<S>(step: Callback<S>, last: Callback<S>, blockSize: nat, d: seq<Byte>, n: nat,
                                  states: seq<S>, output: seq<Byte>)
    requires |states| == n + 1
  {
    && (forall i :: 0 <= i < n ==> Block(output, blockSize, i) == step(states[i], Block(d, blockSize, i)).output)
    && Tail(output, blockSize, n) == last(states[n], Tail(d, blockSize, n)).output
  }

  lemma BlockShifts(d: seq<Byte>, blockSize: nat, i: nat)
    requires blockSize <= |d|
    ensures Block(d[blockSize..], blockSize, i) == Block(d, blockSize, i + 1)
    ensures Tail(d[blockSize..], blockSize, i) == Tail(d, blockSize, i + 1)
    ensures Block(d, blockSize, 0) == d[..blockSize]
  {
    assert (i + 1) * blockSize == i * blockSize + blockSize;
    assert 0 * blockSize == 0;
  }

  lemma BlocksOneMore(size: nat, blockSize: nat, n: nat)
    requires size > blockSize > 0 && Blocks(size - blockSize, blockSize, n)
    ensures Blocks(size, blockSize, n + 1)
  {
    assert (n + 1) * blockSize == n * blockSize + blockSize;
  }

  /** One block, and then the rest. */
  lemma OneThenRest<S>(step: Callback<S>, last: Callback<S>, blockSize: nat, s: S, d: seq<Byte>, n: nat, rest: seq<S>)
    requires 0 < blockSize < |d|
    requires Threads(step, blockSize, step(s, d[..blockSize]).state, d[blockSize..], n, rest)
    ensures Threads(step, blockSize, s, d, n + 1, [s] + rest)
    ensures AllOk(step, last, blockSize, d, n + 1, [s] + rest) <==>
              step(s, d[..blockSize]).ok && AllOk(step, last, blockSize, d[blockSize..], n, rest)
  {
    var states, d' := [s] + rest, d[blockSize..];
    BlockShifts(d, blockSize, n);
    forall i | 0 <= i < n
      ensures Block(d', blockSize, i) == Block(d, blockSize, i + 1) && states[i + 1] == rest[i]
    {
      BlockShifts(d, blockSize, i);
    }
    forall i | 0 <= i < n + 1
      ensures states[i + 1] == step(states[i], Block(d, blockSize, i)).state
    {
      if i > 0 {
        assert rest[i - 1 + 1] == step(rest[i - 1], Block(d', blockSize, i - 1)).state;
      }
    }
    if AllOk(step, last, blockSize, d, n + 1, states) {
      assert step(states[0], Block(d, blockSize, 0)).ok;
      forall i | 0 <= i < n
        ensures step(rest[i], Block(d', blockSize, i)).ok
      {
        assert step(states[i + 1], Block(d, blockSize, i + 1)).ok;
      }
    }
    if step(s, d[..blockSize]).ok && AllOk(step, last, blockSize, d', n, rest) {
      forall i | 0 <= i < n + 1
        ensures step(states[i], Block(d, blockSize, i)).ok
      {
        if i > 0 {
          assert step(rest[i - 1], Block(d', blockSize, i - 1)).ok;
        }
      }
    }
  }

  lemma OutputsOneMore<S>(step: Callback<S>, last: Callback<S>, blockSize: nat, s: S, d: seq<Byte>, n: nat,
                          rest: seq<S>, first: seq<Byte>, output: seq<Byte>)
    requires 0 < blockSize < |d| && |rest| == n + 1
    requires first == step(s, d[..blockSize]).output && |first| == blockSize
    requires BlockOutputs(step, last, blockSize, d[blockSize..], n, rest, output)
    ensures BlockOutputs(step, last, blockSize, d, n + 1, [s] + rest, first + output)
  {
    var states, d', all := [s] + rest, d[blockSize..], first + output;
    assert all[blockSize..] == output && all[..blockSize] == first;
    BlockShifts(d, blockSize, n);
    BlockShifts(all, blockSize, n);
    forall i | 0 <= i < n + 1
      ensures Block(all, blockSize, i) == step(states[i], Block(d, blockSize, i)).output
    {
      if i > 0 {
        BlockShifts(d, blockSize, i - 1);
        BlockShifts(all, blockSize, i - 1);
        assert Block(output, blockSize, i - 1) == step(rest[i - 1], Block(d', blockSize, i - 1)).output;
      }
    }
  }

  /** What the recursion over blocks comes to: every full block through `step`, and what is left through `last`. */
  lemma {:induction false} LastBlocksMeans<S(!new)>(step: Callback<S>, last: Callback<S>, blockSize: nat, s: S,
                                                   d: seq<Byte>)
    returns (n: nat, states: seq<S>)
    requires blockSize > 0 && BlockSized(step, last, blockSize)
    ensures Blocks(|d|, blockSize, n) && Threads(step, blockSize, s, d, n, states)
    ensures var r := LastBlocks(step, last, blockSize, s, d);
      && (r.ok <==> AllOk(step, last, blockSize, d, n, states))
      && (r.ok ==> r.state == last(states[n], Tail(d, blockSize, n)).state)
      && (r.ok ==> BlockOutputs(step, last, blockSize, d, n, states, r.output))
  {
    if |d| <= blockSize {
      n, states := 0, [s];
      assert 0 * blockSize == 0 && d[0..] == d;
      var r := last(s, d);
      assert r.output[0..] == r.output;
    } else {
      var t := step(s, d[..blockSize]);
      var n', rest := LastBlocksMeans(step, last, blockSize, t.state, d[blockSize..]);
      n, states := n' + 1, [s] + rest;
      BlocksOneMore(|d|, blockSize, n');
      OneThenRest(step, last, blockSize, s, d, n', rest);
      BlockShifts(d, blockSize, n');
      var r' := LastBlocks(step, last, blockSize, t.state, d[blockSize..]);
      if t.ok && r'.ok {
        OutputsOneMore(step, last, blockSize, s, d, n', rest, t.output, r'.output);
      }
    }
  }

  /**
   Any block mode, in place, over any chunk list, with `n` full blocks before a tail of at least a byte
   (none for empty input) and the states threaded through them: the walk succeeds exactly when every
   `step` and the `last` do. Then the chunks, read in order, hold the output of each `step` followed by
   that of `last`, and the state is what `last` leaves. Nothing outside the chunks changes either way.
   */
  method TransformInPlace<S(!new)>(mem: array<Byte>, ivecs: seq<IoVec>, blockSize: nat, step: Callback<S>,
                                   last: Callback<S>, s0: S)
    returns (ok: bool, s: S, ghost n: nat, ghost states: seq<S>)
    requires blockSize > 0 && BlockSized(step, last, blockSize)
    requires forall i :: 0 <= i < |ivecs| ==> ivecs[i].inp == ivecs[i].out
    requires InBounds(Addrs(ivecs, In), mem.Length) && Distinct(Addrs(ivecs, In))
    modifies mem
    ensures var d := Gather(old(mem[..]), Addrs(ivecs, In));
      && Blocks(|d|, blockSize, n) && Threads(step, blockSize, s0, d, n, states)
      && (ok <==> AllOk(step, last, blockSize, d, n, states))
      && (ok ==> s == last(states[n], Tail(d, blockSize, n)).state)
      && (ok ==> BlockOutputs(step, last, blockSize, d, n, states, Gather(mem[..], Addrs(ivecs, In))))
    ensures OnlyAt(old(mem[..]), mem[..], Addrs(ivecs, In))
  {
    hide EachBlock;
    hide LastBlocks;
    hide Threads;
    hide AllOk;
    hide BlockOutputs;
    InPlaceAddrs(ivecs);
    InPlaceIsNonInterfering(ivecs);
    BlockwiseComposes(step, last, blockSize);
    BlockwiseSized(step, last, blockSize);
    n, states := LastBlocksMeans(step, last, blockSize, s0, Gather(mem[..], Addrs(ivecs, In)));
    ghost var calls, output;
    ok, s, calls, output := ForEachBlockRange(mem, ivecs, blockSize, true, s0,
      (s, d) => EachBlock(step, blockSize, s, d), (s, d) => LastBlocks(step, last, blockSize, s, d));
  }
}
