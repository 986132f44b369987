/**
 Magic numbers: how many bytes one takes, and whether a buffer contains it in little-endian order.

 A 64-bit value is a number below 2^64. Shifting right by 8*i is division by 256^i, shifting left is
 multiplication by it, and masking with 0xFF is the remainder modulo 256.
 */
module Magic {
  import opened Common
  import Arithmetic

  function Pow256(n: nat): (r: nat)
    ensures r > 0
  {
    if n == 0 then 1 else 256 * Pow256(n - 1)
  }

  /** Byte `i` of a value, least significant first. */
  function ByteAt(m: nat, i: nat): nat {
    m / Pow256(i) % 256
  }

  function LittleEndian(m: nat, n: nat): (r: seq<Byte>)
    ensures |r| == n
  {
    if n == 0 then [] else [(m % 256) as Byte] + LittleEndian(m / 256, n - 1)
  }

  function Value(bytes: seq<Byte>): nat {
    if bytes == [] then 0 else bytes[0] as nat + 256 * Value(bytes[1..])
  }

  lemma {:induction false} ValueOfEncoding(m: nat, n: nat)
    requires m < Pow256(n)
    ensures Value(LittleEndian(m, n)) == m
  {
    if n > 0 {
      ValueOfEncoding(m / 256, n - 1);
      assert LittleEndian(m, n)[1..] == LittleEndian(m / 256, n - 1);
    }
  }

  /** Byte `i` of the encoding is byte `i` of the value, least significant first. */
  lemma {:induction false} LittleEndianAt(m: nat, n: nat, i: nat)
    requires i < n
    ensures LittleEndian(m, n)[i] as nat == m / Pow256(i) % 256
    ensures Pow256(0) == 1 && Pow256(i + 1) == 256 * Pow256(i)
  {
    if i > 0 {
      LittleEndianAt(m / 256, n - 1, i - 1);
      DivideTwice(m, Pow256(i - 1));
    }
  }

  lemma DivideTwice(m: nat, p: nat)
    requires p > 0
    ensures m / 256 / p == m / (256 * p)
  {
    var q, r := m / 256, m % 256;
    var q', r' := q / p, q % p;
    Regroup'(q', r', p);
    assert m == q' * (256 * p) + (256 * r' + r);
    Arithmetic.DivModUnique(m, 256 * p, q', 256 * r' + r);
  }

  lemma Regroup'(q: nat, r: nat, p: nat)
    ensures 256 * (q * p + r) == q * (256 * p) + 256 * r
  {
  }

  lemma {:induction false} EncodingOfValue(bytes: seq<Byte>)
    ensures Value(bytes) < Pow256(|bytes|)
    ensures LittleEndian(Value(bytes), |bytes|) == bytes
  {
    if bytes != [] {
      EncodingOfValue(bytes[1..]);
      var v := Value(bytes[1..]);
      assert (bytes[0] as nat + 256 * v) / 256 == v && (bytes[0] as nat + 256 * v) % 256 == bytes[0] as nat;
    }
  }

  lemma {:induction false} ValueAppend(bytes: seq<Byte>, b: Byte)
    ensures Value(bytes + [b]) == Value(bytes) + b as nat * Pow256(|bytes|)
  {
    if bytes == [] {
      assert [b][1..] == [];
    } else {
      ValueAppend(bytes[1..], b);
      assert (bytes + [b])[1..] == bytes[1..] + [b];
    }
  }

  /** Bitwise or. */
  function Or(a: nat, b: nat): nat {
    if a == 0 && b == 0 then 0
    else (if a % 2 == 1 || b % 2 == 1 then 1 else 0) + 2 * Or(a / 2, b / 2)
  }

  function Pow2(n: nat): (r: nat)
    ensures r > 0
  {
    if n == 0 then 1 else 2 * Pow2(n - 1)
  }

  lemma {:induction false} OrZero(b: nat)
    ensures Or(0, b) == b
  {
    if b > 0 {
      OrZero(b / 2);
    }
  }

  /** Or-ing in bits that all lie above the bits in use adds them. */
  lemma {:induction false} OrIsSum(a: nat, c: nat, k: nat)
    requires a < Pow2(k)
    ensures Or(a, c * Pow2(k)) == a + c * Pow2(k)
  {
    if k == 0 {
      OrZero(c);
    } else {
      var b := c * Pow2(k);
      Halves(c, Pow2(k - 1));
      assert b % 2 == 0 && b / 2 == c * Pow2(k - 1);
      OrIsSum(a / 2, c, k - 1);
    }
  }

  lemma Halves(c: nat, p: nat)
    ensures c * (2 * p) == 2 * (c * p)
  {
  }

  lemma {:induction false} Pow256IsPow2(n: nat)
    ensures Pow256(n) == Pow2(8 * n)
  {
    if n > 0 {
      Pow256IsPow2(n - 1);
      var m := 8 * (n - 1);
      assert Pow2(m + 2) == 4 * Pow2(m);
      assert Pow2(m + 4) == 16 * Pow2(m);
      assert Pow2(m + 6) == 64 * Pow2(m);
      assert Pow2(m + 8) == 256 * Pow2(m);
    }
  }

  /** Or-ing in the next byte of a little-endian number, shifted into place, appends it. */
  lemma OrNextByte(bytes: seq<Byte>, b: Byte)
    ensures Or(Value(bytes), b as nat * Pow256(|bytes|)) == Value(bytes + [b])
  {
    hide Value;
    hide Pow256;
    hide Or;
    EncodingOfValue(bytes);
    Pow256IsPow2(|bytes|);
    OrIsSum(Value(bytes), b as nat, 8 * |bytes|);
    ValueAppend(bytes, b);
  }

  /** One more byte of the low end of a value. */
  lemma LowBytes(m: nat, i: nat)
    ensures m % Pow256(i + 1) == m % Pow256(i) + ByteAt(m, i) * Pow256(i)
  {
    var p := Pow256(i);
    var q, r := m / p, m % p;
    var q', d := q / 256, q % 256;
    assert m == q * p + r;
    Regroup(q', d, p);
    ByteTimes(d, p);
    Arithmetic.DivModUnique(m, 256 * p, q', d * p + r);
  }

  lemma Regroup(q: nat, d: nat, p: nat)
    ensures (256 * q + d) * p == q * (256 * p) + d * p
  {
  }

  lemma ByteTimes(d: nat, p: nat)
    requires d < 256
    ensures 0 <= d * p && d * p + p <= 256 * p
    ensures d > 0 ==> d * p >= p
  {
    if d > 0 {
      Arithmetic.Grows(d, p);
    }
    assert (255 - d) * p >= 0;
  }

  lemma {:induction false} PowMonotone(m: nat, n: nat)
    requires m <= n
    ensures Pow256(m) <= Pow256(n)
    decreases n - m
  {
    if m < n {
      PowMonotone(m, n - 1);
    }
  }

  lemma PowEight()
    ensures Pow256(8) == TWO_TO_THE_64
  {
    assert Pow256(2) == 0x1_0000;
    assert Pow256(4) == 0x1_0000_0000;
    assert Pow256(6) == 0x1_0000_0000_0000;
  }

  ghost predicate IsMagicLength(magic: nat, length: nat) {
    magic < Pow256(length) && forall k :: 0 <= k < length ==> magic >= Pow256(k)
  }

  /** `getMagicLength`: the fewest bytes the value fits in. */
  method GetMagicLength(magic: nat) returns (length: nat)
    requires magic < TWO_TO_THE_64
    ensures length <= 8 && IsMagicLength(magic, length)
  {
    length := 0;
    for i := 0 to 8
      invariant length <= i && magic % Pow256(i) < Pow256(length)
      invariant length > 0 ==> magic % Pow256(i) >= Pow256(length - 1)
    {
      LowBytes(magic, i);
      ByteTimes(ByteAt(magic, i), Pow256(i));
      if ByteAt(magic, i) != 0 {
        length := i + 1;
      }
    }
    PowEight();
    Arithmetic.DivModUnique(magic, Pow256(8), 0, magic);
    forall k | 0 <= k < length
      ensures magic >= Pow256(k)
    {
      PowMonotone(k, length - 1);
    }
  }

  /** The `n`-byte little-endian encoding of `magic` starts at `i`. */
  predicate OccursAt(data: seq<Byte>, magic: nat, n: nat, i: nat) {
    i + n <= |data| && data[i..i + n] == LittleEndian(magic, n)
  }

  predicate Occurs(data: seq<Byte>, magic: nat, n: nat) {
    exists i :: 0 <= i <= |data| && OccursAt(data, magic, n, i)
  }

  /** A window holds the value exactly when the encoding occurs there. */
  lemma WindowHolds(data: seq<Byte>, magic: nat, n: nat, i: nat)
    requires i + n <= |data| && magic < Pow256(n)
    ensures Value(data[i..i + n]) == magic <==> OccursAt(data, magic, n, i)
  {
    ValueOfEncoding(magic, n);
    EncodingOfValue(data[i..i + n]);
  }

  lemma NotBeyond(data: seq<Byte>, magic: nat, n: nat, i: nat)
    requires i + n > |data|
    ensures !OccursAt(data, magic, n, i)
  {
  }

  /** The least number of bytes is determined. */
  lemma MagicLengthUnique(magic: nat, m: nat, n: nat)
    requires IsMagicLength(magic, m) && IsMagicLength(magic, n)
    ensures m == n
  {
  }

  /** The inner loop of `hasMagic`: or up the bytes of one window. */
  method WindowValue(data: seq<Byte>, i: nat, n: nat) returns (value: nat)
    requires i + n <= |data|
    ensures value == Value(data[i..i + n])
  {
    value := 0;
    for j := 0 to n
      invariant value == Value(data[i..i + j])
    {
      OrNextByte(data[i..i + j], data[i + j]);
      assert data[i..i + j] + [data[i + j]] == data[i..i + j + 1];
      value := Or(value, data[i + j] as nat * Pow256(j));
    }
  }

  /** What `hasMagic` comes to; Overrun: it reads behind the end of its buffer, and nothing more can be said. */
  datatype Search = Answer(found: bool) | Overrun

  /** The buffer after a read that delivered `data`: the rest of it is zero. */
  function Buffer(data: seq<Byte>, buf: nat): (r: seq<Byte>)
    requires |data| <= buf
    ensures |r| == buf && r[..|data|] == data && forall i :: |data| <= i < buf ==> r[i] == 0
  {
    data + seq(buf - |data|, _ => 0)
  }

  /**
   The result for a magic of `n` bytes. If the read delivered that many, it says whether the encoding
   occurs in them. If it delivered fewer, the unsigned bound of the loop wraps around, and the search
   goes on over the zeros behind them: it succeeds if the encoding occurs in the buffer, else it overruns.
   */
  ghost predicate Decides(r: Search, magic: nat, buf: nat, data: seq<Byte>, n: nat)
    requires |data| <= buf
  {
    if n <= |data| then r == Answer(Occurs(data, magic, n))
    else r == if Occurs(Buffer(data, buf), magic, n) then Answer(true) else Overrun
  }

  /** The bytes the search sees: those read, or the whole buffer when the bound wraps around. */
  function Seen(data: seq<Byte>, buf: nat, n: nat): (r: seq<Byte>)
    requires |data| <= buf
    ensures |r| <= buf
  {
    if n <= |data| then data else Buffer(data, buf)
  }

  lemma SeenWindow(data: seq<Byte>, buf: nat, n: nat, i: nat)
    requires |data| <= buf && i + n <= |Seen(data, buf, n)|
    ensures Buffer(data, buf)[i..i + n] == Seen(data, buf, n)[i..i + n]
  {
  }

  /** `hasMagic` on the bytes a read delivered. */
  method HasMagic(magic: nat, buf: int, data: seq<Byte>, readFailed: bool) returns (r: Search)
    requires magic < TWO_TO_THE_64 && buf < TWO_TO_THE_64 / 2
    requires buf >= 1 && !readFailed ==> |data| <= buf
    ensures buf < 1 || readFailed || magic == 0 ==> r == Answer(false)
    ensures buf >= 1 && !readFailed && magic != 0 ==>
      forall n: nat | IsMagicLength(magic, n) :: Decides(r, magic, buf, data, n)
  {
    var magicLength := GetMagicLength(magic);
    if buf < 1 || readFailed {
      return Answer(false);
    }
    if magicLength == 0 {
      return Answer(false);
    }
    forall n: nat | IsMagicLength(magic, n)
      ensures n == magicLength
    {
      MagicLengthUnique(magic, n, magicLength);
    }
    assert magic < Pow256(magicLength) && magic >= Pow256(0) == 1;
    r := SearchBuffer(magic, magicLength, Buffer(data, buf), |data|, data);
  }

  /** The outer loop of `hasMagic` over its buffer, of which the first `bytesRead` bytes are `data`. */
  method SearchBuffer(magic: nat, magicLength: nat, buffer: seq<Byte>, bytesRead: nat, ghost data: seq<Byte>)
    returns (r: Search)
    requires 0 < magicLength <= 8 && magic < Pow256(magicLength)
    requires bytesRead == |data| <= |buffer| < TWO_TO_THE_64 / 2 && buffer == Buffer(data, |buffer|)
    ensures Decides(r, magic, |buffer|, data, magicLength)
  {
    hide IsMagicLength;
    hide Pow256;
    hide LittleEndian;
    hide Value;
    hide OccursAt;
    ghost var seen := Seen(data, |buffer|, magicLength);
    var bound := if bytesRead >= magicLength then bytesRead - magicLength
                 else bytesRead + TWO_TO_THE_64 - magicLength;
    var i: nat := 0;
    while i <= bound
      invariant i <= bound + 1 && i <= |seen| + 1
      invariant forall k :: 0 <= k < i ==> !OccursAt(seen, magic, magicLength, k)
    {
      if i + magicLength > |buffer| {
        NoneBehind(seen, magic, magicLength, i);
        return Overrun;
      }
      var value := WindowValue(buffer, i, magicLength);
      SeenWindow(data, |buffer|, magicLength, i);
      WindowHolds(seen, magic, magicLength, i);
      if value == magic {
        return Answer(true);
      }
      i := i + 1;
    }
    NoneBehind(seen, magic, magicLength, i);
    return Answer(false);
  }

  /** Behind the last window there is nothing to find. */
  lemma NoneBehind(data: seq<Byte>, magic: nat, n: nat, i: nat)
    requires i + n > |data| && forall k :: 0 <= k < i ==> !OccursAt(data, magic, n, k)
    ensures !Occurs(data, magic, n)
  {
    forall k | i <= k
      ensures !OccursAt(data, magic, n, k)
    {
      NotBeyond(data, magic, n, k);
    }
  }

  /** A hit in what one read delivered is a hit in any longer read. */
  lemma HitPersists(data: seq<Byte>, more: seq<Byte>, magic: nat, n: nat)
    requires Occurs(data, magic, n)
    ensures Occurs(data + more, magic, n)
  {
    var i :| 0 <= i <= |data| && OccursAt(data, magic, n, i);
    assert (data + more)[i..i + n] == data[i..i + n];
    assert OccursAt(data + more, magic, n, i);
  }
}
