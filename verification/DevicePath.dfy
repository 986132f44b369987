/**
 Naming partition devices: table path, a 'p' when that ends in a digit, and the partition number.

 Indices are 32-bit, so the number printed is the index plus one modulo 2^32.
 */
module DevicePath {
  import opened Common

  predicate IsDigit(c: char) {
    '0' <= c <= '9'
  }

  predicate EndsInDigit(path: string)
    requires path != ""
  {
    IsDigit(path[|path| - 1])
  }

  function DigitChar(d: nat): (c: char)
    requires d < 10
    ensures IsDigit(c)
  {
    "0123456789"[d]
  }

  function DigitValue(c: char): (d: nat)
    requires IsDigit(c)
    ensures d < 10
  {
    (c as int) - ('0' as int)
  }

  /** `std::to_string` of an unsigned number. */
  function Decimal(n: nat): (s: string)
    ensures s != "" && forall i :: 0 <= i < |s| ==> IsDigit(s[i])
    ensures s[0] == '0' <==> n == 0
    ensures n == 0 ==> |s| == 1
  {
    if n < 10 then [DigitChar(n)] else Decimal(n / 10) + [DigitChar(n % 10)]
  }

  function Parse(s: string): nat
    requires forall i :: 0 <= i < |s| ==> IsDigit(s[i])
  {
    if s == "" then 0 else 10 * Parse(s[..|s| - 1]) + DigitValue(s[|s| - 1])
  }

  /** Reading digits from the left, each one counts ten times those behind it. */
  lemma ParseAppend(s: string, c: char)
    requires IsDigit(c) && forall i :: 0 <= i < |s| ==> IsDigit(s[i])
    ensures Parse("") == 0
    ensures Parse(s + [c]) == 10 * Parse(s) + (c as int - '0' as int)
  {
    assert (s + [c])[..|s|] == s;
  }

  lemma DigitRoundTrip(d: nat)
    requires d < 10
    ensures DigitValue(DigitChar(d)) == d
  {
  }

  lemma {:induction false} ParseDecimal(n: nat)
    ensures Parse(Decimal(n)) == n
  {
    DigitRoundTrip(n % 10);
    if n < 10 {
      assert Decimal(n)[..0] == "";
    } else {
      ParseDecimal(n / 10);
      assert Decimal(n)[..|Decimal(n)| - 1] == Decimal(n / 10);
    }
  }

  /** The table's part of a device path. */
  function Stem(table: string): string
    requires table != ""
  {
    table + if EndsInDigit(table) then "p" else ""
  }

  /**
   The path of slot `index` of a table: the table, a 'p' if and only if it ends in a digit, and then the
   digits of the slot's number, the index plus one in 32 bits, without leading zeros.
   */
  predicate Names(path: string, table: string, index: nat)
    requires table != ""
  {
    var stem := if '0' <= table[|table| - 1] <= '9' then table + "p" else table;
    stem <= path && IsNumber(path[|stem|..], (index + 1) % 0x1_0000_0000)
  }

  /** The digits read as the number, and do not begin with a zero unless that is all. */
  predicate IsNumber(digits: string, n: nat) {
    && digits != "" && (forall i :: 0 <= i < |digits| ==> '0' <= digits[i] <= '9')
    && Parse(digits) == n && (|digits| > 1 ==> digits[0] != '0')
  }

  lemma DecimalIsNumber(n: nat)
    ensures IsNumber(Decimal(n), n)
  {
    ParseDecimal(n);
    if n == 0 {
      assert |Decimal(0)| == 1;
    }
  }

  /** `BasicPartition_t::path()` of a partition in a table. */
  function PathOf(table: string, index: nat): (path: string)
    requires table != "" && index < TWO_TO_THE_32
    ensures Names(path, table, index)
  {
    var number := (index + 1) % TWO_TO_THE_32;
    DecimalIsNumber(number);
    assert (Stem(table) + Decimal(number))[|Stem(table)|..] == Decimal(number);
    Stem(table) + Decimal(number)
  }

  /** The path `scan` opens when it registers slot `i` of the table at `p`. */
  method ScanPath(p: string, i: nat) returns (path: string)
    requires p != "" && i < TWO_TO_THE_32
    ensures path == PathOf(p, i) && Names(path, p, i)
  {
    path := p;
    if EndsInDigit(p) {
      path := path + "p";
    }
    path := path + Decimal((i + 1) % TWO_TO_THE_32);
    assert Stem(p) + Decimal((i + 1) % TWO_TO_THE_32) == path;
  }

  lemma StemEnds(table: string)
    requires table != ""
    ensures Stem(table) != "" && !EndsInDigit(Stem(table))
  {
  }

  /** A path splits in one way into a stem not ending in a digit and digits. */
  lemma SplitUnique(a: string, b: string, d: string, e: string)
    requires a != "" && b != "" && !EndsInDigit(a) && !EndsInDigit(b)
    requires forall i :: 0 <= i < |d| ==> IsDigit(d[i])
    requires forall i :: 0 <= i < |e| ==> IsDigit(e[i])
    requires a + d == b + e
    ensures a == b && d == e
  {
    var s := a + d;
    assert s[|a| - 1] == a[|a| - 1] && (b + e)[|b| - 1] == b[|b| - 1];
    assert forall k :: |a| <= k < |s| ==> s[k] == d[k - |a|];
    assert forall k :: |b| <= k < |b + e| ==> (b + e)[k] == e[k - |b|];
    assert |a| == |b|;
    assert s[..|a|] == a && (b + e)[..|b|] == b;
    assert s[|a|..] == d && (b + e)[|b|..] == e;
  }

  /** Two partitions have the same path only if they have the same index and their tables the same stem. */
  lemma SamePath(t: string, u: string, i: nat, j: nat)
    requires t != "" && u != "" && i < TWO_TO_THE_32 && j < TWO_TO_THE_32
    requires PathOf(t, i) == PathOf(u, j)
    ensures i == j && Stem(t) == Stem(u)
  {
    hide Names;
    StemEnds(t);
    StemEnds(u);
    hide Stem;
    hide EndsInDigit;
    var m, n := (i + 1) % TWO_TO_THE_32, (j + 1) % TWO_TO_THE_32;
    SplitUnique(Stem(t), Stem(u), Decimal(m), Decimal(n));
    ParseDecimal(m);
    ParseDecimal(n);
    assert Decimal(m) == Decimal(n);
  }

  lemma SameStem(t: string, u: string)
    requires t != "" && u != "" && Stem(t) == Stem(u)
    ensures t == u || (EndsInDigit(t) && u == t + "p") || (EndsInDigit(u) && t == u + "p")
  {
    if EndsInDigit(t) == EndsInDigit(u) {
      assert Stem(t)[..|t|] == t && Stem(u)[..|u|] == u;
    }
  }

  /** One table is another one, ending in a digit, followed by 'p'. */
  ghost predicate Clash(tables: set<string>) {
    exists t, u :: t in tables && u in tables && t != "" && EndsInDigit(t) && u == t + "p"
  }

  ghost predicate Injective(tables: set<string>) {
    forall t, u, i: nat, j: nat
      | t in tables && u in tables && t != "" && u != "" && i < TWO_TO_THE_32 && j < TWO_TO_THE_32 ::
      PathOf(t, i) == PathOf(u, j) ==> t == u && i == j
  }

  /** Over a set of tables, different partitions have different device paths exactly when no two tables clash. */
  lemma PathsDistinguish(tables: set<string>)
    requires "" !in tables
    ensures Injective(tables) <==> !Clash(tables)
  {
    if Clash(tables) {
      var t, u :| t in tables && u in tables && t != "" && EndsInDigit(t) && u == t + "p";
      assert PathOf(t, 0) == PathOf(u, 0);
    } else {
      forall t, u, i: nat, j: nat
        | t in tables && u in tables && t != "" && u != "" && i < TWO_TO_THE_32 && j < TWO_TO_THE_32
        && PathOf(t, i) == PathOf(u, j)
        ensures t == u && i == j
      {
        SamePath(t, u, i, j);
        SameStem(t, u);
      }
    }
  }
}
