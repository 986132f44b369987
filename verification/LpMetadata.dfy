/**
 The logical-partition table: registration from the super metadata, the free-space sum, and the
 consistency checks. Sizes are 64-bit and sums wrap around, as the machine's do.
 */
module LpMetadata {
  import opened Common

  datatype LpPartition = LpPartition(name: string, group: nat, firstExtent: nat, numExtents: nat)

  datatype LpGroup = LpGroup(name: string, maximum: nat)

  /** `target` is the block device a linear extent lies on, `start` and `sectors` its place there. */
  datatype Extent = Extent(linear: bool, target: nat, start: nat, sectors: nat)

  datatype Metadata = Metadata(magicOk: bool, groups: seq<LpGroup>, partitions: seq<LpPartition>, extents: seq<Extent>,
                               devices: seq<nat>)

  /** A registered logical partition. */
  datatype Local = Local(name: string, size: nat)

  const SECTOR: nat := 512

  function Wrap64(n: nat): (r: nat)
    ensures r < TWO_TO_THE_64
  {
    n % TWO_TO_THE_64
  }

  function Wrap32(n: nat): (r: nat)
    ensures r < TWO_TO_THE_32
  {
    n % TWO_TO_THE_32
  }

  lemma WrapAdd(a: nat, b: nat)
    ensures Wrap64(Wrap64(a) + b) == Wrap64(a + b)
  {
  }

  /** Subtracting in 64 bits is undone by adding. */
  lemma WrapSub(size: nat, total: nat)
    requires size < TWO_TO_THE_64
    ensures var free := Wrap64(size + TWO_TO_THE_64 - Wrap64(total)); Wrap64(free + total) == size
  {
    var t := Wrap64(total);
    var free := Wrap64(size + TWO_TO_THE_64 - t);
    WrapAdd(total, free);
    assert Wrap64(free + t) == size;
  }

  /** The first registered partition with the name. */
  function FindLocal(name: string, local: seq<Local>): (r: Option<nat>)
    ensures r.Some? ==> r.value < |local| && local[r.value].name == name
    ensures r.Some? ==> forall i :: 0 <= i < r.value ==> local[i].name != name
    ensures r.None? ==> forall i :: 0 <= i < |local| ==> local[i].name != name
  {
    if local == [] then None
    else if local[0].name == name then Some(0)
    else match FindLocal(name, local[1..])
      case Some(i) => Some(i + 1)
      case None => None
  }

  /** The group has a limit, so that its partitions are looked up. */
  predicate Limited(m: Metadata, g: nat) {
    g < |m.groups| && m.groups[g].maximum != 0
  }

  /** What the checks dereference: a registration of each partition in a limited group, each linear extent's device. */
  ghost predicate Resolvable(m: Metadata, local: seq<Local>) {
    && (forall i :: 0 <= i < |m.partitions| && Limited(m, m.partitions[i].group) ==>
          FindLocal(m.partitions[i].name, local).Some?)
    && (forall i :: 0 <= i < |m.extents| && m.extents[i].linear ==> m.extents[i].target < |m.devices|)
  }

  /** Every metadata partition is registered, in metadata order. */
  ghost predicate Matches(m: Metadata, local: seq<Local>) {
    |local| == |m.partitions| && forall i :: 0 <= i < |local| ==> local[i].name == m.partitions[i].name
  }

  ghost predicate DistinctNames(m: Metadata) {
    forall i, j :: 0 <= i < j < |m.partitions| ==> m.partitions[i].name != m.partitions[j].name
  }

  // ---------------------------------------------------------------------------------------------
  // Sums
  // ---------------------------------------------------------------------------------------------

  function LocalSum(local: seq<Local>, n: nat): nat
    requires n <= |local|
  {
    if n == 0 then 0 else LocalSum(local, n - 1) + local[n - 1].size
  }

  /** The size the lookup by name finds for a metadata partition. */
  function SizeOf(p: LpPartition, local: seq<Local>): (r: nat)
    ensures forall i :: 0 <= i < |local| && FindLocal(p.name, local) == Some(i) ==> r == local[i].size
    ensures FindLocal(p.name, local).None? ==> r == 0
  {
    match FindLocal(p.name, local)
    case Some(i) => local[i].size
    case None => 0
  }

  /** The sizes of those of the first `n` partitions that belong to group `g`. */
  function GroupSum(m: Metadata, local: seq<Local>, g: nat, n: nat): nat
    requires n <= |m.partitions|
  {
    if n == 0 then 0
    else GroupSum(m, local, g, n - 1) + if m.partitions[n - 1].group == g then SizeOf(m.partitions[n - 1], local) else 0
  }

  function GroupTotal(m: Metadata, local: seq<Local>, g: nat): nat {
    GroupSum(m, local, g, |m.partitions|)
  }

  /** The group sums of the first `k` groups, added up. */
  function SumOverGroups(m: Metadata, local: seq<Local>, k: nat, n: nat): nat
    requires n <= |m.partitions|
  {
    if k == 0 then 0 else SumOverGroups(m, local, k - 1, n) + GroupSum(m, local, k - 1, n)
  }

  function LimitSum(groups: seq<LpGroup>, k: nat): nat
    requires k <= |groups|
  {
    if k == 0 then 0 else LimitSum(groups, k - 1) + groups[k - 1].maximum
  }

  /** What the sums add up, one registered partition, metadata partition, or group at a time. */
  lemma SumsUnfold(m: Metadata, local: seq<Local>, g: nat, i: nat, j: nat, k: nat)
    requires i < |local| && j < |m.partitions| && k < |m.groups|
    ensures LocalSum(local, 0) == 0 && LocalSum(local, i + 1) == LocalSum(local, i) + local[i].size
    ensures GroupSum(m, local, g, 0) == 0 && GroupTotal(m, local, g) == GroupSum(m, local, g, |m.partitions|)
    ensures GroupSum(m, local, g, j + 1)
         == GroupSum(m, local, g, j) + if m.partitions[j].group == g then SizeOf(m.partitions[j], local) else 0
    ensures SumOverGroups(m, local, 0, j) == 0
    ensures SumOverGroups(m, local, k + 1, j) == SumOverGroups(m, local, k, j) + GroupSum(m, local, k, j)
    ensures LimitSum(m.groups, 0) == 0 && LimitSum(m.groups, k + 1) == LimitSum(m.groups, k) + m.groups[k].maximum
  {
  }

  lemma {:induction false} NoPartitions(m: Metadata, local: seq<Local>, k: nat)
    ensures SumOverGroups(m, local, k, 0) == 0
  {
    if k > 0 {
      NoPartitions(m, local, k - 1);
    }
  }

  /** A partition counts in exactly one group. */
  lemma {:induction false} OneMorePartition(m: Metadata, local: seq<Local>, k: nat, n: nat)
    requires n < |m.partitions|
    ensures SumOverGroups(m, local, k, n + 1)
         == SumOverGroups(m, local, k, n) + if m.partitions[n].group < k then SizeOf(m.partitions[n], local) else 0
  {
    if k > 0 {
      OneMorePartition(m, local, k - 1, n);
    }
  }

  lemma LookupFindsOwn(m: Metadata, local: seq<Local>, i: nat)
    requires Matches(m, local) && DistinctNames(m) && i < |local|
    ensures FindLocal(m.partitions[i].name, local) == Some(i)
    ensures SizeOf(m.partitions[i], local) == local[i].size
  {
    hide FindLocal;
    var r := FindLocal(m.partitions[i].name, local);
    assert local[i].name == m.partitions[i].name;
    assert local[r.value].name == m.partitions[r.value].name;
  }

  /** Summing by group or by registered partition is the same: each partition is in one group and looks up itself. */
  lemma {:induction false} SumExchange(m: Metadata, local: seq<Local>, n: nat)
    requires Matches(m, local) && DistinctNames(m) && n <= |local|
    requires forall i :: 0 <= i < |m.partitions| ==> m.partitions[i].group < |m.groups|
    ensures SumOverGroups(m, local, |m.groups|, n) == LocalSum(local, n)
  {
    if n == 0 {
      NoPartitions(m, local, |m.groups|);
    } else {
      SumExchange(m, local, n - 1);
      OneMorePartition(m, local, |m.groups|, n - 1);
      LookupFindsOwn(m, local, n - 1);
    }
  }

  // ---------------------------------------------------------------------------------------------
  // The checks
  // ---------------------------------------------------------------------------------------------

  predicate GroupFits(m: Metadata, local: seq<Local>, g: nat)
    requires g < |m.groups|
  {
    m.groups[g].maximum == 0 || Wrap64(GroupTotal(m, local, g)) <= m.groups[g].maximum
  }

  predicate ExtentFits(m: Metadata, e: Extent)
    requires e.linear ==> e.target < |m.devices|
  {
    !e.linear || Wrap64(Wrap64(e.start + e.sectors) * SECTOR) <= m.devices[e.target]
  }

  predicate RangeFits(m: Metadata, p: LpPartition) {
    Wrap32(p.firstExtent + p.numExtents) <= |m.extents|
  }

  /** What `validMetadata` decides, in machine arithmetic. */
  ghost predicate Accepted(m: Metadata, local: seq<Local>)
    requires Resolvable(m, local)
  {
    && m.magicOk
    && (forall g :: 0 <= g < |m.groups| ==> GroupFits(m, local, g))
    && (forall i :: 0 <= i < |m.extents| ==> ExtentFits(m, m.extents[i]))
    && (forall i :: 0 <= i < |m.partitions| ==> RangeFits(m, m.partitions[i]))
  }

  class DynamicTable {
    var local: seq<Local>
    var metadata: Option<Metadata>
    var supported: bool

    constructor ()
      ensures local == [] && metadata == None && !supported
    {
      local, metadata, supported := [], None, false;
    }

    /** `scan`: take over the metadata read and register its partitions, in its order, behind those already there. */
    method Scan(superExists: bool, read: Metadata, sizeOf: string -> nat)
      modifies this
      ensures !superExists ==> local == old(local) && metadata == old(metadata)
      ensures superExists ==>
        && metadata == Some(read) && supported && |local| == |old(local)| + |read.partitions|
        && old(local) <= local
        && forall i :: 0 <= i < |read.partitions| ==>
             local[|old(local)| + i] == Local(read.partitions[i].name, sizeOf(read.partitions[i].name))
    {
      if !superExists {
        return;
      }
      supported := true;
      metadata := Some(read);
      for i := 0 to |read.partitions|
        invariant metadata == Some(read) && supported && |local| == |old(local)| + i && old(local) <= local
        invariant forall j :: 0 <= j < i ==>
          local[|old(local)| + j] == Local(read.partitions[j].name, sizeOf(read.partitions[j].name))
      {
        var name := read.partitions[i].name;
        local := local + [Local(name, sizeOf(name))];
      }
    }

    /** `reScan` registers afresh: the registered partitions match the metadata. */
    method ReScan(superExists: bool, read: Metadata, sizeOf: string -> nat)
      modifies this
      ensures superExists ==> metadata == Some(read) && Matches(read, local)
      ensures !superExists ==> local == [] && metadata == old(metadata)
    {
      local := [];
      Scan(superExists, read, sizeOf);
      assert superExists ==> forall i :: 0 <= i < |read.partitions| ==> local[0 + i].name == read.partitions[i].name;
    }

    method Clear()
      modifies this
      ensures local == [] && metadata == None
    {
      local, metadata := [], None;
    }

    /** `freeSpace()`, of the whole super device. */
    method FreeSpace() returns (free: nat)
      requires metadata.Some? && |metadata.value.devices| > 0 && metadata.value.devices[0] < TWO_TO_THE_64
      ensures Wrap64(free + LocalSum(local, |local|)) == metadata.value.devices[0] && free < TWO_TO_THE_64
    {
      var total: nat := 0;
      for i := 0 to |local|
        invariant total == Wrap64(LocalSum(local, i))
      {
        WrapAdd(LocalSum(local, i), local[i].size);
        total := Wrap64(total + local[i].size);
      }
      WrapSub(metadata.value.devices[0], LocalSum(local, |local|));
      free := Wrap64(metadata.value.devices[0] + TWO_TO_THE_64 - total);
    }

    /** The group loop of `validMetadata`: the total it adds up for one group. */
    method TotalOf(g: nat) returns (total: nat)
      requires metadata.Some? && Resolvable(metadata.value, local) && Limited(metadata.value, g)
      ensures total == Wrap64(GroupTotal(metadata.value, local, g))
    {
      var m := metadata.value;
      total := 0;
      for i := 0 to |m.partitions|
        invariant total == Wrap64(GroupSum(m, local, g, i))
      {
        if m.partitions[i].group == g {
          var found := FindLocal(m.partitions[i].name, local);
          WrapAdd(GroupSum(m, local, g, i), local[found.value].size);
          total := Wrap64(total + local[found.value].size);
        }
      }
    }

    method ValidMetadata() returns (valid: bool)
      requires metadata.Some? ==> Resolvable(metadata.value, local)
      ensures valid <==> metadata.Some? && Accepted(metadata.value, local)
    {
      if metadata.None? {
        return false;
      }
      var m := metadata.value;
      if !m.magicOk {
        return false;
      }
      for g := 0 to |m.groups|
        invariant forall h :: 0 <= h < g ==> GroupFits(m, local, h)
      {
        if m.groups[g].maximum != 0 {
          var total := TotalOf(g);
          if total > m.groups[g].maximum {
            assert !GroupFits(m, local, g);
            return false;
          }
        }
      }
      for i := 0 to |m.extents|
        invariant forall j :: 0 <= j < i ==> ExtentFits(m, m.extents[j])
      {
        var e := m.extents[i];
        if e.linear {
          var end := Wrap64(Wrap64(e.start + e.sectors) * SECTOR);
          if end > m.devices[e.target] {
            return false;
          }
        }
      }
      for i := 0 to |m.partitions|
        invariant forall j :: 0 <= j < i ==> RangeFits(m, m.partitions[j])
      {
        if Wrap32(m.partitions[i].firstExtent + m.partitions[i].numExtents) > |m.extents| {
          return false;
        }
      }
      return true;
    }
  }

  // ---------------------------------------------------------------------------------------------
  // What acceptance means
  // ---------------------------------------------------------------------------------------------

  /** The extent check says that the extent ends inside its device exactly when its end in bytes fits in 64 bits. */
  lemma ExtentFitsMeans(m: Metadata, e: Extent)
    requires e.linear && e.target < |m.devices| && m.devices[e.target] < TWO_TO_THE_64
    ensures (e.start + e.sectors) * SECTOR <= m.devices[e.target] <==>
              ExtentFits(m, e) && (e.start + e.sectors) * SECTOR < TWO_TO_THE_64
  {
  }

  /** The range check says that a partition's extents all lie in the table exactly when its index sum fits 32 bits. */
  lemma RangeFitsMeans(m: Metadata, p: LpPartition)
    requires |m.extents| < TWO_TO_THE_32
    ensures p.firstExtent + p.numExtents <= |m.extents| <==>
              RangeFits(m, p) && p.firstExtent + p.numExtents < TWO_TO_THE_32
  {
  }

  /** What the checks add up fits the machine word: totals of limited groups, ends of linear extents, index ranges. */
  ghost predicate NothingWraps(m: Metadata, local: seq<Local>) {
    && (forall g :: 0 <= g < |m.groups| && Limited(m, g) ==> GroupTotal(m, local, g) < TWO_TO_THE_64)
    && (forall i :: 0 <= i < |m.extents| && m.extents[i].linear ==> EndOf(m.extents[i]) < TWO_TO_THE_64)
    && (forall i :: 0 <= i < |m.partitions| ==> LastExtent(m.partitions[i]) < TWO_TO_THE_32)
  }

  function EndOf(e: Extent): nat {
    (e.start + e.sectors) * SECTOR
  }

  function LastExtent(p: LpPartition): nat {
    p.firstExtent + p.numExtents
  }

  /** Right magic, groups within their limits, extents inside their devices, extent ranges inside the table. */
  ghost predicate Sound(m: Metadata, local: seq<Local>)
    requires Resolvable(m, local)
  {
    && m.magicOk
    && (forall g :: 0 <= g < |m.groups| && Limited(m, g) ==> GroupTotal(m, local, g) <= m.groups[g].maximum)
    && (forall i :: 0 <= i < |m.extents| && m.extents[i].linear ==>
          EndOf(m.extents[i]) <= m.devices[m.extents[i].target])
    && (forall i :: 0 <= i < |m.partitions| ==> LastExtent(m.partitions[i]) <= |m.extents|)
  }

  /** The group check says that the total is within the limit exactly when the total fits in 64 bits. */
  lemma GroupFitsMeans(m: Metadata, local: seq<Local>, g: nat)
    requires Limited(m, g) && m.groups[g].maximum < TWO_TO_THE_64
    ensures GroupTotal(m, local, g) <= m.groups[g].maximum <==>
              GroupFits(m, local, g) && GroupTotal(m, local, g) < TWO_TO_THE_64
  {
    hide GroupTotal;
  }

  /** Limits and device sizes are 64-bit numbers, the number of extents a 32-bit one. */
  ghost predicate Sizes(m: Metadata) {
    && (forall g :: 0 <= g < |m.groups| ==> m.groups[g].maximum < TWO_TO_THE_64)
    && (forall d :: 0 <= d < |m.devices| ==> m.devices[d] < TWO_TO_THE_64)
    && |m.extents| < TWO_TO_THE_32
  }

  /** Metadata is sound exactly when `validMetadata` accepts it and nothing it adds up wraps around. */
  lemma AcceptedMeans(m: Metadata, local: seq<Local>)
    requires Resolvable(m, local) && Sizes(m)
    ensures Sound(m, local) <==> Accepted(m, local) && NothingWraps(m, local)
  {
    hide GroupTotal;
    hide GroupFits;
    hide FindLocal;
    forall g | 0 <= g < |m.groups|
      ensures if Limited(m, g) then
                GroupTotal(m, local, g) <= m.groups[g].maximum <==>
                  GroupFits(m, local, g) && GroupTotal(m, local, g) < TWO_TO_THE_64
              else GroupFits(m, local, g)
    {
      if Limited(m, g) {
        GroupFitsMeans(m, local, g);
      } else {
        NoLimitFits(m, local, g);
      }
    }
    forall i | 0 <= i < |m.extents| && m.extents[i].linear
      ensures EndOf(m.extents[i]) <= m.devices[m.extents[i].target] <==>
                ExtentFits(m, m.extents[i]) && EndOf(m.extents[i]) < TWO_TO_THE_64
    {
      ExtentFitsMeans(m, m.extents[i]);
    }
    forall i | 0 <= i < |m.partitions|
      ensures LastExtent(m.partitions[i]) <= |m.extents| <==>
                RangeFits(m, m.partitions[i]) && LastExtent(m.partitions[i]) < TWO_TO_THE_32
    {
      RangeFitsMeans(m, m.partitions[i]);
    }
  }

  lemma NoLimitFits(m: Metadata, local: seq<Local>, g: nat)
    requires g < |m.groups| && !Limited(m, g)
    ensures GroupFits(m, local, g)
  {
  }

  /** Without the bound the check lets a partition through whose extents are not in the table. */
  lemma RangeCheckWraps(m: Metadata, name: string)
    requires |m.extents| < TWO_TO_THE_32
    ensures var p := LpPartition(name, 0, 1, TWO_TO_THE_32 - 1);
      RangeFits(m, p) && p.firstExtent + p.numExtents > |m.extents|
  {
  }

  /** The check lets an extent through that ends at byte 2^64, on a device of any size: its end wraps around to zero. */
  lemma ExtentCheckWraps(m: Metadata, device: nat)
    requires device < |m.devices|
    ensures var e := Extent(true, device, TWO_TO_THE_64 / SECTOR - 1, 1);
      ExtentFits(m, e) && EndOf(e) == TWO_TO_THE_64
  {
  }

  /** Two partitions of 2^63 bytes in a group limited to one byte. */
  function WrappingGroup(): Metadata {
    Metadata(true, [LpGroup("g", 1)], [LpPartition("a", 0, 0, 0), LpPartition("b", 0, 0, 0)], [], [])
  }

  function HalfWords(): seq<Local> {
    [Local("a", TWO_TO_THE_64 / 2), Local("b", TWO_TO_THE_64 / 2)]
  }

  /** The whole check accepts a group whose total exceeds its limit: the total wraps around to zero. */
  lemma GroupCheckWraps()
    ensures var m, local := WrappingGroup(), HalfWords();
      Resolvable(m, local) && Accepted(m, local) && GroupTotal(m, local, 0) == TWO_TO_THE_64 > m.groups[0].maximum
  {
    var m, local := WrappingGroup(), HalfWords();
    assert FindLocal("a", local) == Some(0);
    assert local[1..] == [Local("b", TWO_TO_THE_64 / 2)] && FindLocal("b", local[1..]) == Some(0);
    assert FindLocal("b", local) == Some(1);
    assert GroupSum(m, local, 0, 1) == TWO_TO_THE_64 / 2;
    assert GroupSum(m, local, 0, 2) == TWO_TO_THE_64;
  }

  lemma {:induction false} TotalsWithinLimits(m: Metadata, local: seq<Local>, k: nat)
    requires k <= |m.groups| && Resolvable(m, local) && Accepted(m, local)
    requires forall g :: 0 <= g < |m.groups| ==> m.groups[g].maximum != 0 && GroupTotal(m, local, g) < TWO_TO_THE_64
    ensures SumOverGroups(m, local, k, |m.partitions|) <= LimitSum(m.groups, k)
  {
    if k > 0 {
      TotalsWithinLimits(m, local, k - 1);
      assert GroupFits(m, local, k - 1);
    }
  }

  lemma {:induction false} GroupTotalsSmall(m: Metadata, local: seq<Local>, k: nat, g: nat)
    requires g < k
    ensures GroupTotal(m, local, g) <= SumOverGroups(m, local, k, |m.partitions|)
  {
    if g < k - 1 {
      GroupTotalsSmall(m, local, k - 1, g);
    }
  }

  ghost predicate AllLimited(m: Metadata) {
    forall g :: 0 <= g < |m.groups| ==> m.groups[g].maximum != 0
  }

  ghost predicate GroupsInRange(m: Metadata) {
    forall i :: 0 <= i < |m.partitions| ==> m.partitions[i].group < |m.groups|
  }

  /**
   The sum exchange. With distinct names, group indices in range and the registered partitions those of
   the metadata, what `freeSpace` subtracts from the super device is the sum of the groups' totals, also
   when the machine's sums wrap around; exactly so when the partitions fit the device.
   */
  lemma UsedSpaceIsGroupSpace(m: Metadata, local: seq<Local>, free: nat)
    requires Matches(m, local) && DistinctNames(m) && GroupsInRange(m) && |m.devices| > 0
    requires free < TWO_TO_THE_64 && m.devices[0] < TWO_TO_THE_64
    requires Wrap64(free + LocalSum(local, |local|)) == m.devices[0]
    ensures Wrap64(free + SumOverGroups(m, local, |m.groups|, |m.partitions|)) == m.devices[0]
    ensures LocalSum(local, |local|) <= m.devices[0] ==>
      m.devices[0] - free == SumOverGroups(m, local, |m.groups|, |m.partitions|)
  {
    SumExchange(m, local, |local|);
  }

  /** Accepted metadata whose groups are all limited uses no more than the sum of the limits, if nothing overflows. */
  lemma UsedSpaceWithinLimits(m: Metadata, local: seq<Local>)
    requires Matches(m, local) && DistinctNames(m) && GroupsInRange(m) && Resolvable(m, local)
    requires Accepted(m, local) && AllLimited(m) && LocalSum(local, |local|) < TWO_TO_THE_64
    ensures LocalSum(local, |local|) <= LimitSum(m.groups, |m.groups|)
  {
    SumExchange(m, local, |local|);
    forall g | 0 <= g < |m.groups|
      ensures GroupTotal(m, local, g) < TWO_TO_THE_64
    {
      GroupTotalsSmall(m, local, |m.groups|, g);
    }
    TotalsWithinLimits(m, local, |m.groups|);
  }
}
