/** Volume state, and the block and inode bitmap allocators of the ext4 driver. */
module Ext4Alloc {
  import opened Wrappers
  import opened Bytes
  import opened Arith
  import opened Bitmap

  /**
   * The mount-time constants of a volume. Group descriptors keep their locations fixed; `fixed` are
   * the blocks of the superblock, of the group descriptors and of their copies.
   */
  datatype Geometry = Geometry(
    blockSize: nat, blocksPerGroup: nat, inodesPerGroup: nat, inodeSize: nat,
    groupCount: nat, firstDataBlock: nat,
    blockBitmap: seq<nat>, inodeBitmap: seq<nat>, inodeTable: seq<nat>,
    fixed: set<nat>)

  /** The block device together with the counters the driver keeps in memory. */
  datatype Volume = Volume(
    disk: map<nat, seq<byte>>,
    freeBlocks: seq<u16>, freeInodes: seq<u16>,
    sbFreeBlocks: u32, sbFreeInodes: u32)

  /** The two allocators differ in what a bit stands for and in nothing else. */
  datatype Kind = Blocks | Inodes

  function PerGroup(g: Geometry, k: Kind): nat {
    if k.Blocks? then g.blocksPerGroup else g.inodesPerGroup
  }

  function BitmapBlock(g: Geometry, k: Kind, group: nat): nat
    requires |g.blockBitmap| == |g.inodeBitmap| == g.groupCount && group < g.groupCount
  {
    if k.Blocks? then g.blockBitmap[group] else g.inodeBitmap[group]
  }

  function Free(v: Volume, k: Kind): seq<u16> {
    if k.Blocks? then v.freeBlocks else v.freeInodes
  }

  function SbFree(v: Volume, k: Kind): u32 {
    if k.Blocks? then v.sbFreeBlocks else v.sbFreeInodes
  }

  function WithCounts(v: Volume, k: Kind, free: seq<u16>, sb: u32): Volume {
    if k.Blocks? then v.(freeBlocks := free, sbFreeBlocks := sb)
    else v.(freeInodes := free, sbFreeInodes := sb)
  }

  /** What the driver assumes of the superblock it was given. */
  ghost predicate Sound(g: Geometry) {
    && 1024 <= g.blockSize < 0x1_0000 && g.blockSize % 4 == 0
    && 0 < g.blocksPerGroup <= 8 * g.blockSize
    && 0 < g.inodesPerGroup <= 8 * g.blockSize && g.inodesPerGroup % 8 == 0
    && 116 <= g.inodeSize
    && 0 < g.groupCount < 0x8000_0000
    && |g.blockBitmap| == |g.inodeBitmap| == |g.inodeTable| == g.groupCount
    && BitmapsDistinct(g)
    && NumbersFit(g)
    && (if g.blockSize == 1024 then 1 else 0) in g.fixed
  }

  /** Every block and inode number fits the `int` that the allocators return. */
  ghost predicate NumbersFit(g: Geometry) {
    forall k, group: nat, i: nat :: group < g.groupCount && i < PerGroup(g, k) ==> Number(g, k, group, i) < 0x8000_0000
  }

  ghost predicate BitmapsDistinct(g: Geometry)
    requires |g.blockBitmap| == |g.inodeBitmap| == g.groupCount
  {
    forall k, a: nat, l, b: nat ::
      a < g.groupCount && b < g.groupCount && BitmapBlock(g, k, a) == BitmapBlock(g, l, b) ==> k == l && a == b
  }

  /** Buffers have the block size and there is one descriptor a group. */
  ghost predicate Shape(g: Geometry, v: Volume) {
    && |v.freeBlocks| == |v.freeInodes| == g.groupCount
    && forall b :: b in v.disk ==> |v.disk[b]| == g.blockSize
  }

  // Numbering: (group, index) pairs and block or inode numbers are in bijection.

  /** Blocks count from `firstDataBlock`, inodes from 1. */
  function Base(g: Geometry, k: Kind): nat {
    if k.Blocks? then g.firstDataBlock else 1
  }

  function Number(g: Geometry, k: Kind, group: nat, i: nat): nat {
    Base(g, k) + Times(group, PerGroup(g, k)) + i
  }

  function GroupOf(g: Geometry, k: Kind, n: nat): nat
    requires n >= Base(g, k) && PerGroup(g, k) > 0
  {
    Quot(n - Base(g, k), PerGroup(g, k))
  }

  function IndexOf(g: Geometry, k: Kind, n: nat): nat
    requires n >= Base(g, k) && PerGroup(g, k) > 0
  {
    Rem(n - Base(g, k), PerGroup(g, k))
  }

  predicate Numbered(g: Geometry, k: Kind, n: nat)
    requires PerGroup(g, k) > 0
  {
    n >= Base(g, k) && GroupOf(g, k, n) < g.groupCount
  }

  lemma NumberLocates(g: Geometry, k: Kind, group: nat, i: nat)
    requires i < PerGroup(g, k)
    ensures GroupOf(g, k, Number(g, k, group, i)) == group && IndexOf(g, k, Number(g, k, group, i)) == i
  {
    QuotUnique(group, PerGroup(g, k), i);
  }

  lemma LocatedNumber(g: Geometry, k: Kind, n: nat)
    requires n >= Base(g, k) && PerGroup(g, k) > 0
    ensures Number(g, k, GroupOf(g, k, n), IndexOf(g, k, n)) == n && IndexOf(g, k, n) < PerGroup(g, k)
  {
    QuotRem(n - Base(g, k), PerGroup(g, k));
  }

  // The allocator

  /** The group tried in the given round; the sum is a 32-bit one. */
  function GroupAt(g: Geometry, preferred: u32, round: nat): (group: nat)
    requires g.groupCount > 0
    ensures group < g.groupCount
  {
    Rem(Wrap32(preferred + round), g.groupCount)
  }

  /** The bit the allocator settles on, searching from the given round on. */
  function Find(g: Geometry, v: Volume, k: Kind, preferred: u32, round: nat): (r: Option<(nat, nat)>)
    requires Sound(g) && Shape(g, v)
    ensures r.Some? ==>
      && r.value.0 < g.groupCount && r.value.1 < PerGroup(g, k)
      && BitmapBlock(g, k, r.value.0) in v.disk && Free(v, k)[r.value.0] > 0
      && !Bit(v.disk[BitmapBlock(g, k, r.value.0)], r.value.1)
    decreases g.groupCount - round
  {
    if round >= g.groupCount then None else
    var group := GroupAt(g, preferred, round);
    var bitmap := BitmapBlock(g, k, group);
    if Free(v, k)[group] == 0 || bitmap !in v.disk then Find(g, v, k, preferred, round + 1) else
    var i := FirstClear(v.disk[bitmap], 0, PerGroup(g, k));
    if i < PerGroup(g, k) then Some((group, i)) else Find(g, v, k, preferred, round + 1)
  }

  /** The volume with one bitmap block and its two counters replaced. */
  function WithBitmap(g: Geometry, v: Volume, k: Kind, group: nat, bm: seq<byte>, count: u16, sb: u32): (r: Volume)
    requires Sound(g) && Shape(g, v) && group < g.groupCount && |bm| == g.blockSize
    ensures Shape(g, r)
  {
    WithCounts(v.(disk := v.disk[BitmapBlock(g, k, group) := bm]), k, Free(v, k)[group := count], sb)
  }

  function Taken(g: Geometry, v: Volume, k: Kind, group: nat, i: nat): (r: Volume)
    requires Sound(g) && Shape(g, v) && group < g.groupCount && i < PerGroup(g, k)
    requires BitmapBlock(g, k, group) in v.disk
    ensures Shape(g, r)
  {
    WithBitmap(g, v, k, group, SetBit(v.disk[BitmapBlock(g, k, group)], i),
               Wrap16((Free(v, k)[group] as int) - 1), Wrap32((SbFree(v, k) as int) - 1))
  }

  function Given(g: Geometry, v: Volume, k: Kind, group: nat, i: nat): (r: Volume)
    requires Sound(g) && Shape(g, v) && group < g.groupCount && i < PerGroup(g, k)
    requires BitmapBlock(g, k, group) in v.disk
    ensures Shape(g, r)
  {
    WithBitmap(g, v, k, group, ClearBit(v.disk[BitmapBlock(g, k, group)], i),
               Wrap16((Free(v, k)[group] as int) + 1), Wrap32((SbFree(v, k) as int) + 1))
  }

  /** Allocate: the new volume and the number handed out, or the old volume and nothing. */
  function Alloc(g: Geometry, v: Volume, k: Kind, preferred: u32): (r: (Volume, Option<nat>))
    requires Sound(g) && Shape(g, v)
    ensures Shape(g, r.0)
  {
    match Find(g, v, k, preferred, 0)
    case None => (v, None)
    case Some((group, i)) => (Taken(g, v, k, group, i), Some(Number(g, k, group, i)))
  }

  /** Free a number; `None` is the driver's error return. */
  function Release(g: Geometry, v: Volume, k: Kind, n: nat): (r: Option<Volume>)
    requires Sound(g) && Shape(g, v)
    ensures r.Some? ==> Shape(g, r.value)
  {
    if !Numbered(g, k, n) || BitmapBlock(g, k, GroupOf(g, k, n)) !in v.disk then None else
    LocatedNumber(g, k, n);
    Some(Given(g, v, k, GroupOf(g, k, n), IndexOf(g, k, n)))
  }

  // Bitmaps and counters agree

  predicate InUse(g: Geometry, v: Volume, k: Kind, group: nat, i: nat)
    requires Sound(g) && Shape(g, v) && group < g.groupCount && i < PerGroup(g, k)
    requires BitmapBlock(g, k, group) in v.disk
  {
    Bit(v.disk[BitmapBlock(g, k, group)], i)
  }

  ghost predicate BitmapsOnDisk(g: Geometry, v: Volume)
    requires Sound(g)
  {
    forall k, group: nat :: group < g.groupCount ==> BitmapBlock(g, k, group) in v.disk
  }

  function Sum(s: seq<u16>): nat {
    if s == [] then 0 else s[0] + Sum(s[1..])
  }

  /** Each group's free count is its number of clear bits and the superblock's is their sum. */
  ghost predicate CountsAgree(g: Geometry, v: Volume)
    requires Sound(g)
  {
    && Shape(g, v)
    && BitmapsOnDisk(g, v)
    && (forall k, group: nat :: group < g.groupCount ==>
          Free(v, k)[group] == CountClear(v.disk[BitmapBlock(g, k, group)], PerGroup(g, k)))
    && forall k :: SbFree(v, k) == Sum(Free(v, k))
  }

  lemma {:induction false} SumUpdate(s: seq<u16>, i: nat, x: u16)
    requires i < |s|
    ensures Sum(s[i := x]) == Sum(s) - s[i] + x
  {
    if i == 0 {
      assert s[i := x][1..] == s[1..];
    } else {
      SumUpdate(s[1..], i - 1, x);
      assert s[i := x][1..] == s[1..][i - 1 := x];
    }
  }

  lemma {:induction false} SumAtLeast(s: seq<u16>, i: nat)
    requires i < |s|
    ensures s[i] <= Sum(s)
  {
    if i > 0 {
      SumAtLeast(s[1..], i - 1);
    }
  }

  lemma WithBitmapAgrees(g: Geometry, v: Volume, k: Kind, group: nat, bm: seq<byte>, count: u16, sb: u32)
    requires Sound(g) && CountsAgree(g, v) && group < g.groupCount && |bm| == g.blockSize
    requires count == CountClear(bm, PerGroup(g, k)) && sb == SbFree(v, k) - Free(v, k)[group] + count
    ensures CountsAgree(g, WithBitmap(g, v, k, group, bm, count, sb))
  {
    hide NumbersFit, CountClear, Sum;
    var w := WithBitmap(g, v, k, group, bm, count, sb);
    SumUpdate(Free(v, k), group, count);
    forall l, other: nat | other < g.groupCount
      ensures BitmapBlock(g, l, other) in w.disk
      ensures Free(w, l)[other] == CountClear(w.disk[BitmapBlock(g, l, other)], PerGroup(g, l))
    {
      if l == k && other == group {
      } else {
        assert BitmapBlock(g, l, other) != BitmapBlock(g, k, group);
        assert Free(w, l)[other] == Free(v, l)[other];
      }
    }
  }

  lemma TakenAgrees(g: Geometry, v: Volume, k: Kind, group: nat, i: nat)
    requires Sound(g) && CountsAgree(g, v) && group < g.groupCount && i < PerGroup(g, k)
    requires !InUse(g, v, k, group, i)
    ensures CountsAgree(g, Taken(g, v, k, group, i))
  {
    hide NumbersFit, BitmapsDistinct, CountClear, Sum, SetBit;
    var bm := v.disk[BitmapBlock(g, k, group)];
    CountClearSet(bm, i, PerGroup(g, k));
    SumAtLeast(Free(v, k), group);
    WithBitmapAgrees(g, v, k, group, SetBit(bm, i), Free(v, k)[group] - 1, SbFree(v, k) - 1);
  }

  /** Freeing keeps the agreement as long as neither counter is at its top value. */
  lemma GivenAgrees(g: Geometry, v: Volume, k: Kind, group: nat, i: nat)
    requires Sound(g) && CountsAgree(g, v) && group < g.groupCount && i < PerGroup(g, k)
    requires InUse(g, v, k, group, i)
    requires Free(v, k)[group] < 0xFFFF && SbFree(v, k) < 0xFFFF_FFFF
    ensures CountsAgree(g, Given(g, v, k, group, i))
  {
    hide NumbersFit, BitmapsDistinct, CountClear, Sum, SetBit, ClearBit;
    var bm := v.disk[BitmapBlock(g, k, group)];
    SetClear(bm, i);
    CountClearSet(ClearBit(bm, i), i, PerGroup(g, k));
    WithBitmapAgrees(g, v, k, group, ClearBit(bm, i), Free(v, k)[group] + 1, SbFree(v, k) + 1);
  }

  /** Freeing what was just allocated restores the volume, bit for bit and count for count. */
  lemma ReleaseUndoesAlloc(g: Geometry, v: Volume, k: Kind, preferred: u32)
    requires Sound(g) && CountsAgree(g, v)
    requires Alloc(g, v, k, preferred).1.Some?
    ensures Release(g, Alloc(g, v, k, preferred).0, k, Alloc(g, v, k, preferred).1.value) == Some(v)
  {
    var (group, i) := Find(g, v, k, preferred, 0).value;
    SumAtLeast(Free(v, k), group);
    TakenReleased(g, v, k, group, i);
  }

  lemma TakenReleased(g: Geometry, v: Volume, k: Kind, group: nat, i: nat)
    requires Sound(g) && Shape(g, v) && group < g.groupCount && i < PerGroup(g, k)
    requires BitmapBlock(g, k, group) in v.disk && !InUse(g, v, k, group, i)
    requires Free(v, k)[group] > 0 && SbFree(v, k) > 0
    ensures Release(g, Taken(g, v, k, group, i), k, Number(g, k, group, i)) == Some(v)
  {
    var bm := v.disk[BitmapBlock(g, k, group)];
    NumberLocates(g, k, group, i);
    SetClear(bm, i);
    var count, sb := Free(v, k)[group] - 1, SbFree(v, k) - 1;
    var w := WithBitmap(g, v, k, group, SetBit(bm, i), count, sb);
    assert w == Taken(g, v, k, group, i);
    assert w.disk[BitmapBlock(g, k, group)] == SetBit(bm, i);
    var u := WithBitmap(g, w, k, group, bm, count + 1, sb + 1);
    assert u == Given(g, w, k, group, i);
    assert u.disk == v.disk;
    assert Free(u, k) == Free(v, k);
  }

  // Allocation fails only when it must

  lemma {:induction false} FindVisits(g: Geometry, v: Volume, k: Kind, preferred: u32, round: nat, later: nat)
    requires Sound(g) && CountsAgree(g, v) && round <= later < g.groupCount
    requires Find(g, v, k, preferred, round).None?
    ensures Free(v, k)[GroupAt(g, preferred, later)] == 0
    decreases later - round
  {
    var group := GroupAt(g, preferred, round);
    CountClearZero(v.disk[BitmapBlock(g, k, group)], PerGroup(g, k));
    if round < later {
      FindVisits(g, v, k, preferred, round + 1, later);
    }
  }

  ghost predicate Reached(g: Geometry, preferred: u32, group: nat)
    requires g.groupCount > 0
  {
    exists round: nat :: round < g.groupCount && GroupAt(g, preferred, round) == group
  }

  /**
   * The rounds reach every group exactly when the 32-bit sum `preferred + round` does not
   * wrap, or wraps harmlessly because the group count divides 2^32.
   */
  lemma RoundsCover(g: Geometry, preferred: u32)
    requires 0 < g.groupCount < 0x1_0000_0000
    ensures (forall group: nat :: group < g.groupCount ==> Reached(g, preferred, group))
       <==> (preferred + g.groupCount <= 0x1_0000_0000 || Rem(0x1_0000_0000, g.groupCount) == 0)
  {
    var n := g.groupCount;
    if preferred + n <= 0x1_0000_0000 || Rem(0x1_0000_0000, n) == 0 {
      forall group: nat | group < n
        ensures Reached(g, preferred, group)
      {
        RoundReaches(g, preferred, group);
      }
    } else {
      var missed := RoundMisses(g, preferred);
    }
  }

  lemma RoundReaches(g: Geometry, preferred: u32, group: nat)
    requires group < g.groupCount < 0x1_0000_0000
    requires preferred + g.groupCount <= 0x1_0000_0000 || Rem(0x1_0000_0000, g.groupCount) == 0
    ensures Reached(g, preferred, group)
  {
    var n := g.groupCount;
    var q, r := Quot(preferred, n), Rem(preferred, n);
    QuotRem(preferred, n);
    var round := if r <= group then group - r else group - r + n;
    var sum := preferred + round;
    if r <= group {
      QuotUnique(q, n, group);
    } else {
      assert sum == Times(q + 1, n) + group;
      QuotUnique(q + 1, n, group);
    }
    assert Rem(sum, n) == group;
    if sum >= 0x1_0000_0000 {
      var low := sum - 0x1_0000_0000;
      AddMultiple(0x1_0000_0000, low, n);
      assert Wrap32(sum) == low;
    }
    assert GroupAt(g, preferred, round) == group;
  }

  lemma {:induction false} AddMultiple(m: nat, x: nat, d: nat)
    requires d > 0 && Rem(m, d) == 0
    ensures Rem(m + x, d) == Rem(x, d)
  {
    if m >= d {
      AddMultiple(m - d, x, d);
    }
  }

  lemma RoundMisses(g: Geometry, preferred: u32) returns (missed: nat)
    requires 0 < g.groupCount < 0x1_0000_0000
    requires preferred + g.groupCount > 0x1_0000_0000 && Rem(0x1_0000_0000, g.groupCount) != 0
    ensures missed < g.groupCount && !Reached(g, preferred, missed)
  {
    var n := g.groupCount;
    var q, r := Quot(0x1_0000_0000, n), Rem(0x1_0000_0000, n);
    QuotRem(0x1_0000_0000, n);
    var k := 0x1_0000_0000 - preferred;  // rounds before the wrap
    missed := if r >= k then n - 1 else n + r - k - 1;
    forall round: nat | round < n
      ensures GroupAt(g, preferred, round) != missed
    {
      var sum := preferred + round;
      if round >= k {
        assert Wrap32(sum) == round - k;
      } else {
        assert Wrap32(sum) == sum == Times(q, n) + r - k + round;
        if r - k + round >= 0 {
          QuotUnique(q, n, r - k + round);
        } else {
          assert sum == Times(q - 1, n) + (n + r - k + round);
          QuotUnique(q - 1, n, n + r - k + round);
        }
      }
    }
  }

  lemma {:induction false} FindReached(g: Geometry, v: Volume, k: Kind, preferred: u32, round: nat)
    requires Sound(g) && Shape(g, v) && round <= g.groupCount && Find(g, v, k, preferred, round).Some?
    ensures Reached(g, preferred, Find(g, v, k, preferred, round).value.0)
    decreases g.groupCount - round
  {
    if round < g.groupCount {
      var group := GroupAt(g, preferred, round);
      assert Reached(g, preferred, group);
      if Find(g, v, k, preferred, round) == Find(g, v, k, preferred, round + 1) {
        FindReached(g, v, k, preferred, round + 1);
      }
    }
  }

  /** Whatever group is preferred, allocation fails exactly when no group that the rounds reach has a clear bit. */
  lemma AllocFailsExactly(g: Geometry, v: Volume, k: Kind, preferred: u32)
    requires Sound(g) && CountsAgree(g, v)
    ensures Alloc(g, v, k, preferred).1.None? <==>
      forall group: nat, i: nat :: group < g.groupCount && i < PerGroup(g, k) && Reached(g, preferred, group) ==>
        InUse(g, v, k, group, i)
  {
    if Alloc(g, v, k, preferred).1.None? {
      forall group: nat, i: nat | group < g.groupCount && i < PerGroup(g, k) && Reached(g, preferred, group)
        ensures InUse(g, v, k, group, i)
      {
        var round: nat :| round < g.groupCount && GroupAt(g, preferred, round) == group;
        FindVisits(g, v, k, preferred, 0, round);
        CountClearZero(v.disk[BitmapBlock(g, k, group)], PerGroup(g, k));
      }
    } else {
      FindReached(g, v, k, preferred, 0);
      var (group, i) := Find(g, v, k, preferred, 0).value;
      assert !InUse(g, v, k, group, i);
    }
  }

  /**
   * Where the rounds cover the groups, a failed allocation means that the volume is full; the driver
   * prefers the group of an inode, for which they do.
   */
  lemma AllocFailsOnlyWhenFull(g: Geometry, v: Volume, k: Kind, preferred: u32)
    requires Sound(g) && CountsAgree(g, v)
    requires preferred + g.groupCount <= 0x1_0000_0000 || Rem(0x1_0000_0000, g.groupCount) == 0
    ensures Alloc(g, v, k, preferred).1.None? <==>
      forall group: nat, i: nat :: group < g.groupCount && i < PerGroup(g, k) ==> InUse(g, v, k, group, i)
  {
    AllocFailsExactly(g, v, k, preferred);
    RoundsCover(g, preferred);
  }

  lemma {:induction false} SumOfZeros(s: seq<u16>)
    requires forall i :: 0 <= i < |s| ==> s[i] == 0
    ensures Sum(s) == 0
  {
    if s != [] {
      SumOfZeros(s[1..]);
    }
  }

  /** Preferring an existing group, allocation succeeds if and only if the superblock counts something free. */
  lemma AllocCounts(g: Geometry, v: Volume, k: Kind, preferred: u32)
    requires Sound(g) && CountsAgree(g, v) && preferred < g.groupCount
    ensures
      var (w, n) := Alloc(g, v, k, preferred);
      && (n.Some? <==> SbFree(v, k) > 0)
      && (n.Some? ==> SbFree(w, k) == SbFree(v, k) - 1)
      && forall l :: l != k ==> SbFree(w, l) == SbFree(v, l)
  {
    hide NumbersFit, BitmapsDistinct, CountClear, Sum, SetBit, FirstClear;
    if Alloc(g, v, k, preferred).1.None? {
      forall group: nat | group < g.groupCount
        ensures Free(v, k)[group] == 0
      {
        RoundReaches(g, preferred, group);
        var round: nat :| round < g.groupCount && GroupAt(g, preferred, round) == group;
        FindVisits(g, v, k, preferred, 0, round);
      }
      SumOfZeros(Free(v, k));
    } else {
      SumAtLeast(Free(v, k), Find(g, v, k, preferred, 0).value.0);
    }
  }

  /** The round at which a group is tried when no sum wraps, counting from group `start`. */
  function Ahead(g: Geometry, start: nat, group: nat): int {
    if group >= start then group - start else group + g.groupCount - start
  }

  lemma GroupAtIs(g: Geometry, preferred: u32, round: nat)
    requires 0 < g.groupCount && round < g.groupCount && preferred + g.groupCount <= 0x1_0000_0000
    ensures
      var start := Rem(preferred, g.groupCount);
      && GroupAt(g, preferred, round) == (if start + round < g.groupCount then start + round else start + round - g.groupCount)
      && Ahead(g, start, GroupAt(g, preferred, round)) == round
  {
    hide Rem;
    RemAhead(preferred, g.groupCount, round);
  }

  lemma {:induction false} RemAhead(x: nat, d: nat, k: nat)
    requires k < d
    ensures Rem(x + k, d) == if Rem(x, d) + k < d then Rem(x, d) + k else Rem(x, d) + k - d
  {
    if x >= d {
      RemAhead(x - d, d, k);
      assert x + k - d == x - d + k;
    }
  }

  /** What the search settles on, and that every group tried before has nothing free. */
  lemma {:induction false} FindFirst(g: Geometry, v: Volume, k: Kind, preferred: u32, round: nat) returns (last: nat)
    requires Sound(g) && CountsAgree(g, v) && round <= g.groupCount && Find(g, v, k, preferred, round).Some?
    ensures
      var (group, i) := Find(g, v, k, preferred, round).value;
      && round <= last < g.groupCount && group == GroupAt(g, preferred, last)
      && (forall j: nat :: j < i ==> InUse(g, v, k, group, j))
      && forall r: nat :: round <= r < last ==> Free(v, k)[GroupAt(g, preferred, r)] == 0
    decreases g.groupCount - round
  {
    hide NumbersFit, BitmapsDistinct, CountClear, Sum;
    var group := GroupAt(g, preferred, round);
    CountClearZero(v.disk[BitmapBlock(g, k, group)], PerGroup(g, k));
    if Free(v, k)[group] == 0 {
      last := FindFirst(g, v, k, preferred, round + 1);
    } else {
      last := round;
    }
  }

  /**
   * `n` is free; the numbers before it in its group are taken, and every group that comes before its own,
   * in cyclic order from group `start`, is full.
   */
  ghost predicate FirstFree(g: Geometry, v: Volume, k: Kind, start: nat, n: nat)
    requires Sound(g) && Shape(g, v)
  {
    && BitmapsOnDisk(g, v) && Numbered(g, k, n) && IndexOf(g, k, n) < PerGroup(g, k)
    && !InUse(g, v, k, GroupOf(g, k, n), IndexOf(g, k, n))
    && (forall j: nat :: j < IndexOf(g, k, n) ==> InUse(g, v, k, GroupOf(g, k, n), j))
    && forall group: nat, j: nat ::
         (group < g.groupCount && j < PerGroup(g, k) && Ahead(g, start, group) < Ahead(g, start, GroupOf(g, k, n))) ==>
           InUse(g, v, k, group, j)
  }

  /** The number handed out is the first free one, counting from the preferred group. */
  lemma AllocTakesFirst(g: Geometry, v: Volume, k: Kind, preferred: u32)
    requires Sound(g) && CountsAgree(g, v) && preferred + g.groupCount <= 0x1_0000_0000
    requires Alloc(g, v, k, preferred).1.Some?
    ensures FirstFree(g, v, k, Rem(preferred, g.groupCount), Alloc(g, v, k, preferred).1.value)
  {
    hide NumbersFit, BitmapsDistinct, CountClear, Sum, SetBit, FirstClear, Quot, Rem;
    var (chosen, i) := Find(g, v, k, preferred, 0).value;
    NumberLocates(g, k, chosen, i);
    var last := FindFirst(g, v, k, preferred, 0);
    GroupAtIs(g, preferred, last);
    var start := Rem(preferred, g.groupCount);
    forall group: nat, j: nat | group < g.groupCount && j < PerGroup(g, k) &&
      Ahead(g, start, group) < Ahead(g, start, chosen)
      ensures InUse(g, v, k, group, j)
    {
      GroupAtIs(g, preferred, Ahead(g, start, group));
      CountClearZero(v.disk[BitmapBlock(g, k, group)], PerGroup(g, k));
    }
  }

  /** If the preferred group exists and has room, the least clear number of that group is handed out. */
  lemma PreferredFirst(g: Geometry, v: Volume, k: Kind, preferred: u32, i: nat)
    requires Sound(g) && CountsAgree(g, v) && preferred < g.groupCount && i < PerGroup(g, k)
    requires !InUse(g, v, k, preferred, i) && forall j: nat :: j < i ==> InUse(g, v, k, preferred, j)
    ensures Alloc(g, v, k, preferred).1 == Some(Number(g, k, preferred, i))
  {
    hide NumbersFit, BitmapsDistinct, CountClear, Sum, SetBit, FirstClear, InUse;
    AllocFailsOnlyWhenFull(g, v, k, preferred);
    AllocTakesFirst(g, v, k, preferred);
    LocatedNumber(g, k, Alloc(g, v, k, preferred).1.value);
    assert Rem(preferred, g.groupCount) == preferred;
  }

  /**
   * Freeing succeeds exactly for the numbers that exist; it clears that number's bit and no other, and
   * counts it in its group and in the superblock.
   */
  lemma ReleaseExactly(g: Geometry, v: Volume, k: Kind, n: nat)
    requires Sound(g) && CountsAgree(g, v)
    ensures Release(g, v, k, n).Some? <==> Numbered(g, k, n)
    ensures Numbered(g, k, n) ==>
      var w, group := Release(g, v, k, n).value, GroupOf(g, k, n);
      && w.disk.Keys == v.disk.Keys
      && (forall l, h: nat, j: nat :: h < g.groupCount && j < PerGroup(g, l) ==>
            BitmapBlock(g, l, h) in w.disk &&
            (InUse(g, w, l, h, j) <==> InUse(g, v, l, h, j) && !(l == k && Number(g, l, h, j) == n)))
      && (v.sbFreeBlocks < 0xFFFF_FFFF && v.sbFreeInodes < 0xFFFF_FFFF ==> SbFree(w, k) == SbFree(v, k) + 1)
      && (Free(v, k)[group] < 0xFFFF ==> Free(w, k) == Free(v, k)[group := Free(v, k)[group] + 1])
  {
    hide NumbersFit, CountClear, Sum, ClearBit, Bit, Quot, Rem, Times;
    if Numbered(g, k, n) {
      LocatedNumber(g, k, n);
      var w, group, i := Release(g, v, k, n).value, GroupOf(g, k, n), IndexOf(g, k, n);
      forall l, h: nat, j: nat | h < g.groupCount && j < PerGroup(g, l)
        ensures BitmapBlock(g, l, h) in w.disk
        ensures InUse(g, w, l, h, j) <==> InUse(g, v, l, h, j) && !(l == k && Number(g, l, h, j) == n)
      {
        if l == k {
          NumberLocates(g, l, h, j);
        }
        if l == k && h == group {
          ClearBitAt(v.disk[BitmapBlock(g, k, group)], i, j);
        } else {
          assert BitmapBlock(g, l, h) != BitmapBlock(g, k, group);
        }
      }
    }
  }

  /** Three groups with only the last one free: preferring 2^32 - 1 finds nothing. */
  lemma WrapMissesAFreeGroup(g: Geometry, v: Volume)
    requires Sound(g) && CountsAgree(g, v) && g.groupCount == 3
    requires v.freeBlocks[0] == v.freeBlocks[1] == 0 < v.freeBlocks[2]
    ensures Alloc(g, v, Blocks, 0x1_0000_0000 - 1).1.None?
    ensures Alloc(g, v, Blocks, 2).1.Some?
  {
    var p: u32 := 0x1_0000_0000 - 1;
    QuotIs(p, 3);
    QuotIs(0, 3);
    QuotIs(1, 3);
    QuotIs(2, 3);
    assert GroupAt(g, p, 0) == 0 && GroupAt(g, p, 1) == 0 && GroupAt(g, p, 2) == 1;
    assert Find(g, v, Blocks, p, 3).None?;
    assert Find(g, v, Blocks, p, 2).None?;
    assert Find(g, v, Blocks, p, 1).None?;
    CountClearZero(v.disk[BitmapBlock(g, Blocks, 2)], g.blocksPerGroup);
    assert GroupAt(g, 2, 0) == 2;
  }

  // Runs of the two allocators

  datatype BitOp = TakeOne(k: Kind, preferred: u32) | GiveBack(k: Kind, n: nat)

  /** A number may be given back when it is in use and its counters have room. */
  ghost predicate MayRun(g: Geometry, v: Volume, op: BitOp)
    requires Sound(g) && CountsAgree(g, v)
  {
    op.GiveBack? ==>
      && Numbered(g, op.k, op.n)
      && (LocatedNumber(g, op.k, op.n); InUse(g, v, op.k, GroupOf(g, op.k, op.n), IndexOf(g, op.k, op.n)))
      && Free(v, op.k)[GroupOf(g, op.k, op.n)] < 0xFFFF && SbFree(v, op.k) < 0xFFFF_FFFF
  }

  function RunOne(g: Geometry, v: Volume, op: BitOp): (w: Volume)
    requires Sound(g) && Shape(g, v)
    ensures Shape(g, w)
  {
    match op
    case TakeOne(k, preferred) => Alloc(g, v, k, preferred).0
    case GiveBack(k, n) =>
      match Release(g, v, k, n)
      case None => v
      case Some(w) => w
  }

  lemma RunOneAgrees(g: Geometry, v: Volume, op: BitOp)
    requires Sound(g) && CountsAgree(g, v) && MayRun(g, v, op)
    ensures CountsAgree(g, RunOne(g, v, op))
  {
    match op
    case TakeOne(k, preferred) =>
      if Alloc(g, v, k, preferred).1.Some? {
        var (group, i) := Find(g, v, k, preferred, 0).value;
        TakenAgrees(g, v, k, group, i);
      }
    case GiveBack(k, n) =>
      LocatedNumber(g, k, n);
      GivenAgrees(g, v, k, GroupOf(g, k, n), IndexOf(g, k, n));
  }

  /** The volumes met when the operations run one after the other, each being allowed in its turn. */
  ghost predicate BitTrace(g: Geometry, vs: seq<Volume>, ops: seq<BitOp>)
    requires Sound(g)
  {
    && |vs| == |ops| + 1
    && (forall i :: 0 <= i < |vs| ==> Shape(g, vs[i]))
    && forall i :: 0 <= i < |ops| ==>
         (CountsAgree(g, vs[i]) ==> MayRun(g, vs[i], ops[i])) && vs[i + 1] == RunOne(g, vs[i], ops[i])
  }

  /** Bitmaps and counters agree at every point of every run of allocations and releases. */
  lemma {:induction false} BitRunAgrees(g: Geometry, vs: seq<Volume>, ops: seq<BitOp>, i: nat)
    requires Sound(g) && BitTrace(g, vs, ops) && CountsAgree(g, vs[0]) && i <= |ops|
    ensures CountsAgree(g, vs[i])
  {
    if i > 0 {
      BitRunAgrees(g, vs, ops, i - 1);
      RunOneAgrees(g, vs[i - 1], ops[i - 1]);
      assert vs[i - 1 + 1] == RunOne(g, vs[i - 1], ops[i - 1]);
    }
  }
}
