/** Inode records, the file-block map, and who owns which block. */
module Ext4Map {
  import opened Bytes
  import opened Arith
  import opened Bitmap
  import opened Ext4Alloc

  type Disk = map<nat, seq<byte>>

  /** `sizeof(struct ext4_inode)` */
  const RECORD_BYTES := 116

  /** An inode record is the packed C structure itself; its fields sit at fixed offsets. */
  type Record = s: seq<byte> | |s| == 116 witness Zeros(116)

  function Mode(r: Record): u16 { U16(r, 0) }
  function Size(r: Record): u32 { U32(r, 4) }
  function WithMode(r: Record, x: u16): Record { PutU16(r, 0, x) }
  function WithSize(r: Record, x: u32): Record { PutU32(r, 4, x) }
  function Mtime(r: Record): u32 { U32(r, 16) }
  function WithMtime(r: Record, x: u32): Record { PutU32(r, 16, x) }
  function WithLinks(r: Record, x: u16): Record { PutU16(r, 26, x) }
  function Links(r: Record): u16 { U16(r, 26) }
  function Sectors(r: Record): u32 { U32(r, 28) }
  function WithSectors(r: Record, x: u32): Record { PutU32(r, 28, x) }

  const IND := 12
  const DIND := 13

  /** `i_block[i]` */
  function Pointer(r: Record, i: nat): u32
    requires i < 15
  {
    U32(r, 40 + 4 * i)
  }

  function WithPointer(r: Record, i: nat, x: u32): Record
    requires i < 15
  {
    PutU32(r, 40 + 4 * i, x)
  }

  /** The mode's bit `EXT4_S_IFDIR` is set. */
  predicate IsDirMode(mode: u16) { mode / 0x4000 % 2 == 1 }

  predicate IsDir(r: Record) { IsDirMode(Mode(r)) }

  /** Where the fields of a record sit, least significant byte first. */
  lemma RecordLayout(r: Record, i: nat)
    requires i < 15
    ensures Mode(r) == Little(r[0..2]) && Links(r) == Little(r[26..28]) && Size(r) == Little(r[4..8])
    ensures Mtime(r) == Little(r[16..20]) && Sectors(r) == Little(r[28..32])
    ensures Pointer(r, i) == Little(r[40 + 4 * i..44 + 4 * i])
  {
    LittleFields(r, 0);
    LittleFields(r, 4);
    LittleFields(r, 16);
    LittleFields(r, 26);
    LittleFields(r, 28);
    LittleFields(r, 40 + 4 * i);
  }

  /** The two records differ in nothing but their pointers. */
  ghost predicate OnlyPointers(r: Record, q: Record) {
    forall i: nat :: i < 40 || 100 <= i < 116 ==> q[i] == r[i]
  }

  lemma PointerFrame(r: Record, i: nat, x: u32)
    requires i < 15
    ensures OnlyPointers(r, WithPointer(r, i, x))
    ensures forall j: nat :: j < 15 ==> Pointer(WithPointer(r, i, x), j) == if j == i then x else Pointer(r, j)
    ensures Size(WithPointer(r, i, x)) == Size(r) && Mode(WithPointer(r, i, x)) == Mode(r)
  {
    PutU32Slots(r, 40, i, x);
  }

  lemma ScalarFrame(r: Record, x: u32, y: u16)
    ensures forall j: nat :: j < 15 ==>
      Pointer(WithSize(r, x), j) == Pointer(WithMtime(r, x), j) == Pointer(WithSectors(r, x), j)
      == Pointer(WithLinks(r, y), j) == Pointer(r, j)
    ensures Mode(WithSize(r, x)) == Mode(WithMtime(r, x)) == Mode(WithSectors(r, x)) == Mode(WithLinks(r, y)) == Mode(r)
    ensures Size(WithMtime(r, x)) == Size(WithSectors(r, x)) == Size(WithLinks(r, y)) == Size(r)
  {
  }

  // Routes: where in the block map a file block's pointer lives

  datatype Route = Direct(i: nat) | Single(i: nat) | Double(i: nat, j: nat) | Beyond

  function PerBlock(g: Geometry): nat { g.blockSize / 4 }

  predicate RouteOk(g: Geometry, t: Route) {
    match t
    case Direct(i) => i < 12
    case Single(i) => i < PerBlock(g)
    case Double(i, j) => i < PerBlock(g) && j < PerBlock(g)
    case Beyond => false
  }

  function DoubleRoute(rest: nat, n: nat): (t: Route)
    requires n > 0
    ensures t.Beyond? || (t.Double? && t.i < n && t.j < n && rest == Times(t.i, n) + t.j)
  {
    if rest < Times(n, n) then
      QuotBelow(rest, n, n);
      QuotRem(rest, n);
      Double(Quot(rest, n), Rem(rest, n))
    else Beyond
  }

  function RouteOf(g: Geometry, fb: nat): (t: Route)
    requires Sound(g)
    ensures t.Beyond? || RouteOk(g, t)
  {
    var n := PerBlock(g);
    if fb < 12 then Direct(fb)
    else if fb - 12 < n then Single(fb - 12)
    else DoubleRoute(fb - 12 - n, n)
  }

  /** No two file blocks share a pointer slot. */
  lemma RouteInjective(g: Geometry, a: nat, b: nat)
    requires Sound(g) && RouteOf(g, a) == RouteOf(g, b) && !RouteOf(g, a).Beyond?
    ensures a == b
  {
  }

  ghost predicate Blocky(g: Geometry, disk: Disk) {
    forall b :: b in disk ==> |disk[b]| == g.blockSize
  }

  /** Entry `i` of the pointer block `b`; 0 where there is no such block. */
  function Slot(g: Geometry, disk: Disk, b: nat, i: nat): u32
    requires Blocky(g, disk)
  {
    if b == 0 || b !in disk || i >= PerBlock(g) then 0 else U32(disk[b], 4 * i)
  }

  function At(g: Geometry, disk: Disk, r: Record, t: Route): u32
    requires Blocky(g, disk)
  {
    match t
    case Direct(i) => if i < 12 then Pointer(r, i) else 0
    case Single(i) => Slot(g, disk, Pointer(r, IND), i)
    case Double(i, j) => Slot(g, disk, Slot(g, disk, Pointer(r, DIND), i), j)
    case Beyond => 0
  }

  /** `ext4_get_file_block`: the disk block holding a file block, 0 when unmapped. */
  function FileBlock(g: Geometry, disk: Disk, r: Record, fb: nat): u32
    requires Sound(g) && Blocky(g, disk)
  {
    At(g, disk, r, RouteOf(g, fb))
  }

  /** A pointer block's entry as the driver reads it. */
  function EntryOf(disk: Disk, b: nat, i: nat, n: nat): nat
    requires i < n && forall x :: x in disk ==> |disk[x]| >= 4 * n
  {
    if b == 0 || b !in disk then 0 else U32(disk[b], 4 * i)
  }

  /**
   * File blocks 0 to 11 are the first twelve pointers; then come the entries of the block that pointer 12
   * names, in order, then those of the blocks that the entries of pointer 13's block name.
   */
  lemma FileBlockIs(g: Geometry, disk: Disk, r: Record, i: nat, j: nat)
    requires Sound(g) && Blocky(g, disk)
    ensures i < 12 ==> FileBlock(g, disk, r, i) == U32(r, 40 + 4 * i)
    ensures
      var n := g.blockSize / 4;
      && (i < n ==> FileBlock(g, disk, r, 12 + i) == EntryOf(disk, U32(r, 88), i, n))
      && (i < n && j < n ==>
            FileBlock(g, disk, r, 12 + n + Times(i, n) + j) == EntryOf(disk, EntryOf(disk, U32(r, 92), i, n), j, n))
      && (i >= Times(n, n) ==> FileBlock(g, disk, r, 12 + n + i) == 0)
  {
    hide NumbersFit, BitmapsDistinct, Quot, Rem;
    var n: nat := PerBlock(g);
    if i < n && j < n {
      QuotUnique(i, n, j);
      TimesMonotone(i + 1, n, n);
    }
  }

  // Ownership

  /** Every place in an inode's block tree that can name a block. */
  datatype Pos = Leaf(t: Route) | Ind | Dind | Mid(i: nat)

  function PosBlock(g: Geometry, disk: Disk, r: Record, p: Pos): u32
    requires Blocky(g, disk)
  {
    match p
    case Leaf(t) => At(g, disk, r, t)
    case Ind => Pointer(r, IND)
    case Dind => Pointer(r, DIND)
    case Mid(i) => Slot(g, disk, Pointer(r, DIND), i)
  }

  datatype Owner =
    | Map(k: Kind, group: nat)
    | Table(group: nat, n: nat)
    | Fixed
    | File(ino: nat, pos: Pos)

  predicate IsLeaf(o: Owner) { o.File? && o.pos.Leaf? }

  /** The number of blocks in each group's inode table. */
  function TableLength(g: Geometry): nat
    requires Sound(g)
  {
    Quot(Times(g.inodesPerGroup - 1, g.inodeSize), g.blockSize) + 1
  }

  function TableBlock(g: Geometry, group: nat, n: nat): nat
    requires Sound(g) && group < g.groupCount
  {
    g.inodeTable[group] + n
  }

  /** The allocation bit of block or inode number `n` is set. */
  predicate Marked(g: Geometry, v: Volume, k: Kind, n: nat)
    requires Sound(g) && Shape(g, v) && Numbered(g, k, n)
  {
    LocatedNumber(g, k, n);
    var b := BitmapBlock(g, k, GroupOf(g, k, n));
    b in v.disk && Bit(v.disk[b], IndexOf(g, k, n))
  }

  /** The block can never be handed out: it lies outside the groups or its bit is set. */
  predicate Reserved(g: Geometry, v: Volume, b: nat)
    requires Sound(g) && Shape(g, v)
  {
    !Numbered(g, Blocks, b) || Marked(g, v, Blocks, b)
  }

  ghost predicate MetaOwned(g: Geometry, own: map<nat, Owner>)
    requires Sound(g)
  {
    && (forall k, group: nat :: group < g.groupCount ==>
          BitmapBlock(g, k, group) in own && own[BitmapBlock(g, k, group)] == Map(k, group))
    && (forall group: nat, n: nat :: group < g.groupCount && n < TableLength(g) ==>
          TableBlock(g, group, n) in own && own[TableBlock(g, group, n)] == Table(group, n))
    && (forall b :: b in g.fixed ==> b in own && own[b] == Fixed)
  }

  ghost predicate FilesOwned(g: Geometry, disk: Disk, own: map<nat, Owner>, recs: map<nat, Record>)
    requires Blocky(g, disk)
  {
    forall ino, p :: ino in recs && PosBlock(g, disk, recs[ino], p) != 0 ==>
      PosBlock(g, disk, recs[ino], p) in own && own[PosBlock(g, disk, recs[ino], p)] == File(ino, p)
  }

  /** Blocks of files lie inside the groups, where each has a bit. */
  ghost predicate FilesNumbered(g: Geometry, own: map<nat, Owner>)
    requires Sound(g)
  {
    forall b :: b in own && own[b].File? ==> Numbered(g, Blocks, b)
  }

  /**
   * `own` names the one owner of every block in use: the metadata blocks and every block that
   * a live inode's record reaches. As `own` is a map, no block has two owners.
   */
  ghost predicate Owned(g: Geometry, v: Volume, own: map<nat, Owner>, recs: map<nat, Record>)
    requires Sound(g)
  {
    && Shape(g, v)
    && MetaOwned(g, own)
    && FilesOwned(g, v.disk, own, recs)
    && (forall b :: b in own ==> b in v.disk && Reserved(g, v, b))
    && FilesNumbered(g, own)
    && Reserved(g, v, 0)
    && (forall b: nat :: !Reserved(g, v, b) ==> b in v.disk)
  }

  /** Ownership and counters both in order. */
  ghost predicate Coherent(g: Geometry, v: Volume, own: map<nat, Owner>, recs: map<nat, Record>)
    requires Sound(g)
  {
    Owned(g, v, own, recs) && CountsAgree(g, v)
  }

  /** Writing a block that is not a pointer block leaves every block tree as it was. */
  lemma TreesKept(g: Geometry, disk: Disk, own: map<nat, Owner>, recs: map<nat, Record>, w: nat, c: seq<byte>,
                  ino: nat, p: Pos)
    requires Blocky(g, disk) && FilesOwned(g, disk, own, recs) && ino in recs
    requires w in disk && |c| == g.blockSize && (w !in own || !own[w].File? || IsLeaf(own[w]))
    ensures PosBlock(g, disk[w := c], recs[ino], p) == PosBlock(g, disk, recs[ino], p)
  {
    var r := recs[ino];
    var ind, dind := PosBlock(g, disk, r, Ind), PosBlock(g, disk, r, Dind);
    match p
    case Leaf(Double(i, j)) =>
      var mid := PosBlock(g, disk, r, Mid(i));
      assert mid == Slot(g, disk[w := c], dind, i);
    case _ =>
  }

  lemma {:induction false} StoreKeepsOwned(g: Geometry, v: Volume, own: map<nat, Owner>, recs: map<nat, Record>,
                                           w: nat, c: seq<byte>)
    requires Sound(g) && Owned(g, v, own, recs)
    requires w in v.disk && |c| == g.blockSize
    requires w !in own || IsLeaf(own[w]) || own[w].Table? || (own[w].Map? && own[w].k.Inodes?)
    ensures Owned(g, v.(disk := v.disk[w := c]), own, recs)
    ensures forall ino, p :: ino in recs ==>
      PosBlock(g, v.disk[w := c], recs[ino], p) == PosBlock(g, v.disk, recs[ino], p)
  {
    var u := v.(disk := v.disk[w := c]);
    forall ino, p | ino in recs
      ensures PosBlock(g, u.disk, recs[ino], p) == PosBlock(g, v.disk, recs[ino], p)
    {
      TreesKept(g, v.disk, own, recs, w, c, ino, p);
    }
    forall b: nat
      ensures Reserved(g, u, b) == Reserved(g, v, b)
    {
      if Numbered(g, Blocks, b) {
        assert BitmapBlock(g, Blocks, GroupOf(g, Blocks, b)) != w;
      }
    }
  }

  // Allocation and ownership

  /** A block that a caller may put under a new owner. */
  ghost predicate Adoptable(g: Geometry, v: Volume, own: map<nat, Owner>, b: nat)
    requires Sound(g) && Shape(g, v)
  {
    0 < b < 0x8000_0000 && b !in own && b in v.disk && Numbered(g, Blocks, b) && Reserved(g, v, b)
  }

  /** Taking a bit marks that number and leaves every other mark, and every other block, alone. */
  lemma TakenMarks(g: Geometry, v: Volume, k: Kind, group: nat, i: nat)
    requires Sound(g) && Shape(g, v) && BitmapsOnDisk(g, v) && group < g.groupCount && i < PerGroup(g, k)
    ensures forall l, n :: Numbered(g, l, n) ==>
      Marked(g, Taken(g, v, k, group, i), l, n) == (Marked(g, v, l, n) || (l == k && n == Number(g, k, group, i)))
    ensures Numbered(g, k, Number(g, k, group, i))
  {
    var w := Taken(g, v, k, group, i);
    var it := Number(g, k, group, i);
    NumberLocates(g, k, group, i);
    forall l, n | Numbered(g, l, n)
      ensures Marked(g, w, l, n) == (Marked(g, v, l, n) || (l == k && n == it))
    {
      LocatedNumber(g, l, n);
      if l == k && GroupOf(g, l, n) == group {
        SetBitAt(v.disk[BitmapBlock(g, k, group)], i, IndexOf(g, l, n));
      } else {
        assert BitmapBlock(g, l, GroupOf(g, l, n)) != BitmapBlock(g, k, group);
      }
    }
  }

  /** Of the blocks with an owner, only allocation bitmaps of kind `k` differ between the two disks. */
  ghost predicate OnlyMaps(k: Kind, own: map<nat, Owner>, d: Disk, e: Disk) {
    d.Keys == e.Keys &&
    forall b :: b in d && b in own && d[b] != e[b] ==> own[b].Map? && own[b].k == k
  }

  lemma TakenBlockOwned(g: Geometry, v: Volume, own: map<nat, Owner>, recs: map<nat, Record>, group: nat, i: nat)
    requires Sound(g) && Owned(g, v, own, recs) && BitmapsOnDisk(g, v)
    requires group < g.groupCount && i < g.blocksPerGroup
    ensures
      var w := Taken(g, v, Blocks, group, i);
      && Owned(g, w, own, recs) && OnlyMaps(Blocks, own, v.disk, w.disk)
      && forall ino, p :: ino in recs ==> PosBlock(g, w.disk, recs[ino], p) == PosBlock(g, v.disk, recs[ino], p)
  {
    TakenMarks(g, v, Blocks, group, i);
    var w := Taken(g, v, Blocks, group, i);
    var b := BitmapBlock(g, Blocks, group);
    forall ino, p | ino in recs
      ensures PosBlock(g, w.disk, recs[ino], p) == PosBlock(g, v.disk, recs[ino], p)
    {
      TreesKept(g, v.disk, own, recs, b, w.disk[b], ino, p);
    }
  }

  /** An allocated block is on the disk, nonzero and had no owner; all ownership stays as it was. */
  lemma AllocBlockOwned(g: Geometry, v: Volume, own: map<nat, Owner>, recs: map<nat, Record>, preferred: u32)
    requires Sound(g) && Coherent(g, v, own, recs)
    requires Alloc(g, v, Blocks, preferred).1.Some?
    ensures
      var (w, n) := Alloc(g, v, Blocks, preferred);
      && Coherent(g, w, own, recs)
      && OnlyMaps(Blocks, own, v.disk, w.disk)
      && (forall ino, p :: ino in recs ==> PosBlock(g, w.disk, recs[ino], p) == PosBlock(g, v.disk, recs[ino], p))
      && Adoptable(g, w, own, n.value) && !Reserved(g, v, n.value)
      && forall b: nat :: Reserved(g, v, b) ==> Reserved(g, w, b)
  {
    var (group, i) := Find(g, v, Blocks, preferred, 0).value;
    NumberLocates(g, Blocks, group, i);
    TakenAgrees(g, v, Blocks, group, i);
    TakenBlockOwned(g, v, own, recs, group, i);
    TakenMarks(g, v, Blocks, group, i);
  }

  lemma AllocInodeOwned(g: Geometry, v: Volume, own: map<nat, Owner>, recs: map<nat, Record>, preferred: u32)
    requires Sound(g) && Coherent(g, v, own, recs)
    requires Alloc(g, v, Inodes, preferred).1.Some?
    ensures
      var (w, n) := Alloc(g, v, Inodes, preferred);
      && Coherent(g, w, own, recs)
      && OnlyMaps(Inodes, own, v.disk, w.disk)
      && (forall ino, p :: ino in recs ==> PosBlock(g, w.disk, recs[ino], p) == PosBlock(g, v.disk, recs[ino], p))
      && 0 < n.value < 0x8000_0000 && Numbered(g, Inodes, n.value) && !Marked(g, v, Inodes, n.value)
      && forall m :: Numbered(g, Inodes, m) ==>
           Marked(g, w, Inodes, m) == (m == n.value || Marked(g, v, Inodes, m))
  {
    hide PosBlock, CountsAgree, CountClear;
    var (group, i) := Find(g, v, Inodes, preferred, 0).value;
    var (w, n) := Alloc(g, v, Inodes, preferred);
    NumberLocates(g, Inodes, group, i);
    TakenAgrees(g, v, Inodes, group, i);
    TakenMarks(g, v, Inodes, group, i);
    var b := BitmapBlock(g, Inodes, group);
    StoreKeepsOwned(g, v, own, recs, b, w.disk[b]);
  }

  // Mapping a block into a file

  /** A write the device accepts only for blocks it has. */
  function Stored(disk: Disk, b: nat, c: seq<byte>): Disk {
    if b in disk then disk[b := c] else disk
  }

  /**
   * `ext4_set_file_block`: record `nb` as the disk block of file block `fb`, allocating and
   * zeroing the indirect block first where there is none. Double-indirect slots are refused.
   */
  function SetFileBlock(g: Geometry, v: Volume, r: Record, fb: nat, nb: nat, group: u32): (s: (Volume, Record, bool))
    requires Sound(g) && Shape(g, v)
    ensures Shape(g, s.0)
  {
    match RouteOf(g, fb)
    case Direct(i) => (v, WithPointer(r, i, Wrap32(nb)), true)
    case Single(i) =>
      if Pointer(r, IND) != 0 then SetInBlock(g, v, r, Pointer(r, IND), i, nb) else
      var (w, ib) := Alloc(g, v, Blocks, group);
      if ib.None? then (v, r, false) else
      SetInBlock(g, w.(disk := Stored(w.disk, ib.value, Zeros(g.blockSize))),
                 WithPointer(r, IND, Wrap32(ib.value)), Wrap32(ib.value), i, nb)
    case _ => (v, r, false)
  }

  function SetInBlock(g: Geometry, v: Volume, r: Record, ind: nat, i: nat, nb: nat): (s: (Volume, Record, bool))
    requires Sound(g) && Shape(g, v) && i < PerBlock(g)
    ensures Shape(g, s.0)
  {
    if ind !in v.disk then (v, r, false)
    else (v.(disk := v.disk[ind := PutU32(v.disk[ind], 4 * i, Wrap32(nb))]), r, true)
  }

  /** The blocks whose bytes a change of block map must not touch. */
  predicate Payload(o: Owner) {
    IsLeaf(o) || o.Table? || (o.Map? && o.k.Inodes?)
  }

  ghost predicate PayloadKept(own: map<nat, Owner>, d: Disk, e: Disk) {
    d.Keys == e.Keys && forall b :: b in d && b in own && Payload(own[b]) ==> e[b] == d[b]
  }

  /** Inode tables and inode bitmaps are the same on both disks. */
  ghost predicate InodesKept(own: map<nat, Owner>, d: Disk, e: Disk) {
    d.Keys == e.Keys &&
    forall b :: b in d && b in own && !own[b].File? && Payload(own[b]) ==> e[b] == d[b]
  }

  ghost predicate Extends(own: map<nat, Owner>, own2: map<nat, Owner>) {
    forall b :: b in own ==> b in own2 && own2[b] == own[b]
  }

  /**
   * From `(d, recs)` to `(e, recs2)` the block map has changed only in that slot `t` of inode
   * `ino` now names `nb`, besides possibly gaining an indirect block.
   */
  ghost predicate MapsOneMore(g: Geometry, d: Disk, recs: map<nat, Record>, e: Disk, recs2: map<nat, Record>,
                              ino: nat, t: Route, nb: nat)
    requires Blocky(g, d) && Blocky(g, e) && ino in recs
  {
    && recs2.Keys == recs.Keys
    && (forall i :: i in recs && i != ino ==> recs2[i] == recs[i])
    && (forall i, p :: i in recs && (i != ino || (p != Leaf(t) && p != Ind)) ==>
          PosBlock(g, e, recs2[i], p) == PosBlock(g, d, recs[i], p))
    && PosBlock(g, e, recs2[ino], Leaf(t)) == nb
    && Size(recs2[ino]) == Size(recs[ino]) && Mode(recs2[ino]) == Mode(recs[ino]) && OnlyPointers(recs[ino], recs2[ino])
  }

  /** Ownership after one block has been given a new owner and the block trees changed to match. */
  lemma Adopted(g: Geometry, v: Volume, own: map<nat, Owner>, recs: map<nat, Record>,
                w: Volume, recs2: map<nat, Record>, b: nat, o: Owner)
    requires Sound(g) && Owned(g, v, own, recs) && Adoptable(g, v, own, b)
    requires Shape(g, w) && w.disk.Keys == v.disk.Keys
    requires forall x: nat :: Reserved(g, w, x) == Reserved(g, v, x)
    requires forall ino, p :: ino in recs2 && PosBlock(g, w.disk, recs2[ino], p) != 0 ==>
      || (PosBlock(g, w.disk, recs2[ino], p) == b && o == File(ino, p))
      || (ino in recs && PosBlock(g, w.disk, recs2[ino], p) == PosBlock(g, v.disk, recs[ino], p))
    ensures Owned(g, w, own[b := o], recs2)
  {
    var own2 := own[b := o];
    assert MetaOwned(g, own2);
    assert FilesOwned(g, w.disk, own2, recs2);
  }

  lemma AdoptDirect(g: Geometry, v: Volume, own: map<nat, Owner>, recs: map<nat, Record>, ino: nat, i: nat, nb: nat)
    requires Sound(g) && Owned(g, v, own, recs) && Adoptable(g, v, own, nb) && ino in recs && i < 12
    ensures
      var recs2 := recs[ino := WithPointer(recs[ino], i, nb)];
      && Owned(g, v, own[nb := File(ino, Leaf(Direct(i)))], recs2)
      && MapsOneMore(g, v.disk, recs, v.disk, recs2, ino, Direct(i), nb)
  {
    hide FilesNumbered, MetaOwned, NumbersFit, BitmapsDistinct;
    PointerFrame(recs[ino], i, nb);
    var recs2 := recs[ino := WithPointer(recs[ino], i, nb)];
    Adopted(g, v, own, recs, v, recs2, nb, File(ino, Leaf(Direct(i))));
  }

  lemma AdoptSingle(g: Geometry, v: Volume, own: map<nat, Owner>, recs: map<nat, Record>, ino: nat, i: nat, nb: nat)
    requires Sound(g) && Owned(g, v, own, recs) && Adoptable(g, v, own, nb) && ino in recs && i < PerBlock(g)
    requires Pointer(recs[ino], IND) != 0
    ensures
      var (w, r, ok) := SetInBlock(g, v, recs[ino], Pointer(recs[ino], IND), i, nb);
      && ok && r == recs[ino]
      && Owned(g, w, own[nb := File(ino, Leaf(Single(i)))], recs)
      && MapsOneMore(g, v.disk, recs, w.disk, recs, ino, Single(i), nb)
      && w == v.(disk := w.disk) && PayloadKept(own, v.disk, w.disk) && w.disk[nb] == v.disk[nb]
  {
    var ind := Pointer(recs[ino], IND);
    assert ind == PosBlock(g, v.disk, recs[ino], Ind);
    var (w, r, ok) := SetInBlock(g, v, recs[ino], ind, i, nb);
    PutU32Slots(v.disk[ind], 0, i, nb);
    forall j, p | j in recs && (j != ino || p != Leaf(Single(i)))
      ensures PosBlock(g, w.disk, recs[j], p) == PosBlock(g, v.disk, recs[j], p)
    {
      SlotWrite(g, v, own, recs, ino, i, nb, j, p);
    }
    forall b: nat
      ensures Reserved(g, w, b) == Reserved(g, v, b)
    {
      if Numbered(g, Blocks, b) {
        assert BitmapBlock(g, Blocks, GroupOf(g, Blocks, b)) != ind;
      }
    }
    Adopted(g, v, own, recs, w, recs, nb, File(ino, Leaf(Single(i))));
  }

  /** Rewriting one entry of `ino`'s indirect block moves no other position of any inode. */
  lemma SlotWrite(g: Geometry, v: Volume, own: map<nat, Owner>, recs: map<nat, Record>, ino: nat, i: nat, nb: u32,
                  j: nat, p: Pos)
    requires Sound(g) && Owned(g, v, own, recs) && ino in recs && i < PerBlock(g)
    requires Pointer(recs[ino], IND) != 0 && Pointer(recs[ino], IND) in v.disk
    requires j in recs && (j != ino || p != Leaf(Single(i)))
    ensures
      var ind := Pointer(recs[ino], IND);
      PosBlock(g, v.disk[ind := PutU32(v.disk[ind], 4 * i, nb)], recs[j], p) == PosBlock(g, v.disk, recs[j], p)
  {
    hide MetaOwned, FilesNumbered, Reserved, NumbersFit, BitmapsDistinct;
    var ind := PosBlock(g, v.disk, recs[ino], Ind);
    var r := recs[j];
    PutU32Slots(v.disk[ind], 0, i, nb);
    assert PosBlock(g, v.disk, r, Ind) == ind ==> j == ino;
    assert PosBlock(g, v.disk, r, Dind) != ind;
    match p
    case Leaf(Double(a, b)) => assert PosBlock(g, v.disk, r, Mid(a)) != ind;
    case _ =>
  }

  /** Giving an inode a fresh, zeroed indirect block maps nothing new. */
  lemma AdoptInd(g: Geometry, v: Volume, own: map<nat, Owner>, recs: map<nat, Record>, ino: nat, ib: nat)
    requires Sound(g) && Owned(g, v, own, recs) && Adoptable(g, v, own, ib) && ino in recs
    requires Pointer(recs[ino], IND) == 0
    ensures
      var w := v.(disk := v.disk[ib := Zeros(g.blockSize)]);
      var recs2 := recs[ino := WithPointer(recs[ino], IND, ib)];
      && Owned(g, w, own[ib := File(ino, Ind)], recs2)
      && (forall b: nat :: Reserved(g, w, b) == Reserved(g, v, b))
      && forall j, p :: j in recs && (j != ino || p != Ind) ==>
           PosBlock(g, w.disk, recs2[j], p) == PosBlock(g, v.disk, recs[j], p)
  {
    StoreKeepsOwned(g, v, own, recs, ib, Zeros(g.blockSize));
    PointerFrame(recs[ino], IND, ib);
    var w := v.(disk := v.disk[ib := Zeros(g.blockSize)]);
    var recs2 := recs[ino := WithPointer(recs[ino], IND, ib)];
    forall j, p | j in recs && (j != ino || p != Ind)
      ensures PosBlock(g, w.disk, recs2[j], p) == PosBlock(g, v.disk, recs[j], p)
    {
      assert PosBlock(g, w.disk, recs[j], p) == PosBlock(g, v.disk, recs[j], p);
      if j == ino && p.Leaf? && p.t.Single? {
        assert Slot(g, w.disk, ib, p.t.i) == 0;
      }
    }
    forall b: nat
      ensures Reserved(g, w, b) == Reserved(g, v, b)
    {
      if Numbered(g, Blocks, b) {
        assert BitmapBlock(g, Blocks, GroupOf(g, Blocks, b)) != ib;
      }
    }
    Adopted(g, v, own, recs, w, recs2, ib, File(ino, Ind));
  }

  /** What a successful change of block map leaves behind. */
  ghost predicate Remapped(g: Geometry, v: Volume, own: map<nat, Owner>, recs: map<nat, Record>, ino: nat, t: Route,
                           nb: nat,
                           w: Volume, own2: map<nat, Owner>, recs2: map<nat, Record>)
    requires Sound(g) && Shape(g, v) && Shape(g, w) && ino in recs
  {
    && Coherent(g, w, own2, recs2)
    && MapsOneMore(g, v.disk, recs, w.disk, recs2, ino, t, nb)
    && Extends(own, own2) && nb in own2 && own2[nb] == File(ino, Leaf(t))
    && PayloadKept(own, v.disk, w.disk)
    && nb in v.disk && nb in w.disk && w.disk[nb] == v.disk[nb]
  }

  lemma PointerBlockWriteAgrees(g: Geometry, v: Volume, own: map<nat, Owner>, b: nat, w: Volume)
    requires Sound(g) && CountsAgree(g, v) && MetaOwned(g, own) && Shape(g, w)
    requires b !in own || !own[b].Map?
    requires w == v.(disk := w.disk) && w.disk.Keys == v.disk.Keys
    requires forall x :: x in v.disk && x != b ==> w.disk[x] == v.disk[x]
    ensures CountsAgree(g, w)
  {
    forall k, group: nat | group < g.groupCount
      ensures BitmapBlock(g, k, group) in w.disk
      ensures Free(w, k)[group] == CountClear(w.disk[BitmapBlock(g, k, group)], PerGroup(g, k))
    {
      assert BitmapBlock(g, k, group) != b;
    }
    assert forall k :: Free(w, k) == Free(v, k) && SbFree(w, k) == SbFree(v, k);
  }

  lemma RemapSingle(g: Geometry, v: Volume, own: map<nat, Owner>, recs: map<nat, Record>, ino: nat, i: nat, nb: nat)
    requires Sound(g) && Coherent(g, v, own, recs)
    requires Adoptable(g, v, own, nb) && ino in recs && i < PerBlock(g) && Pointer(recs[ino], IND) != 0
    ensures
      var (w, r, ok) := SetInBlock(g, v, recs[ino], Pointer(recs[ino], IND), i, nb);
      && ok && r == recs[ino]
      && Remapped(g, v, own, recs, ino, Single(i), nb, w, own[nb := File(ino, Leaf(Single(i)))], recs)
  {
    AdoptSingle(g, v, own, recs, ino, i, nb);
    var ind := PosBlock(g, v.disk, recs[ino], Ind);
    PointerBlockWriteAgrees(g, v, own, ind, SetInBlock(g, v, recs[ino], ind, i, nb).0);
  }

  /** The first half of mapping through a new indirect block: allocate it, zero it, hook it up. */
  lemma NewInd(g: Geometry, v: Volume, own: map<nat, Owner>, recs: map<nat, Record>, ino: nat, nb: nat, group: u32)
    returns (z: Volume, own1: map<nat, Owner>, recs1: map<nat, Record>)
    requires Sound(g) && Coherent(g, v, own, recs)
    requires ino in recs && Adoptable(g, v, own, nb)
    requires Pointer(recs[ino], IND) == 0 && Alloc(g, v, Blocks, group).1.Some?
    ensures
      var (w, ib) := Alloc(g, v, Blocks, group);
      && z == w.(disk := Stored(w.disk, ib.value, Zeros(g.blockSize)))
      && ib.value < 0x8000_0000 && recs1 == recs[ino := WithPointer(recs[ino], IND, ib.value)]
      && Pointer(recs1[ino], IND) == ib.value != 0
    ensures Coherent(g, z, own1, recs1) && Extends(own, own1)
    ensures Adoptable(g, z, own1, nb) && z.disk[nb] == v.disk[nb] && PayloadKept(own, v.disk, z.disk)
    ensures forall j, p :: j in recs && (j != ino || p != Ind) ==>
      PosBlock(g, z.disk, recs1[j], p) == PosBlock(g, v.disk, recs[j], p)
    ensures Size(recs1[ino]) == Size(recs[ino]) && Mode(recs1[ino]) == Mode(recs[ino]) && OnlyPointers(recs[ino], recs1[ino])
  {
    hide CountsAgree, NumbersFit, FilesNumbered, FilesOwned;
    AllocBlockOwned(g, v, own, recs, group);
    var (w, some) := Alloc(g, v, Blocks, group);
    var ib := some.value;
    AdoptInd(g, w, own, recs, ino, ib);
    PointerFrame(recs[ino], IND, ib);
    z := w.(disk := w.disk[ib := Zeros(g.blockSize)]);
    own1 := own[ib := File(ino, Ind)];
    recs1 := recs[ino := WithPointer(recs[ino], IND, ib)];
    PointerBlockWriteAgrees(g, w, own, ib, z);
  }

  /**
   * After a successful `SetFileBlock` the file block maps to `nb` and every other slot of every
   * inode maps as before, also when an indirect block had to be allocated; a failed one changes
   * nothing.
   */
  lemma SetFileBlockMaps(g: Geometry, v: Volume, own: map<nat, Owner>, recs: map<nat, Record>,
                         ino: nat, fb: nat, nb: nat, group: u32) returns (own2: map<nat, Owner>)
    requires Sound(g) && Coherent(g, v, own, recs)
    requires ino in recs && Adoptable(g, v, own, nb)
    ensures
      var (w, r, ok) := SetFileBlock(g, v, recs[ino], fb, nb, group);
      && (!ok ==> w == v && r == recs[ino])
      && (ok ==> Remapped(g, v, own, recs, ino, RouteOf(g, fb), nb, w, own2, recs[ino := r]))
  {
    own2 := own[nb := File(ino, Leaf(RouteOf(g, fb)))];
    var r := recs[ino];
    assert recs[ino := r] == recs;
    match RouteOf(g, fb)
    case Direct(i) =>
      AdoptDirect(g, v, own, recs, ino, i, nb);
    case Single(i) =>
      if Pointer(r, IND) != 0 {
        RemapSingle(g, v, own, recs, ino, i, nb);
      } else if Alloc(g, v, Blocks, group).1.Some? {
        own2 := SetThroughNewInd(g, v, own, recs, ino, fb, nb, group);
      }
    case _ =>
  }

  lemma SetThroughNewInd(g: Geometry, v: Volume, own: map<nat, Owner>, recs: map<nat, Record>,
                         ino: nat, fb: nat, nb: nat, group: u32) returns (own2: map<nat, Owner>)
    requires Sound(g) && Coherent(g, v, own, recs)
    requires ino in recs && Adoptable(g, v, own, nb) && RouteOf(g, fb).Single?
    requires Pointer(recs[ino], IND) == 0 && Alloc(g, v, Blocks, group).1.Some?
    ensures
      var (w, r, ok) := SetFileBlock(g, v, recs[ino], fb, nb, group);
      ok && Remapped(g, v, own, recs, ino, RouteOf(g, fb), nb, w, own2, recs[ino := r])
  {
    var i := RouteOf(g, fb).i;
    var z, own1, recs1 := NewInd(g, v, own, recs, ino, nb, group);
    RemapSingle(g, z, own1, recs1, ino, i, nb);
    own2 := own1[nb := File(ino, Leaf(Single(i)))];
    var x := SetInBlock(g, z, recs1[ino], Pointer(recs1[ino], IND), i, nb).0;
    RemapAfter(g, v, own, recs, z, own1, recs1, ino, Single(i), nb, x, own2, recs1);
  }

  lemma RemapAfter(g: Geometry, v: Volume, own: map<nat, Owner>, recs: map<nat, Record>,
                   z: Volume, own1: map<nat, Owner>, recs1: map<nat, Record>, ino: nat, t: Route, nb: nat,
                   x: Volume, own2: map<nat, Owner>, recs2: map<nat, Record>)
    requires Sound(g) && Shape(g, v) && Shape(g, z) && Shape(g, x) && ino in recs && recs1.Keys == recs.Keys
    requires Remapped(g, z, own1, recs1, ino, t, nb, x, own2, recs2)
    requires Extends(own, own1) && PayloadKept(own, v.disk, z.disk) && nb in v.disk && z.disk[nb] == v.disk[nb]
    requires forall j :: j in recs && j != ino ==> recs1[j] == recs[j]
    requires forall j, p :: j in recs && (j != ino || p != Ind) ==>
      PosBlock(g, z.disk, recs1[j], p) == PosBlock(g, v.disk, recs[j], p)
    requires Size(recs1[ino]) == Size(recs[ino]) && Mode(recs1[ino]) == Mode(recs[ino]) && OnlyPointers(recs[ino], recs1[ino])
    ensures Remapped(g, v, own, recs, ino, t, nb, x, own2, recs2)
  {
  }
}
