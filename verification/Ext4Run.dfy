/** The volume invariant, and what creating and writing do to it over whole runs. */
module Ext4Run {
  import opened Wrappers
  import opened Bytes
  import opened Arith
  import opened Ext4Alloc
  import opened Ext4Map
  import opened Ext4Inode
  import opened Ext4File
  import opened Ext4Dir
  import opened Ext4Create
  import opened Ext4Cost

  ghost predicate AllDirsOk(g: Geometry, v: Volume)
    requires Sound(g) && Shape(g, v)
  {
    forall j :: j in Records(g, v) && IsDir(Records(g, v)[j]) ==> DirOk(g, v.disk, Records(g, v)[j])
  }

  /** Ownership and counters are in order. */
  ghost predicate Ordered(g: Geometry, v: Volume)
    requires Sound(g)
  {
    Shape(g, v) && exists own :: Coherent(g, v, own, Records(g, v))
  }

  /** What holds of a volume between calls of the driver. */
  ghost predicate Inv(g: Geometry, v: Volume)
    requires Sound(g)
  {
    Ordered(g, v) && AllDirsOk(g, v)
  }

  /** No block has two owners, and none in use is free or holds metadata. */
  lemma OwnershipExclusive(g: Geometry, v: Volume, i: nat, p: Pos, j: nat, q: Pos)
    requires Sound(g) && RecordsTile(g) && Ordered(g, v)
    requires Live(g, v, i) && Live(g, v, j)
    ensures i in Records(g, v) && j in Records(g, v)
    ensures
      var b := PosBlock(g, v.disk, Records(g, v)[i], p);
      b != 0 ==>
        && b in v.disk && Numbered(g, Blocks, b) && Marked(g, v, Blocks, b)
        && (PosBlock(g, v.disk, Records(g, v)[j], q) == b ==> i == j && p == q)
        && (forall k, group: nat :: group < g.groupCount ==> b != BitmapBlock(g, k, group))
        && (forall group: nat, n: nat :: group < g.groupCount && n < TableLength(g) ==> b != TableBlock(g, group, n))
        && b !in g.fixed
  {
    hide CountsAgree, PosBlock, Records, Live, AllDirsOk, NumbersFit, BitmapsDistinct;
    var own :| Coherent(g, v, own, Records(g, v));
    LiveRecorded(g, v, own, i);
    LiveRecorded(g, v, own, j);
  }

  /** Directories that were kept, and the one that was changed properly, are all well formed. */
  lemma DirsKept(g: Geometry, v: Volume, w: Volume, but: set<nat>)
    requires Sound(g) && Shape(g, v) && Shape(g, w) && AllDirsOk(g, v) && KeptBut(g, v, w, but)
    requires forall j :: j in Records(g, w) && j !in Records(g, v) ==> j in but
    requires forall j :: j in Records(g, w) && j in but && IsDir(Records(g, w)[j]) ==> DirOk(g, w.disk, Records(g, w)[j])
    ensures AllDirsOk(g, w)
  {
    hide Records, SameFile, DirOk, IsDir;
    forall j | j in Records(g, w) && IsDir(Records(g, w)[j])
      ensures DirOk(g, w.disk, Records(g, w)[j])
    {
      if j !in but {
        SameFileSameDir(g, v.disk, Records(g, v)[j], w.disk, Records(g, w)[j]);
      }
    }
  }

  // Writing

  /** Byte `i` as it will be once `bytes` have been written at `off`. */
  function ByteAfter(g: Geometry, disk: Disk, r: Record, off: nat, bytes: seq<byte>, i: nat): byte
    requires Sound(g) && Blocky(g, disk)
  {
    CellAfter(g, CellAt(g, disk, r, i), off, bytes, i).GetOr(0)
  }

  /** File block `b` as it will be then. */
  function BlockAfter(g: Geometry, disk: Disk, r: Record, off: nat, bytes: seq<byte>, b: nat): (s: seq<byte>)
    requires Sound(g) && Blocky(g, disk)
    ensures |s| == g.blockSize
    ensures forall k: nat :: k < |s| ==> s[k] == ByteAfter(g, disk, r, off, bytes, Times(b, g.blockSize) + k)
  {
    seq<byte>(g.blockSize, k requires 0 <= k < g.blockSize => ByteAfter(g, disk, r, off, bytes, Times(b, g.blockSize) + k))
  }

  /**
   * A directory stays one when `bytes` are written at `off`: its new size is a whole number of blocks,
   * and every block below it that is mapped or written will be tiled.
   */
  predicate DirStays(g: Geometry, disk: Disk, r: Record, off: nat, bytes: seq<byte>)
    requires Sound(g) && Blocky(g, disk)
  {
    var size := if off + |bytes| > Size(r) then off + |bytes| else Size(r);
    && Rem(size, g.blockSize) == 0
    && forall b: nat :: b < Quot(size, g.blockSize) && (FileBlock(g, disk, r, b) != 0 || Reaches(g, off, |bytes|, b)) ==>
         Tiled(BlockAfter(g, disk, r, off, bytes, b), 0)
  }

  /** The blocks of a file after a write, foreseen. */
  lemma BlockForeseen(g: Geometry, v: Volume, own: map<nat, Owner>, ino: nat, w: Volume, own2: map<nat, Owner>,
                      off: nat, bytes: seq<byte>, b: nat)
    requires Sound(g) && Shape(g, v) && Shape(g, w) && Coherent(g, v, own, Records(g, v)) && ino in Records(g, v)
    requires FileWritten(g, v, own, ino, w, own2, off, bytes)
    ensures
      var r, q := Records(g, v)[ino], Records(g, w)[ino];
      var d := FileBlock(g, w.disk, q, b);
      && (d != 0 <==> FileBlock(g, v.disk, r, b) != 0 || Reaches(g, off, |bytes|, b))
      && (d != 0 ==> d in w.disk && w.disk[d] == BlockAfter(g, v.disk, r, off, bytes, b))
  {
    hide Coherent, Records, FileBlock, CellAt, SameFile, Live, NumbersFit, BitmapsDistinct, Quot, Rem, Times;
    var r, q := Records(g, v)[ino], Records(g, w)[ino];
    var d, at := FileBlock(g, w.disk, q, b), Times(b, g.blockSize);
    MappedCell(g, v, own, Records(g, v), ino, b, 0);
    MappedCell(g, w, own2, Records(g, w), ino, b, 0);
    QuotUnique(b, g.blockSize, 0);
    InRangeReached(g, off, |bytes|, at + 0);
    forall k: nat | k < g.blockSize
      ensures d != 0 ==> d in w.disk && |w.disk[d]| == g.blockSize
      ensures CellAt(g, w.disk, q, at + k) == (if d == 0 then None else Some(w.disk[d][k]))
    {
      MappedCell(g, w, own2, Records(g, w), ino, b, k);
    }
    assert CellAt(g, w.disk, q, at + 0) == CellAfter(g, CellAt(g, v.disk, r, at + 0), off, bytes, at + 0);
    if d != 0 {
      var s := BlockAfter(g, v.disk, r, off, bytes, b);
      forall k: nat | k < g.blockSize
        ensures w.disk[d][k] == s[k]
      {
        assert CellAt(g, w.disk, q, at + k) == CellAfter(g, CellAt(g, v.disk, r, at + k), off, bytes, at + k);
      }
      assert w.disk[d] == s;
    }
  }

  lemma DirStaysExactly(g: Geometry, v: Volume, own: map<nat, Owner>, ino: nat, w: Volume, own2: map<nat, Owner>,
                        off: nat, bytes: seq<byte>)
    requires Sound(g) && Shape(g, v) && Shape(g, w) && Coherent(g, v, own, Records(g, v)) && ino in Records(g, v)
    requires FileWritten(g, v, own, ino, w, own2, off, bytes)
    ensures DirOk(g, w.disk, Records(g, w)[ino]) <==> DirStays(g, v.disk, Records(g, v)[ino], off, bytes)
  {
    hide Coherent, Records, FileBlock, CellAt, CellAfter, SameFile, Live, NumbersFit, BitmapsDistinct, Quot, Rem,
         BlockAfter, Reaches, Tiled;
    forall b: nat
      ensures
        var r, q := Records(g, v)[ino], Records(g, w)[ino];
        var d := FileBlock(g, w.disk, q, b);
        && (d != 0 <==> FileBlock(g, v.disk, r, b) != 0 || Reaches(g, off, |bytes|, b))
        && (d != 0 ==> d in w.disk && w.disk[d] == BlockAfter(g, v.disk, r, off, bytes, b))
    {
      BlockForeseen(g, v, own, ino, w, own2, off, bytes, b);
    }
  }

  /** The bytes that a write of `buf` will write. */
  function ToWrite(g: Geometry, v: Volume, r: Record, off: nat, buf: seq<byte>): seq<byte>
    requires Sound(g) && Shape(g, v)
  {
    buf[..CountFor(g, v, r, off, |buf|)]
  }

  /**
   * A write keeps ownership and counters in order whatever it writes to, and directories too if and
   * only if, should it write to a directory, the bytes it will write leave that one well formed.
   */
  lemma WriteKeepsInv(g: Geometry, v: Volume, ino: nat, buf: seq<byte>, off: nat)
    requires Sound(g) && RecordsTile(g) && Ordered(g, v)
    requires ino in Records(g, v) && off + |buf| < 0x1_0000_0000
    ensures
      var w, r := WriteFile(g, v, ino, buf, off).0, Records(g, v)[ino];
      && Ordered(g, w)
      && (AllDirsOk(g, v) ==> (Inv(g, w) <==> (IsDir(r) ==> DirStays(g, v.disk, r, off, ToWrite(g, v, r, off, buf)))))
  {
    hide Coherent, Records, SameFile, CellAt, CellAfter, WriteFile, IsDir, DirOk, DirStays, CountFor;
    var own :| Coherent(g, v, own, Records(g, v));
    var own2 := WriteFileWrites(g, v, own, ino, buf, off);
    WriteFileCounts(g, v, own, ino, buf, off);
    var w, r := WriteFile(g, v, ino, buf, off).0, Records(g, v)[ino];
    DirStaysExactly(g, v, own, ino, w, own2, off, ToWrite(g, v, r, off, buf));
    SameModeSameKind(r, Records(g, w)[ino]);
    if AllDirsOk(g, v) && (IsDir(r) ==> DirOk(g, w.disk, Records(g, w)[ino])) {
      DirsKept(g, v, w, {ino});
    }
  }

  lemma SameModeSameKind(r: Record, q: Record)
    requires Mode(q) == Mode(r)
    ensures IsDir(q) == IsDir(r)
  {
  }

  /** Reading back what a write reported as written yields exactly those bytes. */
  lemma ReadBack(g: Geometry, v: Volume, ino: nat, buf: seq<byte>, off: nat)
    requires Sound(g) && RecordsTile(g) && Ordered(g, v)
    requires ino in Records(g, v) && off + |buf| < 0x1_0000_0000
    ensures
      var (w, n) := WriteFile(g, v, ino, buf, off);
      n.Some? && n.value <= |buf| && ReadFile(g, w.disk, ino, off, n.value) == Some(buf[..n.value])
  {
    hide Coherent, Records, RecordAt, Addressable, SameFile, CellAt, WriteFile, ReadRecord;
    var own :| Coherent(g, v, own, Records(g, v));
    var own2 := WriteFileWrites(g, v, own, ino, buf, off);
    var (w, n) := WriteFile(g, v, ino, buf, off);
    RecordFound(g, w, ino);
    var bytes := buf[..n.value];
    assert forall k: nat :: k < |bytes| ==> CellAt(g, w.disk, Records(g, w)[ino], off + k) == Some(bytes[k]);
    ReadsMapped(g, w.disk, Records(g, w)[ino], off, bytes);
  }

  /** Every byte of the file outside the written range that could be read before still reads the same. */
  lemma BytesOutsideKept(g: Geometry, v: Volume, ino: nat, buf: seq<byte>, off: nat, i: nat, b: byte)
    requires Sound(g) && RecordsTile(g) && Ordered(g, v)
    requires ino in Records(g, v) && off + |buf| < 0x1_0000_0000
    requires ReadFile(g, v.disk, ino, i, 1) == Some([b])
    requires !(off <= i < off + WriteFile(g, v, ino, buf, off).1.GetOr(0))
    ensures ReadFile(g, WriteFile(g, v, ino, buf, off).0.disk, ino, i, 1) == Some([b])
  {
    hide Coherent, Records, RecordAt, Addressable, SameFile, CellAt, WriteFile, ReadRecord;
    var own :| Coherent(g, v, own, Records(g, v));
    var own2 := WriteFileWrites(g, v, own, ino, buf, off);
    var (w, n) := WriteFile(g, v, ino, buf, off);
    RecordFound(g, v, ino);
    RecordFound(g, w, ino);
    ReadIsMapped(g, v.disk, Records(g, v)[ino], i, b);
    assert forall k: nat :: k < |[b]| ==> CellAt(g, w.disk, Records(g, w)[ino], i + k) == Some([b][k]);
    ReadsMapped(g, w.disk, Records(g, w)[ino], i, [b]);
  }

  /** A write returns exactly the number of bytes that can be counted beforehand. */
  lemma WriteCounted(g: Geometry, v: Volume, ino: nat, buf: seq<byte>, off: nat)
    requires Sound(g) && RecordsTile(g) && Ordered(g, v) && ino in Records(g, v)
    ensures WriteFile(g, v, ino, buf, off).1 == Some(CountFor(g, v, Records(g, v)[ino], off, |buf|))
  {
    hide Coherent, Records, WriteFile, CountFor;
    var own :| Coherent(g, v, own, Records(g, v));
    WriteFileCounts(g, v, own, ino, buf, off);
  }

  /** A byte that a write makes readable without writing it, and that no block held before, reads as zero. */
  lemma NoStaleBytes(g: Geometry, v: Volume, ino: nat, buf: seq<byte>, off: nat, i: nat, b: byte)
    requires Sound(g) && RecordsTile(g) && Ordered(g, v)
    requires ino in Records(g, v) && off + |buf| < 0x1_0000_0000
    requires CellAt(g, v.disk, Records(g, v)[ino], i).None?
    requires !(off <= i < off + WriteFile(g, v, ino, buf, off).1.GetOr(0))
    requires ReadFile(g, WriteFile(g, v, ino, buf, off).0.disk, ino, i, 1) == Some([b])
    ensures b == 0
  {
    hide Coherent, Records, RecordAt, Addressable, SameFile, CellAt, WriteFile, ReadRecord, Touched;
    var own :| Coherent(g, v, own, Records(g, v));
    var own2 := WriteFileWrites(g, v, own, ino, buf, off);
    var (w, n) := WriteFile(g, v, ino, buf, off);
    RecordFound(g, w, ino);
    ReadIsMapped(g, w.disk, Records(g, w)[ino], i, b);
  }

  /** Files that kept record and bytes read the same, whatever is asked of them. */
  lemma KeptReadsSame(g: Geometry, v: Volume, w: Volume, j: nat, o: nat, len: nat)
    requires Sound(g) && Shape(g, v) && Shape(g, w) && j in Records(g, v) && j in Records(g, w)
    requires Records(g, w)[j] == Records(g, v)[j]
    requires SameFile(g, v.disk, Records(g, v)[j], w.disk, Records(g, w)[j])
    ensures ReadFile(g, w.disk, j, o, len) == ReadFile(g, v.disk, j, o, len)
  {
    hide Records, RecordAt, Addressable, SameFile, CellAt, ReadLoop;
    RecordFound(g, v, j);
    RecordFound(g, w, j);
    var r := Records(g, v)[j];
    forall i: nat
      ensures CellAt(g, w.disk, r, i) == CellAt(g, v.disk, r, i)
    {
      SameFileCell(g, v.disk, r, w.disk, r, i);
    }
    if o < Size(r) {
      SameCellsSameRead(g, v.disk, r, w.disk, r, o, Min(len, Size(r) - o));
    }
  }

  lemma OtherFilesKept(g: Geometry, v: Volume, ino: nat, buf: seq<byte>, off: nat, j: nat, o: nat, len: nat)
    requires Sound(g) && RecordsTile(g) && Ordered(g, v)
    requires ino in Records(g, v) && off + |buf| < 0x1_0000_0000 && j in Records(g, v) && j != ino
    ensures ReadFile(g, WriteFile(g, v, ino, buf, off).0.disk, j, o, len) == ReadFile(g, v.disk, j, o, len)
  {
    hide Coherent, Records, SameFile, CellAt, WriteFile, ReadFile;
    var own :| Coherent(g, v, own, Records(g, v));
    var own2 := WriteFileWrites(g, v, own, ino, buf, off);
    KeptReadsSame(g, v, WriteFile(g, v, ino, buf, off).0, j, o, len);
  }

  // Creating

  /** The kind byte of a directory entry. */
  function KindOf(mode: u16): byte { if IsDirMode(mode) then 2 else 1 }

  /** `AddDirEntryAdds` in one shape for both outcomes. */
  lemma TryAdd(g: Geometry, v: Volume, own: map<nat, Owner>, dir: nat, e: Entry) returns (own2: map<nat, Owner>)
    requires Sound(g) && RecordsTile(g) && Shape(g, v) && Coherent(g, v, own, Records(g, v))
    requires dir in Records(g, v) && DirOk(g, v.disk, Records(g, v)[dir]) && |e.name| < 256
    ensures
      var (w, ok) := AddDirEntry(g, v, dir, e);
      && Coherent(g, w, own2, Records(g, w)) && Records(g, w).Keys == Records(g, v).Keys && KeptBut(g, v, w, {dir})
      && DirOk(g, w.disk, Records(g, w)[dir]) && Mode(Records(g, w)[dir]) == Mode(Records(g, v)[dir])
      && Links(Records(g, w)[dir]) == Links(Records(g, v)[dir])
      && Neatly(g, v.disk, Records(g, v)[dir], w.disk, Records(g, w)[dir])
      && (if ok then WithOneMore(Entries(g, v.disk, Records(g, v)[dir]), Entries(g, w.disk, Records(g, w)[dir]), e)
          else Entries(g, w.disk, Records(g, w)[dir]) == Entries(g, v.disk, Records(g, v)[dir]))
  {
    hide Coherent, Records, SameFile, DirOk, WithOneMore, Entries, AddDirEntry, Neatly, NearBlocks;
    own2 := AddDirEntryAdds(g, v, own, dir, e);
    var (w, ok) := AddDirEntry(g, v, dir, e);
    if !ok {
      SameFileNeatly(g, v.disk, Records(g, v)[dir], w.disk, Records(g, w)[dir]);
      SameFileSameDir(g, v.disk, Records(g, v)[dir], w.disk, Records(g, w)[dir]);
    }
  }

  lemma SameFileNeatly(g: Geometry, d: Disk, r: Record, e: Disk, q: Record)
    requires Sound(g) && Blocky(g, d) && Blocky(g, e) && SameFile(g, d, r, e, q)
    requires SameRest(r, q) && Sectors(q) == Sectors(r) && Size(q) == Size(r)
    ensures Neatly(g, d, r, e, q)
  {
    hide FileBlock, SameRest, Neatly, NumbersFit, BitmapsDistinct;
    NeatlySame(g, d, r, e, q);
  }

  /** The parent's link count changes in its record and nowhere else. */
  lemma LinkKeeps(g: Geometry, v: Volume, own: map<nat, Owner>, ino: nat)
    requires Sound(g) && RecordsTile(g) && Shape(g, v) && Coherent(g, v, own, Records(g, v)) && ino in Records(g, v)
    ensures
      var w := Linked(g, v, ino);
      && Coherent(g, w, own, Records(g, w)) && Records(g, w).Keys == Records(g, v).Keys && KeptBut(g, v, w, {ino})
      && SameFile(g, v.disk, Records(g, v)[ino], w.disk, Records(g, w)[ino])
      && Size(Records(g, w)[ino]) == Size(Records(g, v)[ino]) && Mode(Records(g, w)[ino]) == Mode(Records(g, v)[ino])
      && Links(Records(g, w)[ino]) == Wrap16(Links(Records(g, v)[ino]) + 1)
      && Neatly(g, v.disk, Records(g, v)[ino], w.disk, Records(g, w)[ino])
  {
    hide Coherent, Records, SameFile, PutRecord, RecordAt, Addressable, Live, Neatly;
    RecordFound(g, v, ino);
    var r := Records(g, v)[ino];
    var q := WithLinks(r, Wrap16(Links(r) + 1));
    ScalarFrame(r, 0, Wrap16(Links(r) + 1));
    RecordStored(g, v, own, Records(g, v), ino, q);
    SameFileNeatly(g, v.disk, r, Linked(g, v, ino).disk, q);
  }

  lemma EmptyDir(g: Geometry, disk: Disk, r: Record)
    requires Sound(g) && Blocky(g, disk) && Size(r) == 0
    ensures DirOk(g, disk, r) && Entries(g, disk, r) == [] && DirBlocks(g, r) == 0
  {
  }

  /** A tiled block whose only entry has a short name has room for another short name. */
  lemma RoomBehindOne(c: seq<byte>, need: nat)
    requires |c| >= 1024 && Tiled(c, 0) && |Walk(c, 0)| == 1 && |Walk(c, 0)[0].name| <= 2 && 0 < need <= 12
    ensures FindSlack(c, 0, need).Some?
  {
    var next := 0 + RecLen(c, 0);
    assert Walk(c, 0) == [EntryAt(c, 0)] + Walk(c, next);
    assert next == |c|;
    assert |EntryAt(c, 0).name| == NameLen(c, 0);
  }

  lemma {:induction false} OneEntrySomewhere(g: Geometry, disk: Disk, r: Record, n: nat, e: Entry) returns (b: nat)
    requires Sound(g) && Blocky(g, disk) && EntriesUpTo(g, disk, r, n) == [e]
    ensures b < n && BlockEntries(g, disk, r, b) == [e]
  {
    var s, t := EntriesUpTo(g, disk, r, n - 1), BlockEntries(g, disk, r, n - 1);
    if |s| == 0 {
      b := n - 1;
      assert s + t == t;
    } else {
      assert s == (s + t)[..|s|] && |s| == 1;
      b := OneEntrySomewhere(g, disk, r, n - 1, e);
    }
  }

  lemma {:induction false} FindRoomFinds(g: Geometry, disk: Disk, r: Record, need: nat, from: nat, b: nat)
    requires Sound(g) && Blocky(g, disk) && from <= b < DirBlocks(g, r)
    requires
      var d := FileBlock(g, disk, r, b);
      d != 0 && d in disk && FindSlack(disk[d], 0, need).Some?
    ensures FindRoom(g, disk, r, need, from).Some?
    decreases b - from
  {
    if from < b {
      FindRoomFinds(g, disk, r, need, from + 1, b);
    }
  }

  /** Of the two entries for an empty directory, either both are added or neither. */
  lemma BothDots(g: Geometry, v: Volume, own: map<nat, Owner>, dir: nat, d: Entry, a: Volume, own1: map<nat, Owner>,
                 e: Entry)
    requires Sound(g) && RecordsTile(g) && Shape(g, v) && Coherent(g, v, own, Records(g, v)) && dir in Records(g, v)
    requires Size(Records(g, v)[dir]) == 0 && |d.name| <= 2 && |e.name| <= 2
    requires a == AddDirEntry(g, v, dir, d).0 && Coherent(g, a, own1, Records(g, a)) && dir in Records(g, a)
    requires AddDirEntry(g, v, dir, d).1 ==>
      && DirOk(g, a.disk, Records(g, a)[dir])
      && WithOneMore(Entries(g, v.disk, Records(g, v)[dir]), Entries(g, a.disk, Records(g, a)[dir]), d)
    ensures AddDirEntry(g, a, dir, e).1 == AddDirEntry(g, v, dir, d).1
  {
    hide Coherent, Records, RecordAt, Addressable, GrowDir, FindSlack, EntriesUpTo;
    RecordFound(g, v, dir);
    RecordFound(g, a, dir);
    EmptyDir(g, v.disk, Records(g, v)[dir]);
    if AddDirEntry(g, v, dir, d).1 {
      var r := Records(g, a)[dir];
      WholeBlocks(g, r);
      var n := Quot(Size(r), g.blockSize);
      assert EntriesUpTo(g, a.disk, r, n) == [d];
      var b := OneEntrySomewhere(g, a.disk, r, n, d);
      RoomBehindOne(a.disk[FileBlock(g, a.disk, r, b)], Need(|e.name|));
      FindRoomFinds(g, a.disk, r, Need(|e.name|), 0, b);
    } else {
      FirstBlockFails(g, v, own, dir, Records(g, v)[dir], d, e);
    }
  }

  /** An empty directory fails to grow only for want of a free block. */
  lemma FirstBlockFails(g: Geometry, v: Volume, own: map<nat, Owner>, dir: nat, r: Record, d: Entry, e: Entry)
    requires Sound(g) && Shape(g, v) && Coherent(g, v, own, Records(g, v)) && Addressable(g, v.disk, dir)
    requires Size(r) == 0 && |d.name| <= 2 && |e.name| <= 2 && !GrowDir(g, v, dir, r, d).1
    requires r == RecordAt(g, v.disk, dir)
    ensures GrowDir(g, v, dir, r, d).0 == v && !GrowDir(g, v, dir, r, e).1
  {
    hide CountsAgree, Records, OneEntryBlock, PutRecord, Grown, Freed, Taken;
    EmptyDir(g, v.disk, r);
    if Alloc(g, v, Blocks, HomeGroup(g, dir)).1.Some? {
      AllocBlockOwned(g, v, own, Records(g, v), HomeGroup(g, dir));
      assert false;
    }
  }

  /** An empty directory takes its first entry if and only if there is a free block. */
  lemma FirstEntryFits(g: Geometry, v: Volume, r: Record, n: nat)
    requires Sound(g) && Shape(g, v) && Size(r) == 0
    ensures EntryFits(g, v, r, n) <==> v.sbFreeBlocks > 0
  {
    hide NumbersFit, BitmapsDistinct;
    EmptyDir(g, v.disk, r);
  }

  /** A new directory gets its dot entries if there is a free block; only it and its parent's link count change. */
  lemma FillDirAdds(g: Geometry, v: Volume, own: map<nat, Owner>, ino: nat, parent: nat) returns (own2: map<nat, Owner>)
    requires Sound(g) && RecordsTile(g) && Shape(g, v) && Coherent(g, v, own, Records(g, v))
    requires ino in Records(g, v) && parent in Records(g, v) && ino != parent && ino < 0x8000_0000 && parent < 0x8000_0000
    requires Size(Records(g, v)[ino]) == 0
    ensures
      var w := FillDir(g, v, ino, parent);
      && Coherent(g, w, own2, Records(g, w)) && Records(g, w).Keys == Records(g, v).Keys && KeptBut(g, v, w, {ino, parent})
      && DirOk(g, w.disk, Records(g, w)[ino]) && Mode(Records(g, w)[ino]) == Mode(Records(g, v)[ino])
      && Entries(g, w.disk, Records(g, w)[ino]) == (if v.sbFreeBlocks > 0 then [Dot(ino), DotDot(parent)] else [])
      && SameFile(g, v.disk, Records(g, v)[parent], w.disk, Records(g, w)[parent])
      && Size(Records(g, w)[parent]) == Size(Records(g, v)[parent]) && Mode(Records(g, w)[parent]) == Mode(Records(g, v)[parent])
      && Links(Records(g, w)[parent]) == Wrap16(Links(Records(g, v)[parent]) + 1)
      && Neatly(g, v.disk, Records(g, v)[parent], w.disk, Records(g, w)[parent])
      && Links(Records(g, w)[ino]) == Links(Records(g, v)[ino])
      && Neatly(g, v.disk, Records(g, v)[ino], w.disk, Records(g, w)[ino])
  {
    hide Coherent, Records, SameFile, DirOk, WithOneMore, Entries, AddDirEntry, Linked, EntryFits, EntryCost, Neatly;
    EmptyDir(g, v.disk, Records(g, v)[ino]);
    AddDirEntryExactly(g, v, own, ino, Dot(ino));
    FirstEntryFits(g, v, Records(g, v)[ino], 1);
    var own1 := TryAdd(g, v, own, ino, Dot(ino));
    var (a, ok1) := AddDirEntry(g, v, ino, Dot(ino));
    own2 := TryAdd(g, a, own1, ino, DotDot(parent));
    var (b, ok2) := AddDirEntry(g, a, ino, DotDot(parent));
    DotsInOrder(Entries(g, v.disk, Records(g, v)[ino]), Entries(g, a.disk, Records(g, a)[ino]),
                Entries(g, b.disk, Records(g, b)[ino]), ok1, ok2, Dot(ino), DotDot(parent));
    BothDots(g, v, own, ino, Dot(ino), a, own1, DotDot(parent));
    LinkKeeps(g, b, own2, parent);
    var w := Linked(g, b, parent);
    KeptThen(g, v, a, b, {ino}, {ino});
    KeptThen(g, v, b, w, {ino} + {ino}, {parent});
    assert {ino} + {ino} + {parent} == {ino, parent};
    SameFileThen(g, v.disk, Records(g, v)[parent], b.disk, Records(g, b)[parent], w.disk, Records(g, w)[parent]);
    SameFileSameDir(g, b.disk, Records(g, b)[ino], w.disk, Records(g, w)[ino]);
    KeptNeatly(g, v, b, parent);
    NeatlyThen(g, v.disk, Records(g, v)[parent], b.disk, Records(g, b)[parent], w.disk, Records(g, w)[parent]);
    KeptNeatly(g, b, w, ino);
    NeatlyThen(g, v.disk, Records(g, v)[ino], a.disk, Records(g, a)[ino], b.disk, Records(g, b)[ino]);
    NeatlyThen(g, v.disk, Records(g, v)[ino], b.disk, Records(g, b)[ino], w.disk, Records(g, w)[ino]);
  }

  lemma KeptNeatly(g: Geometry, v: Volume, w: Volume, j: nat)
    requires Sound(g) && Shape(g, v) && Shape(g, w) && j in Records(g, v) && j in Records(g, w)
    requires Records(g, w)[j] == Records(g, v)[j]
    requires SameFile(g, v.disk, Records(g, v)[j], w.disk, Records(g, w)[j])
    ensures Neatly(g, v.disk, Records(g, v)[j], w.disk, Records(g, w)[j])
  {
    hide Records, SameFile, Neatly;
    SameFileNeatly(g, v.disk, Records(g, v)[j], w.disk, Records(g, w)[j]);
  }

  lemma DotsInOrder(s: seq<Entry>, t: seq<Entry>, u: seq<Entry>, ok1: bool, ok2: bool, d: Entry, e: Entry)
    requires s == [] && (if ok1 then WithOneMore(s, t, d) else t == s) && (if ok2 then WithOneMore(t, u, e) else u == t)
    ensures u == (if ok1 then [d] else []) + (if ok2 then [e] else [])
  {
  }

  /**
   * What a successful creation leaves behind. A new directory has both its dot entries if a block is
   * left for them after the parent has taken the new name, and is empty otherwise.
   */
  ghost predicate Created(g: Geometry, v: Volume, parent: nat, name: seq<byte>, mode: u16, w: Volume, n: nat)
    requires Sound(g) && Shape(g, v) && Shape(g, w) && parent in Records(g, v) && Numbered(g, Inodes, parent)
  {
    && 0 < n < 0x8000_0000 && n !in Records(g, v) && Records(g, w).Keys == Records(g, v).Keys + {n}
    && FirstFree(g, v, Inodes, GroupOf(g, Inodes, parent), n)
    && KeptBut(g, v, w, {parent})
    && Mode(Records(g, w)[parent]) == Mode(Records(g, v)[parent])
    && Links(Records(g, w)[parent]) == Wrap16(Links(Records(g, v)[parent]) + if IsDirMode(mode) then 1 else 0)
    && Neatly(g, v.disk, Records(g, v)[parent], w.disk, Records(g, w)[parent])
    && WithOneMore(Entries(g, v.disk, Records(g, v)[parent]), Entries(g, w.disk, Records(g, w)[parent]),
                   Entry(n, if mode / 0x4000 % 2 == 1 then 2 else 1, if |name| <= 255 then name else name[..255]))
    && Mode(Records(g, w)[n]) == mode && Links(Records(g, w)[n]) == 1 && Neat(g, w.disk, Records(g, w)[n])
    && (!IsDirMode(mode) ==> Blank(Records(g, w)[n]))
    && var dots := v.sbFreeBlocks > EntryCost(g, v.disk, Records(g, v)[parent], if |name| <= 255 then |name| else 255);
       IsDirMode(mode) ==>
         Entries(g, w.disk, Records(g, w)[n]) ==
           if dots then [Entry(n, 2, [46]), Entry(parent, 2, [46, 46])] else []
  }

  /** The file maps no block behind its end, and its sector count is that of the blocks it maps. */
  ghost predicate Neat(g: Geometry, disk: Disk, r: Record)
    requires Sound(g) && Blocky(g, disk)
  {
    Tight(g, disk, r) && Counted(g, disk, r)
  }

  lemma NeatStays(g: Geometry, d: Disk, r: Record, e: Disk, q: Record)
    requires Sound(g) && Blocky(g, d) && Blocky(g, e) && Neat(g, d, r) && Neatly(g, d, r, e, q)
    ensures Neat(g, e, q)
  {
    hide Tight, Counted, NumbersFit, BitmapsDistinct;
  }

  lemma BlankNeat(g: Geometry, disk: Disk, r: Record)
    requires Sound(g) && Blocky(g, disk) && Blank(r)
    ensures Neat(g, disk, r)
  {
    hide NumbersFit, BitmapsDistinct;
    assert Pointer(r, IND) == 0 && Pointer(r, DIND) == 0;
    assert forall fb: nat :: FileBlock(g, disk, r, fb) == 0;
    assert MappedBlocks(g, disk, r) == {};
  }

  /** An inode without a byte and without a block, with one name. */
  ghost predicate Blank(r: Record) {
    Size(r) == 0 && Links(r) == 1 && Sectors(r) == 0 && forall i: nat :: i < 15 ==> Pointer(r, i) == 0
  }

  lemma NewRecordIs(mode: u16)
    ensures Blank(NewRecord(mode)) && Mode(NewRecord(mode)) == mode
  {
    NewRecordBlank(mode);
  }

  /** The entry a creation adds. */
  lemma NamedInFull(mode: u16, name: seq<byte>)
    ensures Clipped(name) == (if |name| <= 255 then name else name[..255])
    ensures KindOf(mode) == if mode / 0x4000 % 2 == 1 then 2 else 1
  {
  }

  /** A creation that fails after the inode was allocated gives it back; nothing readable changes. */
  lemma CreateUndone(g: Geometry, v: Volume, own: map<nat, Owner>, x: Volume, y: Volume, own2: map<nat, Owner>,
                     n: nat, r: Record)
    requires Sound(g) && RecordsTile(g) && Shape(g, v) && Shape(g, x) && Shape(g, y) && n !in Records(g, v)
    requires Records(g, x) == Records(g, v)[n := r] && KeptBut(g, v, x, {})
    requires Untouched(g, x, y, own2) && Numbered(g, Inodes, n)
    requires x.freeInodes[GroupOf(g, Inodes, n)] < 0xFFFF && x.sbFreeInodes < 0xFFFF_FFFF
    ensures
      var z := FreedInode(g, y, n);
      Coherent(g, z, own2, Records(g, z)) && Records(g, z) == Records(g, v) && KeptBut(g, v, z, {})
  {
    hide Coherent, Records, SameFile, FreedInode, Live;
    InodeUnborn(g, y, own2, Records(g, y), n);
    var z := FreedInode(g, y, n);
    assert Records(g, v)[n := r] - {n} == Records(g, v);
    KeptThen(g, v, x, y, {}, {});
    KeptThen(g, v, y, z, {} + {}, {n});
  }

  lemma TakenCounts(g: Geometry, v: Volume, preferred: u32, r: Record)
    requires Sound(g) && Shape(g, v) && Alloc(g, v, Inodes, preferred).1.Some? && CountsAgree(g, v)
    ensures
      var (w, n) := Alloc(g, v, Inodes, preferred);
      var x := PutRecord(g, w, n.value, r);
      && Numbered(g, Inodes, n.value)
      && x.freeInodes[GroupOf(g, Inodes, n.value)] < 0xFFFF && x.sbFreeInodes < 0xFFFF_FFFF
  {
    var (group, i) := Find(g, v, Inodes, preferred, 0).value;
    NumberLocates(g, Inodes, group, i);
    SumAtLeast(v.freeInodes, group);
  }

  /**
   * Creating a file or directory succeeds if and only if an inode is free and the name fits the parent.
   * On success the parent gains exactly one entry, the new inode was free before, every other file is
   * untouched; on failure no file or record has changed.
   */
  lemma CreateFileCreates(g: Geometry, v: Volume, parent: nat, name: seq<byte>, mode: u16)
    requires Sound(g) && RecordsTile(g) && Ordered(g, v)
    requires parent in Records(g, v) && DirOk(g, v.disk, Records(g, v)[parent]) && Numbered(g, Inodes, parent)
    ensures
      var (w, n) := CreateFile(g, v, parent, name, mode);
      && Ordered(g, w) && (AllDirsOk(g, v) ==> AllDirsOk(g, w))
      && (n.Some? <==> v.sbFreeInodes > 0 && EntryFits(g, v, Records(g, v)[parent], if |name| <= 255 then |name| else 255))
      && (n.Some? ==> Created(g, v, parent, name, mode, w, n.value))
      && (n.None? ==> Records(g, w) == Records(g, v) && KeptBut(g, v, w, {}))
  {
    hide Coherent, Records, SameFile, DirOk, WithOneMore, Entries, AddDirEntry, Alloc, FillDir, PutRecord,
         FreedInode, NewRecord, IsDir, IsDirMode, Clipped, Addressable, Live, EntryFits, EntryCost, AllDirsOk, FirstFree,
         Blank, Neatly, Neat;
    var own :| Coherent(g, v, own, Records(g, v));
    NamedInFull(mode, name);
    InodeTaken(g, v, own, parent, mode);
    var (w, some) := Alloc(g, v, Inodes, HomeGroup(g, parent));
    if some.None? {
      SelfKept(g, v, own);
      return;
    }
    var n, r := some.value, NewRecord(mode);
    InodeBorn(g, v, own, HomeGroup(g, parent), mode);
    NotRecorded(g, v, n);
    var x := PutRecord(g, w, n, r);
    var e := Entry(n, KindOf(mode), Clipped(name));
    SameFileSameDir(g, v.disk, Records(g, v)[parent], x.disk, Records(g, x)[parent]);
    SameCost(g, v, x, parent, |e.name|);
    AddDirEntryExactly(g, x, own, parent, e);
    var (y, ok) := AddDirEntry(g, x, parent, e);
    if ok {
      NumberedSmall(g, Inodes, parent);
      NearTaken(g, v, own, Records(g, v), Inodes, parent);
      CreateEntered(g, v, own, parent, name, mode, x, n);
    } else {
      var own2 := AddDirEntryAdds(g, x, own, parent, e);
      CountsFromCoherent(g, v, own);
      TakenCounts(g, v, HomeGroup(g, parent), r);
      CreateUndone(g, v, own, x, y, own2, n, r);
      if AllDirsOk(g, v) {
        DirsKept(g, v, FreedInode(g, y, n), {});
      }
    }
  }

  /** On a volume without a free block, a directory made in a parent with slack comes out empty. */
  lemma NoDotsWhenFull(g: Geometry, v: Volume, parent: nat, name: seq<byte>, mode: u16)
    requires Sound(g) && RecordsTile(g) && Ordered(g, v) && v.sbFreeBlocks == 0 < v.sbFreeInodes && IsDirMode(mode)
    requires parent in Records(g, v) && DirOk(g, v.disk, Records(g, v)[parent]) && Numbered(g, Inodes, parent)
    requires FindRoom(g, v.disk, Records(g, v)[parent], Need(if |name| <= 255 then |name| else 255), 0).Some?
    ensures
      var (w, n) := CreateFile(g, v, parent, name, mode);
      n.Some? && n.value in Records(g, w) && Entries(g, w.disk, Records(g, w)[n.value]) == []
  {
    hide Records, CreateFile, Entries, FindRoom, Ordered, AllDirsOk, DirOk, SameFile, WithOneMore;
    CreateFileCreates(g, v, parent, name, mode);
  }

  /** Allocating an inode succeeds if and only if one is free, and takes no block. */
  lemma InodeTaken(g: Geometry, v: Volume, own: map<nat, Owner>, parent: nat, mode: u16)
    requires Sound(g) && Shape(g, v) && Coherent(g, v, own, Records(g, v)) && Numbered(g, Inodes, parent)
    ensures
      var (w, n) := Alloc(g, v, Inodes, HomeGroup(g, parent));
      && (n.Some? <==> v.sbFreeInodes > 0)
      && (n.Some? ==>
            var x := PutRecord(g, w, n.value, NewRecord(mode));
            x.sbFreeBlocks == v.sbFreeBlocks && x.sbFreeInodes == v.sbFreeInodes - 1)
  {
    hide Records, Alloc, WithRecord, NewRecord, CountsAgree;
    HomeExists(g, parent);
    CountsFromCoherent(g, v, own);
    AllocCounts(g, v, Inodes, HomeGroup(g, parent));
    assert SbFree(Alloc(g, v, Inodes, HomeGroup(g, parent)).0, Blocks) == SbFree(v, Blocks);
  }

  /** A directory that was kept takes the same names at the same cost. */
  lemma SameCost(g: Geometry, v: Volume, x: Volume, dir: nat, n: nat)
    requires Sound(g) && Shape(g, v) && Shape(g, x) && dir in Records(g, v) && dir in Records(g, x)
    requires Records(g, x)[dir] == Records(g, v)[dir] && x.sbFreeBlocks == v.sbFreeBlocks
    requires SameFile(g, v.disk, Records(g, v)[dir], x.disk, Records(g, x)[dir])
    ensures EntryFits(g, x, Records(g, x)[dir], n) == EntryFits(g, v, Records(g, v)[dir], n)
    ensures EntryCost(g, x.disk, Records(g, x)[dir], n) == EntryCost(g, v.disk, Records(g, v)[dir], n)
  {
    hide Records, SameFile, FindRoom;
    SameFileSameRoom(g, v.disk, Records(g, v)[dir], x.disk, Records(g, x)[dir], Need(n), 0);
  }

  lemma CountsFromCoherent(g: Geometry, v: Volume, own: map<nat, Owner>)
    requires Sound(g) && Shape(g, v) && Coherent(g, v, own, Records(g, v))
    ensures CountsAgree(g, v)
  {
  }

  lemma NotRecorded(g: Geometry, v: Volume, n: nat)
    requires Sound(g) && Shape(g, v) && !Live(g, v, n)
    ensures n !in Records(g, v)
  {
  }

  lemma SelfKept(g: Geometry, v: Volume, own: map<nat, Owner>)
    requires Sound(g) && Shape(g, v) && Coherent(g, v, own, Records(g, v))
    ensures KeptBut(g, v, v, {})
  {
    SelfUntouched(g, v, own);
  }

  lemma BlankDir(mode: u16)
    ensures Mode(NewRecord(mode)) == mode && Size(NewRecord(mode)) == 0
    ensures IsDir(NewRecord(mode)) == IsDirMode(mode)
  {
    NewRecordBlank(mode);
  }

  /** The part of a creation after the new inode's record has been written, when the entry goes in. */
  lemma CreateEntered(g: Geometry, v: Volume, own: map<nat, Owner>, parent: nat, name: seq<byte>, mode: u16,
                      x: Volume, n: nat)
    requires Sound(g) && RecordsTile(g) && Shape(g, v) && Shape(g, x)
    requires parent in Records(g, v) && parent < 0x8000_0000 && 0 < n < 0x8000_0000 && n !in Records(g, v)
    requires Numbered(g, Inodes, parent) && FirstFree(g, v, Inodes, GroupOf(g, Inodes, parent), n)
    requires Records(g, x) == Records(g, v)[n := NewRecord(mode)] && Coherent(g, x, own, Records(g, x)) && KeptBut(g, v, x, {})
    requires DirOk(g, x.disk, Records(g, x)[parent]) && x.sbFreeBlocks == v.sbFreeBlocks
    requires Entries(g, x.disk, Records(g, x)[parent]) == Entries(g, v.disk, Records(g, v)[parent])
    requires AddDirEntry(g, x, parent, Entry(n, KindOf(mode), Clipped(name))).1
    ensures
      var y := AddDirEntry(g, x, parent, Entry(n, KindOf(mode), Clipped(name))).0;
      var w := if IsDirMode(mode) then FillDir(g, y, n, parent) else y;
      Ordered(g, w) && (AllDirsOk(g, v) ==> AllDirsOk(g, w)) && Created(g, v, parent, name, mode, w, n)
  {
    hide Coherent, Records, SameFile, DirOk, WithOneMore, Entries, AddDirEntry, FillDir, NewRecord, IsDir, IsDirMode,
         Clipped, EntryFits, EntryCost, AllDirsOk, FirstFree, Blank, GroupOf, Neatly, Neat;
    BlankDir(mode);
    NewRecordIs(mode);
    NamedInFull(mode, name);
    var e := Entry(n, KindOf(mode), Clipped(name));
    SameCost(g, v, x, parent, |e.name|);
    AddDirEntryExactly(g, x, own, parent, e);
    var own1 := TryAdd(g, x, own, parent, e);
    var y := AddDirEntry(g, x, parent, e).0;
    BlankNeat(g, y.disk, NewRecord(mode));
    KeptNeatly(g, v, x, parent);
    NeatlyThen(g, v.disk, Records(g, v)[parent], x.disk, Records(g, x)[parent], y.disk, Records(g, y)[parent]);
    KeptThen(g, v, x, y, {}, {parent});
    assert {} + {parent} == {parent};
    if !IsDirMode(mode) {
      if AllDirsOk(g, v) {
        EntryOnly(g, v, parent, y, n);
      }
    } else {
      var own2 := FillDirAdds(g, y, own1, n, parent);
      var w := FillDir(g, y, n, parent);
      NeatlyThen(g, v.disk, Records(g, v)[parent], y.disk, Records(g, y)[parent], w.disk, Records(g, w)[parent]);
      NeatStays(g, y.disk, Records(g, y)[n], w.disk, Records(g, w)[n]);
      KeptThen(g, v, y, w, {parent}, {n, parent});
      SameFileSameDir(g, y.disk, Records(g, y)[parent], w.disk, Records(g, w)[parent]);
      FilledBut(g, v, parent, w, n);
      if AllDirsOk(g, v) {
        FilledKept(g, v, parent, w, n);
      }
    }
  }

  lemma EntryOnly(g: Geometry, v: Volume, parent: nat, y: Volume, n: nat)
    requires Sound(g) && Shape(g, v) && Shape(g, y) && AllDirsOk(g, v) && KeptBut(g, v, y, {parent}) && n in Records(g, y)
    requires Records(g, y).Keys == Records(g, v).Keys + {n} && !IsDir(Records(g, y)[n]) && parent in Records(g, v)
    requires DirOk(g, y.disk, Records(g, y)[parent])
    ensures AllDirsOk(g, y)
  {
    hide Records, SameFile, DirOk, IsDir;
    assert KeptBut(g, v, y, {parent, n});
    DirsKept(g, v, y, {parent, n});
  }

  lemma FilledKept(g: Geometry, v: Volume, parent: nat, w: Volume, n: nat)
    requires Sound(g) && Shape(g, v) && Shape(g, w) && AllDirsOk(g, v) && parent in Records(g, v) && n !in Records(g, v)
    requires KeptBut(g, v, w, {parent} + {n, parent}) && Records(g, w).Keys == Records(g, v).Keys + {n}
    requires DirOk(g, w.disk, Records(g, w)[parent]) && DirOk(g, w.disk, Records(g, w)[n])
    ensures AllDirsOk(g, w)
  {
    hide Records, SameFile, DirOk, IsDir;
    DirsKept(g, v, w, {parent} + {n, parent});
  }

  lemma FilledBut(g: Geometry, v: Volume, parent: nat, w: Volume, n: nat)
    requires Sound(g) && Shape(g, v) && Shape(g, w) && n !in Records(g, v)
    requires KeptBut(g, v, w, {parent} + {n, parent})
    ensures KeptBut(g, v, w, {parent})
  {
    hide Records, SameFile;
  }

  // Runs

  /** The calls the virtual file system makes; `mkdir` is a creation with the directory bit set. */
  datatype Op =
    | Write(ino: nat, off: nat, buf: seq<byte>)
    | Create(parent: nat, name: seq<byte>, mode: u16)

  /**
   * What the driver expects of its callers, and does not refuse otherwise: live inodes, sizes that fit
   * 32 bits, and parents that are well-formed directories.
   */
  ghost predicate Proper(g: Geometry, v: Volume, op: Op)
    requires Sound(g) && Shape(g, v)
  {
    match op
    case Write(ino, off, buf) => ino in Records(g, v) && off + |buf| < 0x1_0000_0000
    case Create(parent, name, mode) => parent in Records(g, v) && DirOk(g, v.disk, Records(g, v)[parent])
  }

  /** And writes that leave directories well formed, should they go to one. */
  ghost predicate Allowed(g: Geometry, v: Volume, op: Op)
    requires Sound(g) && Shape(g, v)
  {
    Proper(g, v, op) &&
    (op.Write? ==>
      var r := Records(g, v)[op.ino];
      IsDir(r) ==> DirStays(g, v.disk, r, op.off, ToWrite(g, v, r, op.off, op.buf)))
  }

  function Apply(g: Geometry, v: Volume, op: Op): (w: Volume)
    requires Sound(g) && Shape(g, v)
    ensures Shape(g, w)
  {
    match op
    case Write(ino, off, buf) => WriteFile(g, v, ino, buf, off).0
    case Create(parent, name, mode) =>
      if Numbered(g, Inodes, parent) then CreateFile(g, v, parent, name, mode).0 else v
  }

  function Run(g: Geometry, v: Volume, ops: seq<Op>): (w: Volume)
    requires Sound(g) && Shape(g, v)
    ensures Shape(g, w)
    decreases ops
  {
    if ops == [] then v else Run(g, Apply(g, v, ops[0]), ops[1..])
  }

  ghost predicate AllAllowed(g: Geometry, v: Volume, ops: seq<Op>)
    requires Sound(g) && Shape(g, v)
    decreases ops
  {
    ops != [] ==> Allowed(g, v, ops[0]) && AllAllowed(g, Apply(g, v, ops[0]), ops[1..])
  }

  ghost predicate AllProper(g: Geometry, v: Volume, ops: seq<Op>)
    requires Sound(g) && Shape(g, v)
    decreases ops
  {
    ops != [] ==> Proper(g, v, ops[0]) && AllProper(g, Apply(g, v, ops[0]), ops[1..])
  }

  /** One operation: ownership and counters always, directories exactly if it is allowed. */
  lemma StepKeeps(g: Geometry, v: Volume, op: Op)
    requires Sound(g) && RecordsTile(g) && Ordered(g, v) && Proper(g, v, op)
    ensures Ordered(g, Apply(g, v, op))
    ensures AllDirsOk(g, v) ==> (Inv(g, Apply(g, v, op)) <==> Allowed(g, v, op))
  {
    hide Records, WriteFile, CreateFile, IsDir, AllDirsOk, Coherent, DirOk, DirStays, ToWrite, EntryFits, Created,
         KeptBut;
    match op
    case Write(ino, off, buf) =>
      WriteKeepsInv(g, v, ino, buf, off);
    case Create(parent, name, mode) =>
      RecordFound(g, v, parent);
      CreateFileCreates(g, v, parent, name, mode);
  }

  /** Every run of creations, mkdirs and any writes at all keeps ownership exclusive and the counters right. */
  lemma {:induction false} RunKeepsOrder(g: Geometry, v: Volume, ops: seq<Op>)
    requires Sound(g) && RecordsTile(g) && Ordered(g, v) && AllProper(g, v, ops)
    ensures Ordered(g, Run(g, v, ops))
    decreases ops
  {
    hide Coherent, Proper, Apply;
    if ops != [] {
      StepKeeps(g, v, ops[0]);
      RunKeepsOrder(g, Apply(g, v, ops[0]), ops[1..]);
    }
  }

  /** Every run of creations, mkdirs and allowed writes keeps ownership, counters and directories in order. */
  lemma {:induction false} RunKeepsInv(g: Geometry, v: Volume, ops: seq<Op>)
    requires Sound(g) && RecordsTile(g) && Inv(g, v) && AllAllowed(g, v, ops)
    ensures Inv(g, Run(g, v, ops))
    decreases ops
  {
    hide Coherent, Proper, Apply, AllDirsOk, IsDir, DirStays;
    if ops != [] {
      StepKeeps(g, v, ops[0]);
      RunKeepsInv(g, Apply(g, v, ops[0]), ops[1..]);
    }
  }
}
