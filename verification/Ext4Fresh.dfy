/** Small volumes: the assumptions of the ext4 proofs can be met, and a directory can come out without its dots. */
module Ext4Fresh {
  import opened Wrappers
  import opened Bytes
  import opened Arith
  import opened Bitmap
  import opened Ext4Alloc
  import opened Ext4Map
  import opened Ext4Inode
  import opened Ext4File
  import opened Ext4Dir
  import opened Ext4Create
  import opened Ext4Cost
  import opened Ext4Run
  import opened Ext4Neat

  /** One group of eight blocks and eight inodes: superblock, descriptors, two bitmaps, one table block. */
  ghost predicate IsSmall(g: Geometry) {
    && g.blockSize == 1024 && g.blocksPerGroup == 8 && g.inodesPerGroup == 8 && g.inodeSize == 128
    && g.groupCount == 1 && g.firstDataBlock == 1
    && g.blockBitmap == [3] && g.inodeBitmap == [4] && g.inodeTable == [5] && g.fixed == {1, 2}
  }

  /** Blocks 1 to 5 are in use, or 1 to 7 when only one is to be free; all inodes are free. */
  ghost predicate IsFormatted(v: Volume, free: nat) {
    && (free == 3 || free == 1)
    && (forall b :: b in v.disk <==> 0 <= b < 9)
    && (forall b :: b in v.disk ==> |v.disk[b]| == 1024)
    && v.disk[3][0] == (if free == 3 then 31 else 127) && v.disk[4][0] == 0
    && v.freeBlocks == [free] && v.freeInodes == [8] && v.sbFreeBlocks == free && v.sbFreeInodes == 8
  }

  function Small(): Geometry { Geometry(1024, 8, 8, 128, 1, 1, [3], [4], [5], {1, 2}) }

  function Formatted(free: nat): Volume
    requires free == 3 || free == 1
  {
    var z, bits := Zeros(1024), [if free == 3 then 31 else 127] + Zeros(1023);
    Volume(map[0 := z, 1 := z, 2 := z, 3 := bits, 4 := z, 5 := z, 6 := z, 7 := z, 8 := z], [free], [8], free, 8)
  }

  lemma FormattedIs(free: nat)
    requires free == 3 || free == 1
    ensures IsSmall(Small()) && IsFormatted(Formatted(free), free)
  {
  }

  lemma FirstBits(bm: seq<byte>)
    requires |bm| == 1024
    ensures forall i: nat :: i < 8 ==> Bit(bm, i) == TestBit(bm[0], i)
  {
  }

  lemma Clear8(bm: seq<byte>)
    requires |bm| == 1024
    ensures bm[0] == 31 ==> CountClear(bm, 8) == 3 && forall i: nat :: i < 8 ==> (Bit(bm, i) <==> i < 5)
    ensures bm[0] == 127 ==> CountClear(bm, 8) == 1 && forall i: nat :: i < 8 ==> (Bit(bm, i) <==> i < 7)
    ensures bm[0] == 255 ==> CountClear(bm, 8) == 0
    ensures bm[0] == 0 ==> CountClear(bm, 8) == 8 && forall i: nat :: i < 8 ==> !Bit(bm, i)
  {
    hide CountClear, TestBit, Bit;
    FirstBits(bm);
    CountEight(bm);
    forall i: nat | i < 8
      ensures bm[0] == 31 ==> (Bit(bm, i) <==> i < 5)
      ensures bm[0] == 127 ==> (Bit(bm, i) <==> i < 7)
      ensures bm[0] == 255 ==> Bit(bm, i)
      ensures bm[0] == 0 ==> !Bit(bm, i)
    {
      LowBits(0, i);
      LowBits(5, i);
      LowBits(7, i);
      LowBits(8, i);
      Powers();
    }
  }

  lemma Powers()
    ensures Pow2(0) == 1 && Pow2(5) == 32 && Pow2(7) == 128 && Pow2(8) == 256
  {
    assert Pow2(4) == 16;
  }

  /** A byte of `k` low ones. */
  lemma {:induction false} LowBits(k: nat, i: nat)
    ensures TestBit(Pow2(k) - 1, i) <==> i < k
    decreases i
  {
    if k > 0 {
      assert (Pow2(k) - 1) / 2 == Pow2(k - 1) - 1 && (Pow2(k) - 1) % 2 == 1;
      if i > 0 {
        LowBits(k - 1, i - 1);
      }
    } else if i > 0 {
      LowBits(0, i - 1);
    }
  }

  lemma CountEight(bm: seq<byte>)
    requires |bm| == 1024
    ensures CountClear(bm, 8) ==
      Zero(bm, 0) + Zero(bm, 1) + Zero(bm, 2) + Zero(bm, 3) + Zero(bm, 4) + Zero(bm, 5) + Zero(bm, 6) + Zero(bm, 7)
  {
    hide Bit;
    assert CountClear(bm, 2) == Zero(bm, 0) + Zero(bm, 1);
    assert CountClear(bm, 4) == CountClear(bm, 2) + Zero(bm, 2) + Zero(bm, 3);
    assert CountClear(bm, 6) == CountClear(bm, 4) + Zero(bm, 4) + Zero(bm, 5);
  }

  function Zero(bm: seq<byte>, i: nat): nat
    requires i < 8 * |bm|
  {
    if Bit(bm, i) then 0 else 1
  }

  lemma SumOfOne(x: u16)
    ensures Sum([x]) == x
  {
    assert [x][1..] == [];
  }

  lemma SmallNumber(g: Geometry, k: Kind, n: nat)
    requires IsSmall(g)
    ensures Numbered(g, k, n) <==> 1 <= n <= 8
    ensures 1 <= n <= 8 ==> GroupOf(g, k, n) == 0 && IndexOf(g, k, n) == n - 1
  {
    hide Quot, Rem;
    if n >= 1 {
      QuotIs(n - 1, 8);
    }
  }

  lemma SmallSound(g: Geometry)
    requires IsSmall(g)
    ensures Sound(g)
  {
    hide Times;
    forall k, group: nat, i: nat | group < g.groupCount && i < PerGroup(g, k)
      ensures Number(g, k, group, i) < 0x8000_0000
    {
      TimesIs(0, 8);
    }
  }

  lemma SmallTable(g: Geometry)
    requires IsSmall(g) && Sound(g)
    ensures RecordsTile(g) && TableLength(g) == 1
  {
    hide Times, Quot, Rem, NumbersFit, BitmapsDistinct;
    var size, n := g.inodeSize, g.inodesPerGroup;
    QuotIs(g.blockSize, size);
    TimesIs(n, size);
    TimesIs(n - 1, size);
    QuotIs(Times(n - 1, size), g.blockSize);
  }

  /** The bits of the small volume's blocks and inodes. */
  lemma FormattedMarks(g: Geometry, v: Volume, free: nat, k: Kind, n: nat)
    requires IsSmall(g) && Sound(g) && IsFormatted(v, free) && Shape(g, v) && Numbered(g, k, n)
    ensures Marked(g, v, k, n) == (k.Blocks? && n <= 8 - free)
  {
    hide CountClear, Bit, NumbersFit, BitmapsDistinct;
    SmallNumber(g, k, n);
    Clear8(v.disk[3]);
    Clear8(v.disk[4]);
  }

  lemma FormattedCounts(g: Geometry, v: Volume, free: nat)
    requires IsSmall(g) && Sound(g) && IsFormatted(v, free)
    ensures CountsAgree(g, v)
  {
    hide CountClear, Bit, Sum, NumbersFit, BitmapsDistinct;
    Clear8(v.disk[3]);
    Clear8(v.disk[4]);
    SumOfOne(v.freeBlocks[0]);
    SumOfOne(v.freeInodes[0]);
    forall k, group: nat | group < g.groupCount
      ensures Free(v, k)[group] == CountClear(v.disk[BitmapBlock(g, k, group)], PerGroup(g, k))
    {
      assert group == 0;
    }
  }

  lemma FormattedOwned(g: Geometry, v: Volume, free: nat, own: map<nat, Owner>)
    requires IsSmall(g) && Sound(g) && IsFormatted(v, free) && TableLength(g) == 1 && Shape(g, v)
    requires own == map[1 := Fixed, 2 := Fixed, 3 := Map(Blocks, 0), 4 := Map(Inodes, 0), 5 := Table(0, 0)]
    ensures Owned(g, v, own, map[])
  {
    hide Numbered, Marked, TableLength, NumbersFit, BitmapsDistinct;
    forall n: nat
      ensures Reserved(g, v, n) <==> !(8 - free < n <= 8)
    {
      SmallNumber(g, Blocks, n);
      if 1 <= n <= 8 {
        FormattedMarks(g, v, free, Blocks, n);
      }
    }
    assert MetaOwned(g, own);
  }

  lemma NoRecords(g: Geometry, v: Volume, free: nat)
    requires IsSmall(g) && Sound(g) && IsFormatted(v, free) && Shape(g, v)
    ensures Records(g, v) == map[]
  {
    hide Numbered, Marked, Addressable, NumbersFit, BitmapsDistinct;
    forall n: nat
      ensures !Live(g, v, n)
    {
      if Numbered(g, Inodes, n) {
        FormattedMarks(g, v, free, Inodes, n);
      }
    }
  }

  lemma FormattedCoherent(g: Geometry, v: Volume, free: nat) returns (own: map<nat, Owner>)
    requires IsSmall(g) && IsFormatted(v, free)
    ensures Sound(g) && RecordsTile(g) && Shape(g, v) && Records(g, v) == map[] && Coherent(g, v, own, map[])
  {
    hide CountsAgree, Records, Owned, TableLength, NumbersFit, BitmapsDistinct;
    SmallSound(g);
    SmallTable(g);
    FormattedCounts(g, v, free);
    NoRecords(g, v, free);
    own := map[1 := Fixed, 2 := Fixed, 3 := Map(Blocks, 0), 4 := Map(Inodes, 0), 5 := Table(0, 0)];
    FormattedOwned(g, v, free, own);
  }

  const DIRECTORY: u16 := 0x41ED

  /** The formatted volume with an empty directory as its first inode. */
  lemma Rooted(g: Geometry, v: Volume, free: nat) returns (root: nat, x: Volume, own: map<nat, Owner>)
    requires IsSmall(g) && IsFormatted(v, free)
    ensures Sound(g) && RecordsTile(g) && Inv(g, x) && Coherent(g, x, own, Records(g, x))
    ensures Numbered(g, Inodes, root) && Records(g, x) == map[root := NewRecord(DIRECTORY)]
    ensures x.sbFreeBlocks == free && x.sbFreeInodes == 7
  {
    hide Coherent, Records, Alloc, PutRecord, NewRecord, SameFile, DirOk, NumbersFit, BitmapsDistinct, Live;
    own := FormattedCoherent(g, v, free);
    SmallNumber(g, Inodes, 1);
    InodeTaken(g, v, own, 1, DIRECTORY);
    InodeBorn(g, v, own, HomeGroup(g, 1), DIRECTORY);
    var (w, n) := Alloc(g, v, Inodes, HomeGroup(g, 1));
    root := n.value;
    x := PutRecord(g, w, root, NewRecord(DIRECTORY));
    RecordFound(g, x, root);
    BlankDir(DIRECTORY);
    EmptyDir(g, x.disk, NewRecord(DIRECTORY));
  }

  /** There is a volume that meets every assumption, with a directory to create files in. */
  lemma RootedInv() returns (g: Geometry, root: nat, x: Volume)
    ensures Sound(g) && RecordsTile(g) && Inv(g, x) && root in Records(g, x) && IsDir(Records(g, x)[root])
    ensures AllNeat(g, x) && forall name, mode :: Allowed(g, x, Create(root, name, mode))
  {
    hide Coherent, NewRecord, Records, Neat, Blank, AllDirsOk;
    FormattedIs(3);
    g := Small();
    var own;
    root, x, own := Rooted(g, Formatted(3), 3);
    BlankDir(DIRECTORY);
    NewRecordIs(DIRECTORY);
    BlankNeat(g, x.disk, NewRecord(DIRECTORY));
    assert IsDirMode(DIRECTORY);
  }

  /** A volume whose last free block has gone to the root directory's first entry. */
  lemma FullVolume() returns (g: Geometry, root: nat, y: Volume)
    ensures Sound(g) && RecordsTile(g) && Inv(g, y) && y.sbFreeBlocks == 0 < y.sbFreeInodes
    ensures root in Records(g, y) && IsDir(Records(g, y)[root]) && Numbered(g, Inodes, root)
    ensures FindRoom(g, y.disk, Records(g, y)[root], Need(1), 0).Some?
  {
    hide Coherent, NewRecord, Records, AddDirEntry, DirOk, Entries, WithOneMore, SameFile, FindRoom, GrowthCost,
         NumbersFit, BitmapsDistinct;
    FormattedIs(1);
    g := Small();
    var x, own;
    root, x, own := Rooted(g, Formatted(1), 1);
    BlankDir(DIRECTORY);
    assert IsDirMode(DIRECTORY);
    RecordFound(g, x, root);
    NumberedSmall(g, Inodes, root);
    var d := Dot(root);
    EmptyDir(g, x.disk, Records(g, x)[root]);
    AddDirEntryExactly(g, x, own, root, d);
    FirstEntryFits(g, x, Records(g, x)[root], 1);
    var own1 := TryAdd(g, x, own, root, d);
    y := AddDirEntry(g, x, root, d).0;
    FirstCosts(g, x.disk, Records(g, x)[root], 1);
    DirsKept(g, x, y, {root});
    BothDots(g, x, own, root, d, y, own1, Entry(0, 1, [97]));
    AddDirEntryExactly(g, y, own1, root, Entry(0, 1, [97]));
    CostPositive(g, Records(g, y)[root]);
    SameModeSameKind(Records(g, x)[root], Records(g, y)[root]);
  }

  lemma FirstCosts(g: Geometry, disk: Disk, r: Record, n: nat)
    requires Sound(g) && Blocky(g, disk) && Size(r) == 0
    ensures EntryCost(g, disk, r, n) == 1
  {
    hide NumbersFit, BitmapsDistinct;
    EmptyDir(g, disk, r);
  }

  lemma CostPositive(g: Geometry, r: Record)
    requires Sound(g)
    ensures GrowthCost(g, r) > 0
  {
  }

  /** A directory made there succeeds and comes out without its dot entries. */
  lemma MkdirWithoutDots() returns (g: Geometry, root: nat, y: Volume)
    ensures Sound(g) && RecordsTile(g) && Inv(g, y) && Numbered(g, Inodes, root)
    ensures
      var (w, n) := CreateFile(g, y, root, [97], DIRECTORY);
      n.Some? && n.value in Records(g, w) && Entries(g, w.disk, Records(g, w)[n.value]) == []
  {
    hide Coherent, DirOk, Records, CreateFile, Entries, FindRoom;
    g, root, y := FullVolume();
    assert Clipped([97]) == [97] && IsDirMode(DIRECTORY);
    NoDotsWhenFull(g, y, root, [97], DIRECTORY);
  }

  /** A blank record maps nothing, and its first block can be mapped for one block. */
  lemma BlankMaps(g: Geometry, disk: Disk, mode: u16)
    requires Sound(g) && Blocky(g, disk)
    ensures FileBlock(g, disk, NewRecord(mode), 0) == 0 && CanMap(g, 0) && MapCost(g, 0, false) == 1
    ensures Pointer(NewRecord(mode), IND) == 0 && Size(NewRecord(mode)) == 0
  {
    hide NumbersFit, BitmapsDistinct, NewRecord;
    NewRecordBlank(mode);
  }

  /** Writing one byte to the root directory of a volume in order succeeds and wrecks the directory. */
  lemma WreckedDirectory() returns (g: Geometry, root: nat, x: Volume)
    ensures Sound(g) && RecordsTile(g) && Inv(g, x) && root in Records(g, x)
    ensures
      var (w, n) := WriteFile(g, x, root, [0], 0);
      n == Some(1) && Ordered(g, w) && !Inv(g, w)
  {
    hide Coherent, NewRecord, Records, WriteFile, AllDirsOk, FileBlock, Quot, Rem, CanMap, MapCost, IsDir, DirOk,
         NumbersFit, BitmapsDistinct;
    FormattedIs(3);
    g := Small();
    var own;
    root, x, own := Rooted(g, Formatted(3), 3);
    BlankDir(DIRECTORY);
    assert IsDirMode(DIRECTORY);
    var r := NewRecord(DIRECTORY);
    BlankMaps(g, x.disk, DIRECTORY);
    QuotIs(0, 1024);
    QuotIs(1, 1024);
    assert CountFor(g, x, r, 0, 1) == 1;
    assert ToWrite(g, x, r, 0, [0]) == [0];
    WriteCounted(g, x, root, [0], 0);
    WriteKeepsInv(g, x, root, [0], 0);
  }

  // Three groups

  ghost predicate IsTriple(g: Geometry) {
    && g.blockSize == 1024 && g.blocksPerGroup == 8 && g.inodesPerGroup == 8 && g.inodeSize == 128
    && g.groupCount == 3 && g.firstDataBlock == 1
    && g.blockBitmap == [3, 4, 5] && g.inodeBitmap == [6, 7, 8] && g.inodeTable == [9, 10, 11] && g.fixed == {1, 2}
  }

  lemma TripleSound(g: Geometry)
    requires IsTriple(g)
    ensures Sound(g)
  {
    hide Times;
    forall k, group: nat, i: nat | group < g.groupCount && i < PerGroup(g, k)
      ensures Number(g, k, group, i) < 0x8000_0000
    {
      TimesIs(group, 8);
    }
  }

  lemma SumOfThree(s: seq<u16>)
    requires |s| == 3
    ensures Sum(s) == (s[0] as int) + (s[1] as int) + (s[2] as int)
  {
    assert s[1..][1..] == s[2..] && s[2..][1..] == [];
    assert s[1..][0] == s[1] && s[2..][0] == s[2];
    assert Sum(s[2..]) == s[2] as int;
    assert Sum(s[1..]) == s[1] as int + Sum(s[2..]);
  }

  /** Only the last of three groups has free blocks; preferring group 2^32 - 1, the allocator finds none. */
  lemma MissedGroup() returns (g: Geometry, v: Volume)
    ensures Sound(g) && CountsAgree(g, v) && g.groupCount == 3
    ensures Alloc(g, v, Blocks, 0x1_0000_0000 - 1).1.None? && Alloc(g, v, Blocks, 2).1.Some?
  {
    hide CountClear, Bit, Sum, NumbersFit, BitmapsDistinct, Find;
    g := Geometry(1024, 8, 8, 128, 3, 1, [3, 4, 5], [6, 7, 8], [9, 10, 11], {1, 2});
    var full, z := [255] + Zeros(1023), Zeros(1024);
    v := Volume(map[3 := full, 4 := full, 5 := z, 6 := z, 7 := z, 8 := z], [0, 0, 8], [8, 8, 8], 8, 24);
    TripleSound(g);
    Clear8(full);
    Clear8(z);
    SumOfThree(v.freeBlocks);
    SumOfThree(v.freeInodes);
    assert CountsAgree(g, v);
    WrapMissesAFreeGroup(g, v);
  }
}
