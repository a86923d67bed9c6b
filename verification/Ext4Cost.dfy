/** What mapping blocks costs, and hence exactly when adding an entry succeeds and how much a write writes. */
module Ext4Cost {
  import opened Wrappers
  import opened Bytes
  import opened Arith
  import opened Ext4Alloc
  import opened Ext4Map
  import opened Ext4Inode
  import opened Ext4File
  import opened Ext4Dir
  import opened Ext4Create

  /** A new directory block takes one block, and a second one if the indirect block has to be made first. */
  function GrowthCost(g: Geometry, r: Record): nat
    requires Sound(g)
  {
    if RouteOf(g, DirBlocks(g, r)).Single? && Pointer(r, IND) == 0 then 2 else 1
  }

  /** The number of blocks that entering a name of `n` bytes takes: none if a record has the slack. */
  function EntryCost(g: Geometry, disk: Disk, r: Record, n: nat): nat
    requires Sound(g) && Blocky(g, disk)
  {
    if FindRoom(g, disk, r, Need(n), 0).Some? then 0 else GrowthCost(g, r)
  }

  /** The next directory block is one that the driver can map: not in the double-indirect range. */
  predicate Growable(g: Geometry, r: Record)
    requires Sound(g)
  {
    RouteOf(g, DirBlocks(g, r)).Direct? || RouteOf(g, DirBlocks(g, r)).Single?
  }

  /** There is room for a name of `n` bytes, or the directory can grow and the volume has the blocks. */
  predicate EntryFits(g: Geometry, v: Volume, r: Record, n: nat)
    requires Sound(g) && Shape(g, v)
  {
    FindRoom(g, v.disk, r, Need(n), 0).Some? || (Growable(g, r) && v.sbFreeBlocks >= GrowthCost(g, r))
  }

  lemma HomeExists(g: Geometry, ino: nat)
    requires Sound(g) && Numbered(g, Inodes, ino)
    ensures HomeGroup(g, ino) < g.groupCount
  {
  }

  /** Mapping a block: direct slots are free of charge, a missing indirect block costs one block. */
  lemma MappingCost(g: Geometry, v: Volume, own: map<nat, Owner>, recs: map<nat, Record>, ino: nat, fb: nat, nb: nat,
                    group: u32)
    requires Sound(g) && Coherent(g, v, own, recs) && ino in recs && group < g.groupCount
    ensures
      var (w, q, ok) := SetFileBlock(g, v, recs[ino], fb, nb, group);
      var cost := if RouteOf(g, fb).Single? && Pointer(recs[ino], IND) == 0 then 1 else 0;
      && (ok <==> (RouteOf(g, fb).Direct? || RouteOf(g, fb).Single?) && v.sbFreeBlocks >= cost)
      && (ok ==> w.sbFreeBlocks == v.sbFreeBlocks - cost && w.sbFreeInodes == v.sbFreeInodes && w.disk.Keys == v.disk.Keys)
      && (ok ==> (Pointer(q, IND) != 0 <==> Pointer(recs[ino], IND) != 0 || RouteOf(g, fb).Single?))
  {
    hide CountsAgree, Alloc, FilesNumbered, NumbersFit, BitmapsDistinct, MetaOwned;
    if RouteOf(g, fb).Direct? {
      PointerFrame(recs[ino], RouteOf(g, fb).i, Wrap32(nb));
    }
    if RouteOf(g, fb).Single? {
      CoherentCounts(g, v, own, recs);
      AllocCounts(g, v, Blocks, group);
      assert SbFree(Alloc(g, v, Blocks, group).0, Inodes) == SbFree(v, Inodes);
      if Pointer(recs[ino], IND) == 0 && Alloc(g, v, Blocks, group).1.Some? {
        AllocBlockOwned(g, v, own, recs, group);
        PointerFrame(recs[ino], IND, Wrap32(Alloc(g, v, Blocks, group).1.value));
      }
      assert PosBlock(g, v.disk, recs[ino], Ind) == Pointer(recs[ino], IND);
    }
  }

  lemma CoherentCounts(g: Geometry, v: Volume, own: map<nat, Owner>, recs: map<nat, Record>)
    requires Sound(g) && Coherent(g, v, own, recs)
    ensures CountsAgree(g, v)
  {
  }

  /** Growing a directory succeeds if and only if its next block can be mapped and the volume has the blocks it costs. */
  lemma GrowDirExactly(g: Geometry, v: Volume, own: map<nat, Owner>, dir: nat, e: Entry)
    requires Sound(g) && RecordsTile(g) && Shape(g, v) && Coherent(g, v, own, Records(g, v))
    requires dir in Records(g, v) && Addressable(g, v.disk, dir) && |e.name| < 256
    ensures
      var r := Records(g, v)[dir];
      var (w, ok) := GrowDir(g, v, dir, r, e);
      && (ok <==> Growable(g, r) && v.sbFreeBlocks >= GrowthCost(g, r))
      && (ok ==> w.sbFreeBlocks == v.sbFreeBlocks - GrowthCost(g, r) && w.sbFreeInodes == v.sbFreeInodes)
  {
    hide Coherent, CountsAgree, Records, Alloc, SetFileBlock, OneEntryBlock, Freed, WithRecord;
    RecordFound(g, v, dir);
    HomeExists(g, dir);
    var recs, group := Records(g, v), HomeGroup(g, dir);
    CoherentCounts(g, v, own, recs);
    AllocCounts(g, v, Blocks, group);
    assert SbFree(Alloc(g, v, Blocks, group).0, Inodes) == SbFree(v, Inodes);
    var (w, nb) := Alloc(g, v, Blocks, group);
    if nb.Some? {
      var c := OneEntryBlock(g.blockSize, e);
      FreshFilled(g, v, own, recs, group, c);
      var z := w.(disk := w.disk[nb.value := c]);
      MappingCost(g, z, own, recs, dir, DirBlocks(g, recs[dir]), nb.value, group);
    }
  }

  /** Adding an entry succeeds if and only if it fits, and takes exactly the blocks it costs. */
  lemma AddDirEntryExactly(g: Geometry, v: Volume, own: map<nat, Owner>, dir: nat, e: Entry)
    requires Sound(g) && RecordsTile(g) && Shape(g, v) && Coherent(g, v, own, Records(g, v))
    requires dir in Records(g, v) && |e.name| < 256
    ensures
      var r := Records(g, v)[dir];
      var (w, ok) := AddDirEntry(g, v, dir, e);
      && (ok <==> EntryFits(g, v, r, |e.name|))
      && (ok ==> w.sbFreeBlocks == v.sbFreeBlocks - EntryCost(g, v.disk, r, |e.name|) && w.sbFreeInodes == v.sbFreeInodes)
  {
    hide Coherent, Records, FindRoom, GrowDir, Inserted, RecordAt, Addressable;
    RecordFound(g, v, dir);
    if FindRoom(g, v.disk, Records(g, v)[dir], Need(|e.name|), 0).None? {
      GrowDirExactly(g, v, own, dir, e);
    }
  }

  /** Equal files have room in the same place. */
  lemma {:induction false} SameFileSameRoom(g: Geometry, d: Disk, r: Record, e: Disk, q: Record, need: nat, b: nat)
    requires Sound(g) && Blocky(g, d) && Blocky(g, e) && SameFile(g, d, r, e, q) && Size(q) == Size(r)
    ensures FindRoom(g, e, q, need, b) == FindRoom(g, d, r, need, b)
    decreases DirBlocks(g, r) - b
  {
    hide NumbersFit, BitmapsDistinct, FindSlack, Quot, Rem;
    if b < DirBlocks(g, r) {
      SameFileSameRoom(g, d, r, e, q, need, b + 1);
      assert FileBlock(g, e, q, b) == FileBlock(g, d, r, b);
    }
  }

  // How much a write writes

  /** The driver can map the file block: it is in the direct or the single-indirect range. */
  predicate CanMap(g: Geometry, fb: nat)
    requires Sound(g)
  {
    RouteOf(g, fb).Direct? || RouteOf(g, fb).Single?
  }

  /** The blocks that mapping a file block takes, given whether there is an indirect block. */
  function MapCost(g: Geometry, fb: nat, ind: bool): nat
    requires Sound(g)
  {
    if RouteOf(g, fb).Single? && !ind then 2 else 1
  }

  /**
   * How many of `len` bytes a write at `off` writes, with `free` blocks free: it stops at the first
   * unmapped block that cannot be mapped or that the volume has not the blocks for.
   */
  function WriteCount(g: Geometry, disk: Disk, r: Record, free: nat, ind: bool, off: nat, len: nat): (n: nat)
    requires Sound(g) && Blocky(g, disk)
    ensures n <= len
    decreases len
  {
    if len == 0 then 0 else
    var fb, n := Quot(off, g.blockSize), Min(g.blockSize - Rem(off, g.blockSize), len);
    if FileBlock(g, disk, r, fb) != 0 then n + WriteCount(g, disk, r, free, ind, off + n, len - n)
    else if !CanMap(g, fb) || free < MapCost(g, fb, ind) then 0
    else n + WriteCount(g, disk, r, free - MapCost(g, fb, ind), ind || RouteOf(g, fb).Single?, off + n, len - n)
  }

  /** A file block is mapped if and only if its bytes are. */
  lemma MappedCell(g: Geometry, v: Volume, own: map<nat, Owner>, recs: map<nat, Record>, ino: nat, fb: nat, k: nat)
    requires Sound(g) && Coherent(g, v, own, recs) && ino in recs && k < g.blockSize
    ensures
      var d := FileBlock(g, v.disk, recs[ino], fb);
      && (d != 0 ==> d in v.disk)
      && CellAt(g, v.disk, recs[ino], Times(fb, g.blockSize) + k) == (if d == 0 then None else Some(v.disk[d][k]))
  {
    hide CountsAgree, MetaOwned, FilesNumbered, NumbersFit, BitmapsDistinct, Quot, Rem, Times;
    QuotUnique(fb, g.blockSize, k);
    assert FileBlock(g, v.disk, recs[ino], fb) == PosBlock(g, v.disk, recs[ino], Leaf(RouteOf(g, fb)));
  }

  /** File block `fb` holds one of the `n` bytes from `off` on. */
  predicate Reaches(g: Geometry, off: nat, n: nat, fb: nat)
    requires Sound(g)
  {
    n > 0 && Quot(off, g.blockSize) <= fb <= Quot(off + n - 1, g.blockSize)
  }

  /** Writing maps exactly the blocks it reaches, besides those mapped before. */
  lemma WrittenMaps(g: Geometry, v: Volume, own: map<nat, Owner>, recs: map<nat, Record>, ino: nat,
                    w: Volume, own2: map<nat, Owner>, recs2: map<nat, Record>, off: nat, bytes: seq<byte>, fb: nat)
    requires Sound(g) && Shape(g, v) && Shape(g, w) && Coherent(g, v, own, recs) && ino in recs
    requires Written(g, v, own, recs, ino, w, own2, recs2, off, bytes)
    ensures FileBlock(g, w.disk, recs2[ino], fb) != 0 <==>
      FileBlock(g, v.disk, recs[ino], fb) != 0 || Reaches(g, off, |bytes|, fb)
  {
    hide Coherent, FileBlock, CellAt, NumbersFit, BitmapsDistinct, Quot, Times, InodesKept;
    MappedCell(g, v, own, recs, ino, fb, 0);
    MappedCell(g, w, own2, recs2, ino, fb, 0);
    var i := Times(fb, g.blockSize) + 0;
    QuotUnique(fb, g.blockSize, 0);
    InRangeReached(g, off, |bytes|, i);
    assert CellAt(g, w.disk, recs2[ino], i) == CellAfter(g, CellAt(g, v.disk, recs[ino], i), off, bytes, i);
  }

  lemma InRangeReached(g: Geometry, off: nat, n: nat, i: nat)
    requires Sound(g)
    ensures off <= i < off + n ==> Reaches(g, off, n, Quot(i, g.blockSize))
  {
    hide Quot, NumbersFit, BitmapsDistinct;
    if off <= i < off + n {
      QuotGrows(off, i, g.blockSize);
      QuotGrows(i, off + n - 1, g.blockSize);
    }
  }

  /** The block of one round: found, or mapped at its cost, or not to be had. */
  lemma BlockCost(g: Geometry, v: Volume, own: map<nat, Owner>, recs: map<nat, Record>, ino: nat, fb: nat, group: u32)
    requires Sound(g) && Shape(g, v) && Coherent(g, v, own, recs) && ino in recs && group < g.groupCount
    ensures
      var ind := Pointer(recs[ino], IND) != 0;
      var mapped := FileBlock(g, v.disk, recs[ino], fb) != 0;
      var (w, r, got) := BlockForWrite(g, v, recs[ino], fb, group);
      && (got.Some? <==> mapped || (CanMap(g, fb) && v.sbFreeBlocks >= MapCost(g, fb, ind)))
      && (got.Some? ==>
            && w.sbFreeBlocks == v.sbFreeBlocks - (if mapped then 0 else MapCost(g, fb, ind))
            && (Pointer(r, IND) != 0 <==> ind || (!mapped && RouteOf(g, fb).Single?)))
  {
    hide Coherent, CountsAgree, Alloc, SetFileBlock, Freed, FileBlock, NumbersFit, BitmapsDistinct;
    if FileBlock(g, v.disk, recs[ino], fb) != 0 {
      AlreadyOpen(g, v, own, recs, ino, fb, group);
    } else {
      CoherentCounts(g, v, own, recs);
      AllocCounts(g, v, Blocks, group);
      var (w, nb) := Alloc(g, v, Blocks, group);
      if nb.Some? {
        AllocBlockOwned(g, v, own, recs, group);
        MappingCost(g, w, own, recs, ino, fb, nb.value, group);
        var (x, q, ok) := SetFileBlock(g, w, recs[ino], fb, nb.value, group);
        ScalarFrame(q, Wrap32(Sectors(q) + g.blockSize / 512), 0);
      }
    }
  }

  /** From file block `b` on, the same blocks are mapped. */
  ghost predicate SameMapped(g: Geometry, d: Disk, r: Record, e: Disk, q: Record, b: nat)
    requires Sound(g) && Blocky(g, d) && Blocky(g, e)
  {
    forall fb: nat :: fb >= b ==> (FileBlock(g, e, q, fb) == 0 <==> FileBlock(g, d, r, fb) == 0)
  }

  /** One block's part of the count. */
  lemma CountStep(g: Geometry, disk: Disk, r: Record, free: nat, ind: bool, off: nat, len: nat)
    requires Sound(g) && Blocky(g, disk) && len > 0
    ensures
      var fb, n := Quot(off, g.blockSize), Min(g.blockSize - Rem(off, g.blockSize), len);
      var mapped := FileBlock(g, disk, r, fb) != 0;
      WriteCount(g, disk, r, free, ind, off, len) ==
        if mapped then n + WriteCount(g, disk, r, free, ind, off + n, len - n)
        else if !CanMap(g, fb) || free < MapCost(g, fb, ind) then 0
        else n + WriteCount(g, disk, r, free - MapCost(g, fb, ind), ind || RouteOf(g, fb).Single?, off + n, len - n)
  {
    hide FileBlock, NumbersFit, BitmapsDistinct, Quot, Rem, CanMap, MapCost, RouteOf;
  }

  /** Counting looks only at which blocks from the first one on are mapped. */
  lemma {:induction false} CountFrame(g: Geometry, d: Disk, r: Record, e: Disk, q: Record, free: nat, ind: bool,
                                      off: nat, len: nat)
    requires Sound(g) && Blocky(g, d) && Blocky(g, e) && SameMapped(g, d, r, e, q, Quot(off, g.blockSize))
    ensures WriteCount(g, e, q, free, ind, off, len) == WriteCount(g, d, r, free, ind, off, len)
    decreases len
  {
    hide WriteCount, SameMapped, FileBlock, NumbersFit, BitmapsDistinct, Quot, Rem, CanMap, MapCost, RouteOf;
    if len == 0 {
      CountNothing(g, d, r, free, ind, off);
      CountNothing(g, e, q, free, ind, off);
      return;
    }
    var fb, n := Quot(off, g.blockSize), Min(g.blockSize - Rem(off, g.blockSize), len);
    CountStep(g, d, r, free, ind, off, len);
    CountStep(g, e, q, free, ind, off, len);
    QuotGrows(off, off + n, g.blockSize);
    MappedLater(g, d, r, e, q, fb, Quot(off + n, g.blockSize));
    if FileBlock(g, d, r, fb) != 0 {
      CountFrame(g, d, r, e, q, free, ind, off + n, len - n);
    } else if CanMap(g, fb) && free >= MapCost(g, fb, ind) {
      CountFrame(g, d, r, e, q, free - MapCost(g, fb, ind), ind || RouteOf(g, fb).Single?, off + n, len - n);
    }
  }

  lemma MappedLater(g: Geometry, d: Disk, r: Record, e: Disk, q: Record, b: nat, c: nat)
    requires Sound(g) && Blocky(g, d) && Blocky(g, e) && SameMapped(g, d, r, e, q, b) && b <= c
    ensures SameMapped(g, d, r, e, q, c) && (FileBlock(g, e, q, b) == 0 <==> FileBlock(g, d, r, b) == 0)
  {
    hide FileBlock, NumbersFit, BitmapsDistinct;
  }

  /** A round writes its whole chunk or, if its block is not to be had, nothing. */
  lemma RoundCount(g: Geometry, v: Volume, own: map<nat, Owner>, recs: map<nat, Record>, ino: nat, group: u32,
                   buf: seq<byte>, off: nat, done: nat)
    requires Sound(g) && Shape(g, v) && Coherent(g, v, own, recs) && ino in recs && done < |buf| && group < g.groupCount
    ensures
      var fb, ind := Quot(off + done, g.blockSize), Pointer(recs[ino], IND) != 0;
      var mapped := FileBlock(g, v.disk, recs[ino], fb) != 0;
      var (w, r, n) := WriteRound(g, v, recs[ino], group, buf, off, done);
      if mapped || (CanMap(g, fb) && v.sbFreeBlocks >= MapCost(g, fb, ind)) then
        && n == Min(g.blockSize - Rem(off + done, g.blockSize), |buf| - done) > 0
        && w.sbFreeBlocks == v.sbFreeBlocks - (if mapped then 0 else MapCost(g, fb, ind))
        && (Pointer(r, IND) != 0 <==> ind || (!mapped && RouteOf(g, fb).Single?))
      else n == 0
  {
    hide Coherent, FileBlock, BlockForWrite, Opened, NumbersFit, BitmapsDistinct, Quot, CanMap, MapCost, Splice;
    var fb := Quot(off + done, g.blockSize);
    BlockCost(g, v, own, recs, ino, fb, group);
    var own2 := RoundOpens(g, v, own, recs, ino, fb, group);
  }

  lemma NextBlock(g: Geometry, off: nat, n: nat)
    requires Sound(g) && n == g.blockSize - Rem(off, g.blockSize)
    ensures Quot(off + n, g.blockSize) == Quot(off, g.blockSize) + 1
    ensures forall fb: nat :: Reaches(g, off, n, fb) <==> fb == Quot(off, g.blockSize)
  {
    QuotRem(off, g.blockSize);
    var q := Quot(off, g.blockSize);
    QuotUnique(q + 1, g.blockSize, 0);
    QuotUnique(q, g.blockSize, g.blockSize - 1);
    assert off + n == Times(q + 1, g.blockSize) + 0;
    assert off + n - 1 == Times(q, g.blockSize) + (g.blockSize - 1);
  }

  /** The write loop writes exactly as many bytes as can be counted beforehand. */
  lemma {:induction false} LoopCount(g: Geometry, v: Volume, own: map<nat, Owner>, recs: map<nat, Record>, ino: nat,
                                     group: u32, buf: seq<byte>, off: nat, done: nat)
    requires Sound(g) && Shape(g, v) && Coherent(g, v, own, recs) && ino in recs && done <= |buf| && group < g.groupCount
    ensures WriteLoop(g, v, recs[ino], group, buf, off, done).2 ==
      done + WriteCount(g, v.disk, recs[ino], v.sbFreeBlocks, Pointer(recs[ino], IND) != 0, off + done, |buf| - done)
    decreases |buf| - done
  {
    hide Coherent, FileBlock, WriteRound, WriteCount, Written, NumbersFit, BitmapsDistinct, Quot, Rem, CanMap, MapCost,
         Reaches;
    if done == |buf| {
      CountNothing(g, v.disk, recs[ino], v.sbFreeBlocks, Pointer(recs[ino], IND) != 0, off + done);
    } else {
      CountStep(g, v.disk, recs[ino], v.sbFreeBlocks, Pointer(recs[ino], IND) != 0, off + done, |buf| - done);
      RoundCount(g, v, own, recs, ino, group, buf, off, done);
      var (w, r, n) := WriteRound(g, v, recs[ino], group, buf, off, done);
      if n > 0 {
        var own2 := RoundWrites(g, v, own, recs, ino, group, buf, off, done);
        WrittenCoherent(g, v, own, recs, ino, w, own2, recs[ino := r], off + done, buf[done..done + n]);
        LoopCount(g, w, own2, recs[ino := r], ino, group, buf, off, done + n);
        CountAfterRound(g, v, own, recs, ino, w, own2, r, off + done, buf[done..done + n], |buf| - done,
                        w.sbFreeBlocks, Pointer(r, IND) != 0);
      }
    }
  }

  lemma WrittenCoherent(g: Geometry, v: Volume, own: map<nat, Owner>, recs: map<nat, Record>, ino: nat,
                        w: Volume, own2: map<nat, Owner>, recs2: map<nat, Record>, off: nat, bytes: seq<byte>)
    requires Sound(g) && Shape(g, v) && Shape(g, w) && ino in recs
    requires Written(g, v, own, recs, ino, w, own2, recs2, off, bytes)
    ensures Coherent(g, w, own2, recs2)
  {
  }

  /** What is still to be written after a round can be counted on the volume before it. */
  lemma CountAfterRound(g: Geometry, v: Volume, own: map<nat, Owner>, recs: map<nat, Record>, ino: nat,
                        w: Volume, own2: map<nat, Owner>, r: Record, off: nat, bytes: seq<byte>, len: nat, free: nat, ind: bool)
    requires Sound(g) && Shape(g, v) && Shape(g, w) && Coherent(g, v, own, recs) && ino in recs
    requires Written(g, v, own, recs, ino, w, own2, recs[ino := r], off, bytes)
    requires |bytes| == Min(g.blockSize - Rem(off, g.blockSize), len)
    ensures WriteCount(g, w.disk, r, free, ind, off + |bytes|, len - |bytes|) ==
            WriteCount(g, v.disk, recs[ino], free, ind, off + |bytes|, len - |bytes|)
  {
    hide Coherent, Written, FileBlock, NumbersFit, BitmapsDistinct, Quot, Rem, Reaches, WriteCount;
    var n := |bytes|;
    if n == len {
      CountNothing(g, w.disk, r, free, ind, off + n);
      CountNothing(g, v.disk, recs[ino], free, ind, off + n);
    } else {
      NextBlock(g, off, n);
      forall fb: nat | fb >= Quot(off + n, g.blockSize)
        ensures FileBlock(g, w.disk, r, fb) == 0 <==> FileBlock(g, v.disk, recs[ino], fb) == 0
      {
        WrittenMaps(g, v, own, recs, ino, w, own2, recs[ino := r], off, bytes, fb);
      }
      assert SameMapped(g, v.disk, recs[ino], w.disk, r, Quot(off + n, g.blockSize));
      CountFrame(g, v.disk, recs[ino], w.disk, r, free, ind, off + n, len - n);
    }
  }

  lemma CountNothing(g: Geometry, disk: Disk, r: Record, free: nat, ind: bool, off: nat)
    requires Sound(g) && Blocky(g, disk)
    ensures WriteCount(g, disk, r, free, ind, off, 0) == 0
  {
  }

  /** How much a write to a live inode writes, counted on the volume before it. */
  function CountFor(g: Geometry, v: Volume, r: Record, off: nat, len: nat): (n: nat)
    requires Sound(g) && Shape(g, v)
    ensures n <= len
  {
    WriteCount(g, v.disk, r, v.sbFreeBlocks, Pointer(r, IND) != 0, off, len)
  }

  /** A write returns exactly the number of bytes that can be counted beforehand. */
  lemma WriteFileCounts(g: Geometry, v: Volume, own: map<nat, Owner>, ino: nat, buf: seq<byte>, off: nat)
    requires Sound(g) && RecordsTile(g) && Shape(g, v) && Coherent(g, v, own, Records(g, v)) && ino in Records(g, v)
    ensures WriteFile(g, v, ino, buf, off).1 == Some(CountFor(g, v, Records(g, v)[ino], off, |buf|))
  {
    hide Coherent, Records, RecordAt, WriteLoop, WriteCount, PutRecord, Addressable, Live, Sealed;
    RecordFound(g, v, ino);
    HomeExists(g, ino);
    LoopCount(g, v, own, Records(g, v), ino, HomeGroup(g, ino), buf, off, 0);
  }
}
