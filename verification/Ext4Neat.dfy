/** Sector counts and block placement: what runs keep, and where a write puts its first block. */
module Ext4Neat {
  import opened Wrappers
  import opened Bytes
  import opened Arith
  import opened Ext4Alloc
  import opened Ext4Map
  import opened Ext4Inode
  import opened Ext4File
  import opened Ext4Dir
  import opened Ext4Create
  import opened Ext4Cost
  import opened Ext4Run

  /** Every live inode maps nothing behind its end and counts the sectors of what it maps. */
  ghost predicate AllNeat(g: Geometry, v: Volume)
    requires Sound(g) && Shape(g, v)
  {
    forall j :: j in Records(g, v) ==> Neat(g, v.disk, Records(g, v)[j])
  }

  lemma KeptStaysNeat(g: Geometry, v: Volume, w: Volume, j: nat)
    requires Sound(g) && Shape(g, v) && Shape(g, w) && j in Records(g, v) && j in Records(g, w)
    requires Records(g, w)[j] == Records(g, v)[j]
    requires SameFile(g, v.disk, Records(g, v)[j], w.disk, Records(g, w)[j])
    requires Neat(g, v.disk, Records(g, v)[j])
    ensures Neat(g, w.disk, Records(g, w)[j])
  {
    hide Records, SameFile, Neatly, Neat;
    KeptNeatly(g, v, w, j);
    NeatStays(g, v.disk, Records(g, v)[j], w.disk, Records(g, w)[j]);
  }

  /** A write maps blocks up to its own end only, and the file then ends no earlier. */
  lemma WrittenTight(g: Geometry, v: Volume, own: map<nat, Owner>, ino: nat, w: Volume, own2: map<nat, Owner>,
                     off: nat, bytes: seq<byte>)
    requires Sound(g) && Shape(g, v) && Shape(g, w) && Coherent(g, v, own, Records(g, v)) && ino in Records(g, v)
    requires FileWritten(g, v, own, ino, w, own2, off, bytes) && Tight(g, v.disk, Records(g, v)[ino])
    ensures Tight(g, w.disk, Records(g, w)[ino])
  {
    hide Coherent, Records, FileBlock, CellAt, SameFile, Live, NumbersFit, BitmapsDistinct, Quot, Times, Grew;
    forall fb: nat | Times(fb, g.blockSize) >= Size(Records(g, w)[ino])
      ensures FileBlock(g, w.disk, Records(g, w)[ino], fb) == 0
    {
      BlockForeseen(g, v, own, ino, w, own2, off, bytes, fb);
      assert Times(fb, g.blockSize) >= Size(Records(g, v)[ino]);
      if Reaches(g, off, |bytes|, fb) {
        QuotRem(off + |bytes| - 1, g.blockSize);
        TimesMonotone(fb, Quot(off + |bytes| - 1, g.blockSize), g.blockSize);
      }
    }
  }

  lemma WriteStaysNeat(g: Geometry, v: Volume, ino: nat, buf: seq<byte>, off: nat)
    requires Sound(g) && RecordsTile(g) && Ordered(g, v) && AllNeat(g, v)
    requires ino in Records(g, v) && off + |buf| < 0x1_0000_0000
    ensures AllNeat(g, WriteFile(g, v, ino, buf, off).0)
  {
    hide Coherent, Records, WriteFile, SameFile, CellAt, Tight, Counted, Live;
    var own :| Coherent(g, v, own, Records(g, v));
    var own2 := WriteFileWrites(g, v, own, ino, buf, off);
    var (w, n) := WriteFile(g, v, ino, buf, off);
    WrittenTight(g, v, own, ino, w, own2, off, buf[..n.value]);
    forall j | j in Records(g, w)
      ensures Neat(g, w.disk, Records(g, w)[j])
    {
      if j != ino {
        KeptStaysNeat(g, v, w, j);
      }
    }
  }

  lemma CreateStaysNeat(g: Geometry, v: Volume, parent: nat, name: seq<byte>, mode: u16)
    requires Sound(g) && RecordsTile(g) && Ordered(g, v) && AllNeat(g, v)
    requires parent in Records(g, v) && DirOk(g, v.disk, Records(g, v)[parent]) && Numbered(g, Inodes, parent)
    ensures AllNeat(g, CreateFile(g, v, parent, name, mode).0)
  {
    hide Coherent, AllDirsOk, Records, CreateFile, SameFile, Neat, Neatly, FirstFree, Blank, WithOneMore, Entries, EntryCost,
         EntryFits, DirOk, IsDirMode;
    CreateFileCreates(g, v, parent, name, mode);
    var (w, n) := CreateFile(g, v, parent, name, mode);
    forall j | j in Records(g, w)
      ensures Neat(g, w.disk, Records(g, w)[j])
    {
      if j == parent && n.Some? {
        NeatStays(g, v.disk, Records(g, v)[j], w.disk, Records(g, w)[j]);
      } else if n.None? || j != n.value {
        KeptStaysNeat(g, v, w, j);
      }
    }
  }

  /** Every run of creations, mkdirs and any writes at all keeps every inode's sector count right. */
  lemma {:induction false} RunStaysNeat(g: Geometry, v: Volume, ops: seq<Op>)
    requires Sound(g) && RecordsTile(g) && Ordered(g, v) && AllNeat(g, v) && AllProper(g, v, ops)
    ensures AllNeat(g, Run(g, v, ops))
    decreases ops
  {
    hide Coherent, AllNeat, DirOk, WriteFile, CreateFile, Records;
    if ops != [] {
      StepKeeps(g, v, ops[0]);
      match ops[0] {
        case Write(ino, off, buf) =>
          WriteStaysNeat(g, v, ino, buf, off);
        case Create(parent, name, mode) =>
          RecordFound(g, v, parent);
          CreateStaysNeat(g, v, parent, name, mode);
      }
      RunStaysNeat(g, Apply(g, v, ops[0]), ops[1..]);
    }
  }

  // Where blocks go

  /** After the round that opens it, the block is the first free one, and the chunk is in it. */
  lemma RoundOpensNearest(g: Geometry, v: Volume, own: map<nat, Owner>, recs: map<nat, Record>, ino: nat,
                          buf: seq<byte>, off: nat) returns (own1: map<nat, Owner>)
    requires Sound(g) && Shape(g, v) && Coherent(g, v, own, recs) && ino in recs && Numbered(g, Inodes, ino) && buf != []
    requires FileBlock(g, v.disk, recs[ino], Quot(off, g.blockSize)) == 0
    requires WriteRound(g, v, recs[ino], HomeGroup(g, ino), buf, off, 0).2 > 0
    ensures
      var (x, r, n) := WriteRound(g, v, recs[ino], HomeGroup(g, ino), buf, off, 0);
      && Coherent(g, x, own1, recs[ino := r]) && InodesKept(own, v.disk, x.disk) && Extends(own, own1)
      && FileBlock(g, x.disk, r, Quot(off, g.blockSize)) != 0
      && FirstFree(g, v, Blocks, GroupOf(g, Inodes, ino), FileBlock(g, x.disk, r, Quot(off, g.blockSize)))
  {
    hide Owned, CountsAgree, FileBlock, Alloc, SetFileBlock, Quot, Rem, NextChunk, Splice, FirstFree, InodesKept, SameFile,
         SameFileBut, CellAt, Grew, Freed;
    var group, fb := HomeGroup(g, ino), Quot(off, g.blockSize);
    own1 := RoundOpens(g, v, own, recs, ino, fb, group);
    var (w, r, got) := BlockForWrite(g, v, recs[ino], fb, group);
    assert off + 0 == off;
    NearTaken(g, v, own, recs, Blocks, ino);
    LeafStored(g, w, own1, recs[ino := r], ino, fb, Splice(got.value.1, Rem(off, g.blockSize), NextChunk(g, buf, off, 0)));
    KeptTwice(own, own1, v.disk, w.disk, WriteRound(g, v, recs[ino], group, buf, off, 0).0.disk);
  }

  lemma KeptTwice(own: map<nat, Owner>, own1: map<nat, Owner>, d: Disk, e: Disk, f: Disk)
    requires InodesKept(own, d, e) && Extends(own, own1) && InodesKept(own1, e, f)
    ensures InodesKept(own, d, f)
  {
  }

  /** Storing the record leaves the blocks where they are. */
  lemma StoreKeepsBlock(g: Geometry, v: Volume, own: map<nat, Owner>, ino: nat, y: Volume, own2: map<nat, Owner>,
                        q: Record, end: nat, fb: nat)
    requires Sound(g) && RecordsTile(g) && Shape(g, v) && Shape(g, y) && Coherent(g, v, own, Records(g, v))
    requires ino in Records(g, v) && end < 0x1_0000_0000
    requires Coherent(g, y, own2, Records(g, v)[ino := q]) && InodesKept(own, v.disk, y.disk)
    ensures
      var w := PutRecord(g, y, ino, Sealed(q, end));
      ino in Records(g, w) && FileBlock(g, w.disk, Records(g, w)[ino], fb) == FileBlock(g, y.disk, q, fb)
  {
    hide Owned, CountsAgree, FileBlock, InodesKept, SameFile, PutRecord, Sealed, Records, RecordAt, Live, SameRest;
    StillRecorded(g, v, own, y);
    RecordFound(g, v, ino);
    SealedFrame(q, end);
    RecordStored(g, y, own2, Records(g, v)[ino := q], ino, Sealed(q, end));
    SameFileAt(g, y.disk, q, PutRecord(g, y, ino, Sealed(q, end)).disk, Sealed(q, end), fb);
  }

  lemma StillRecorded(g: Geometry, v: Volume, own: map<nat, Owner>, y: Volume)
    requires Sound(g) && RecordsTile(g) && Shape(g, v) && Shape(g, y) && Coherent(g, v, own, Records(g, v))
    requires InodesKept(own, v.disk, y.disk)
    ensures Records(g, y) == Records(g, v) && forall m :: Live(g, y, m) == Live(g, v, m)
  {
    SameRecords(g, v, y, own);
  }

  lemma SameFileAt(g: Geometry, d: Disk, r: Record, e: Disk, q: Record, fb: nat)
    requires Sound(g) && Blocky(g, d) && Blocky(g, e) && SameFile(g, d, r, e, q)
    ensures FileBlock(g, e, q, fb) == FileBlock(g, d, r, fb)
  {
    hide FileBlock;
  }

  /** The block opened for the first byte of a write is the first free one from the inode's own group on. */
  lemma WriteOpensNearest(g: Geometry, v: Volume, ino: nat, buf: seq<byte>, off: nat)
    requires Sound(g) && RecordsTile(g) && Ordered(g, v) && ino in Records(g, v) && off + |buf| < 0x1_0000_0000
    requires FileBlock(g, v.disk, Records(g, v)[ino], Quot(off, g.blockSize)) == 0
    requires WriteFile(g, v, ino, buf, off).1.GetOr(0) > 0
    ensures
      var w := WriteFile(g, v, ino, buf, off).0;
      && ino in Records(g, w) && Numbered(g, Inodes, ino)
      && FirstFree(g, v, Blocks, GroupOf(g, Inodes, ino), FileBlock(g, w.disk, Records(g, w)[ino], Quot(off, g.blockSize)))
  {
    hide Coherent, Records, WriteRound, RecordAt, Sealed, PutRecord, Addressable, FileBlock, Quot, Live, FirstFree, Extends,
         InodesKept, SameFile, CellAt, SameRest, Counted;
    var own :| Coherent(g, v, own, Records(g, v));
    RecordFound(g, v, ino);
    var recs, group, fb := Records(g, v), HomeGroup(g, ino), Quot(off, g.blockSize);
    var own1 := RoundOpensNearest(g, v, own, recs, ino, buf, off);
    var (x, r, n) := WriteRound(g, v, recs[ino], group, buf, off, 0);
    var own2 := WriteLoopWrites(g, x, own1, recs[ino := r], ino, group, buf, off, n);
    var (y, q, m) := WriteLoop(g, x, r, group, buf, off, n);
    KeptTwice(own, own1, v.disk, x.disk, y.disk);
    assert recs[ino := r][ino := q] == recs[ino := q];
    StoreKeepsBlock(g, v, own, ino, y, own2, q, off + m, fb);
  }
}
