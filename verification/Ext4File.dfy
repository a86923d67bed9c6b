/** Reading and writing file contents through the block map. */
module Ext4File {
  import opened Wrappers
  import opened Bytes
  import opened Arith
  import opened Ext4Alloc
  import opened Ext4Map
  import opened Ext4Inode

  function Min(a: nat, b: nat): nat { if a <= b then a else b }

  /** The group an inode's blocks are preferably taken from. */
  function HomeGroup(g: Geometry, ino: nat): u32
    requires Sound(g) && Numbered(g, Inodes, ino)
  {
    GroupOf(g, Inodes, ino)
  }

  /** `ext4_write_inode` with its result ignored. */
  function PutRecord(g: Geometry, v: Volume, ino: nat, r: Record): (w: Volume)
    requires Sound(g) && Shape(g, v)
    ensures Shape(g, w)
  {
    if Addressable(g, v.disk, ino) then v.(disk := WithRecord(g, v.disk, ino, r)) else v
  }

  /** `ext4_free_block` with its result ignored. */
  function Freed(g: Geometry, v: Volume, b: nat): (w: Volume)
    requires Sound(g) && Shape(g, v)
    ensures Shape(g, w)
  {
    match Release(g, v, Blocks, b)
    case None => v
    case Some(w) => w
  }

  /** The block to write and what its buffer starts out as; `None` ends the write loop. */
  function BlockForWrite(g: Geometry, v: Volume, r: Record, fb: nat, group: u32): (s: (Volume, Record, Option<(nat,
                         seq<byte>)>))
    requires Sound(g) && Shape(g, v)
    ensures Shape(g, s.0) && (s.2.Some? ==> |s.2.value.1| == g.blockSize)
  {
    var d := FileBlock(g, v.disk, r, fb);
    if d != 0 then
      (v, r, if d in v.disk then Some((d, v.disk[d])) else None)
    else
      var (w, nb) := Alloc(g, v, Blocks, group);
      if nb.None? then (v, r, None) else
      var (x, r2, ok) := SetFileBlock(g, w, r, fb, nb.value, group);
      if !ok then (Freed(g, x, nb.value), r2, None)
      else (x, WithSectors(r2, Wrap32(Sectors(r2) + g.blockSize / 512)), Some((nb.value, Zeros(g.blockSize))))
  }

  /** The part of the buffer that the next round puts into one block. */
  function NextChunk(g: Geometry, buf: seq<byte>, off: nat, done: nat): (c: seq<byte>)
    requires Sound(g) && done < |buf|
    ensures c != [] && done + |c| <= |buf| && c == buf[done..done + |c|]
    ensures Rem(off + done, g.blockSize) + |c| <= g.blockSize
  {
    buf[done..done + Min(g.blockSize - Rem(off + done, g.blockSize), |buf| - done)]
  }

  /** Block `b` rewritten with `bytes` laid over `base`. */
  function WithChunk(g: Geometry, v: Volume, b: nat, base: seq<byte>, bo: nat, bytes: seq<byte>): (w: Volume)
    requires Sound(g) && Shape(g, v) && |base| == g.blockSize && bo + |bytes| <= g.blockSize
    ensures Shape(g, w)
  {
    v.(disk := v.disk[b := Splice(base, bo, bytes)])
  }

  /** One round of the write loop: the new volume and record, and the bytes written; 0 ends the loop. */
  function WriteRound(g: Geometry, v: Volume, r: Record, group: u32, buf: seq<byte>, off: nat,
                      done: nat): (s: (Volume, Record, nat))
    requires Sound(g) && Shape(g, v) && done < |buf|
    ensures Shape(g, s.0) && done + s.2 <= |buf|
  {
    var fb, bo := Quot(off + done, g.blockSize), Rem(off + done, g.blockSize);
    var (w, r2, got) := BlockForWrite(g, v, r, fb, group);
    if got.None? || got.value.0 !in w.disk then (w, r2, 0) else
    var chunk := NextChunk(g, buf, off, done);
    (WithChunk(g, w, got.value.0, got.value.1, bo, chunk), r2, |chunk|)
  }

  /** The volume, record and byte count when the write loop, entered with `done` bytes written, ends. */
  function WriteLoop(g: Geometry, v: Volume, r: Record, group: u32, buf: seq<byte>, off: nat, done: nat): (s: (Volume,
                     Record, nat))
    requires Sound(g) && Shape(g, v) && done <= |buf|
    ensures Shape(g, s.0) && done <= s.2 <= |buf|
    decreases |buf| - done
  {
    if done == |buf| then (v, r, done) else
    var (w, r2, n) := WriteRound(g, v, r, group, buf, off, done);
    if n == 0 then (w, r2, done) else WriteLoop(g, w, r2, group, buf, off, done + n)
  }

  /** The record stored after the loop: the size only ever grows. */
  function Sealed(r: Record, end: nat): Record {
    WithMtime(if end > Size(r) then WithSize(r, Wrap32(end)) else r, 0)
  }

  /** `ext4_write_file`: the new volume and the number of bytes written, `None` for no such inode. */
  function WriteFile(g: Geometry, v: Volume, ino: nat, buf: seq<byte>, off: nat): (s: (Volume, Option<nat>))
    requires Sound(g) && Shape(g, v)
    ensures Shape(g, s.0)
  {
    if !Addressable(g, v.disk, ino) then (v, None) else
    var (w, r, n) := WriteLoop(g, v, RecordAt(g, v.disk, ino), HomeGroup(g, ino), buf, off, 0);
    (PutRecord(g, w, ino, Sealed(r, off + n)), Some(n))
  }

  /** The bytes the read loop copies, stopping at the first unmapped block. */
  function ReadLoop(g: Geometry, disk: Disk, r: Record, off: nat, len: nat): (s: seq<byte>)
    requires Sound(g) && Blocky(g, disk)
    ensures |s| <= len
    decreases len
  {
    if len == 0 then [] else
    var d, bo := FileBlock(g, disk, r, Quot(off, g.blockSize)), Rem(off, g.blockSize);
    if d == 0 || d !in disk then [] else
    var n := Min(g.blockSize - bo, len);
    disk[d][bo..bo + n] + ReadLoop(g, disk, r, off + n, len - n)
  }

  /** `ext4_read_file`: what ends up in the caller's buffer, `None` for no such inode. */
  function ReadFile(g: Geometry, disk: Disk, ino: nat, off: nat, len: nat): Option<seq<byte>>
    requires Sound(g) && Blocky(g, disk)
  {
    if !Addressable(g, disk, ino) then None else
    Some(ReadRecord(g, disk, RecordAt(g, disk, ino), off, len))
  }

  function ReadRecord(g: Geometry, disk: Disk, r: Record, off: nat, len: nat): seq<byte>
    requires Sound(g) && Blocky(g, disk)
  {
    if off >= Size(r) then [] else
    ReadLoop(g, disk, r, off, Min(len, Size(r) - off))
  }

  // What a file holds, byte by byte

  /** The byte a record maps at offset `i`, whatever the file size. */
  function CellAt(g: Geometry, disk: Disk, r: Record, i: nat): Option<byte>
    requires Sound(g) && Blocky(g, disk)
  {
    var d := FileBlock(g, disk, r, Quot(i, g.blockSize));
    if d == 0 || d !in disk then None else Some(disk[d][Rem(i, g.blockSize)])
  }

  /** Within one block, consecutive offsets are consecutive bytes. */
  lemma ChunkCell(g: Geometry, disk: Disk, r: Record, off: nat, k: nat)
    requires Sound(g) && Blocky(g, disk) && Rem(off, g.blockSize) + k < g.blockSize
    ensures
      var d := FileBlock(g, disk, r, Quot(off, g.blockSize));
      CellAt(g, disk, r, off + k) == if d == 0 || d !in disk then None else Some(disk[d][Rem(off, g.blockSize) + k])
  {
    QuotRem(off, g.blockSize);
    QuotUnique(Quot(off, g.blockSize), g.blockSize, Rem(off, g.blockSize) + k);
  }

  /** A read returns exactly the longest run of mapped bytes, up to the length asked for. */
  lemma {:induction false} ReadLoopCells(g: Geometry, disk: Disk, r: Record, off: nat, len: nat)
    requires Sound(g) && Blocky(g, disk)
    ensures
      var s := ReadLoop(g, disk, r, off, len);
      && (forall k: nat :: k < |s| ==> CellAt(g, disk, r, off + k) == Some(s[k]))
      && (|s| < len ==> CellAt(g, disk, r, off + |s|).None?)
    decreases len
  {
    hide CellAt, FileBlock, NumbersFit, BitmapsDistinct, Quot, Rem;
    if len > 0 {
      var bo := Rem(off, g.blockSize);
      var d := FileBlock(g, disk, r, Quot(off, g.blockSize));
      ChunkCell(g, disk, r, off, 0);
      if d != 0 && d in disk {
        var n := Min(g.blockSize - bo, len);
        ReadLoopCells(g, disk, r, off + n, len - n);
        ReadLoopSplit(g, disk, r, off, len, n);
      }
    }
  }

  lemma ReadLoopSplit(g: Geometry, disk: Disk, r: Record, off: nat, len: nat, n: nat)
    requires Sound(g) && Blocky(g, disk) && 0 < n <= len && n == Min(g.blockSize - Rem(off, g.blockSize), len)
    requires
      var d := FileBlock(g, disk, r, Quot(off, g.blockSize));
      d != 0 && d in disk
    requires
      var s := ReadLoop(g, disk, r, off + n, len - n);
      && (forall k: nat :: k < |s| ==> CellAt(g, disk, r, off + n + k) == Some(s[k]))
      && (|s| < len - n ==> CellAt(g, disk, r, off + n + |s|).None?)
    ensures
      var s := ReadLoop(g, disk, r, off, len);
      && (forall k: nat :: k < |s| ==> CellAt(g, disk, r, off + k) == Some(s[k]))
      && (|s| < len ==> CellAt(g, disk, r, off + |s|).None?)
  {
    hide CellAt, FileBlock, NumbersFit, BitmapsDistinct;
    var s, rest := ReadLoop(g, disk, r, off, len), ReadLoop(g, disk, r, off + n, len - n);
    assert off + |s| == off + n + |rest|;
    forall k: nat | k < |s|
      ensures CellAt(g, disk, r, off + k) == Some(s[k])
    {
      if k < n {
        ChunkCell(g, disk, r, off, k);
      } else {
        assert off + k == off + n + (k - n) && s[k] == rest[k - n];
      }
    }
  }

  /** Mapped bytes below the file size read as they are mapped. */
  lemma ReadsMapped(g: Geometry, disk: Disk, r: Record, off: nat, bytes: seq<byte>)
    requires Sound(g) && Blocky(g, disk) && off + |bytes| <= Size(r)
    requires forall k: nat :: k < |bytes| ==> CellAt(g, disk, r, off + k) == Some(bytes[k])
    ensures ReadRecord(g, disk, r, off, |bytes|) == bytes
  {
    hide CellAt, ReadLoop;
    ReadLoopCells(g, disk, r, off, |bytes|);
    var s := ReadLoop(g, disk, r, off, |bytes|);
    var n := if |s| < |bytes| then |s| else 0;
    assert n < |bytes| ==> CellAt(g, disk, r, off + n) == Some(bytes[n]);
    forall k: nat | k < |s|
      ensures s[k] == bytes[k]
    {
      assert CellAt(g, disk, r, off + k) == Some(s[k]);
    }
    assert s == bytes;
  }

  /** A byte that reads is mapped and lies below the file size. */
  lemma ReadIsMapped(g: Geometry, disk: Disk, r: Record, i: nat, b: byte)
    requires Sound(g) && Blocky(g, disk) && ReadRecord(g, disk, r, i, 1) == [b]
    ensures i < Size(r) && CellAt(g, disk, r, i) == Some(b)
  {
    hide CellAt, ReadLoop;
    ReadLoopCells(g, disk, r, i, 1);
    var s := ReadLoop(g, disk, r, i, 1);
    assert s == [b] && CellAt(g, disk, r, i + 0) == Some(s[0]);
  }

  /**
   * A read fails only for want of the inode. It returns the mapped bytes from `off` on and stops at the
   * length asked for, at the end of the file, or at the first byte that is not mapped, whichever is first.
   */
  lemma ReadFileReads(g: Geometry, disk: Disk, ino: nat, off: nat, len: nat)
    requires Sound(g) && Blocky(g, disk)
    ensures ReadFile(g, disk, ino, off, len).Some? <==> Addressable(g, disk, ino)
    ensures Addressable(g, disk, ino) ==>
      var s, r := ReadFile(g, disk, ino, off, len).value, RecordAt(g, disk, ino);
      && |s| <= len && (s != [] ==> off + |s| <= Size(r))
      && (forall k: nat :: k < |s| ==> CellAt(g, disk, r, off + k) == Some(s[k]))
      && (|s| < len && off + |s| < Size(r) ==> CellAt(g, disk, r, off + |s|).None?)
  {
    hide CellAt, ReadLoop, RecordAt, Addressable, NumbersFit, BitmapsDistinct;
    if Addressable(g, disk, ino) {
      var r := RecordAt(g, disk, ino);
      if off < Size(r) {
        ReadLoopCells(g, disk, r, off, Min(len, Size(r) - off));
      }
    }
  }

  /** Two reads of the same length agree when every byte they could reach agrees. */
  lemma {:induction false} SameCellsSameRead(g: Geometry, d: Disk, r: Record, e: Disk, q: Record, off: nat, len: nat)
    requires Sound(g) && Blocky(g, d) && Blocky(g, e)
    requires forall i: nat :: off <= i < off + len ==> CellAt(g, e, q, i) == CellAt(g, d, r, i)
    ensures ReadLoop(g, e, q, off, len) == ReadLoop(g, d, r, off, len)
  {
    hide CellAt, ReadLoop;
    var s, t := ReadLoop(g, d, r, off, len), ReadLoop(g, e, q, off, len);
    ReadLoopCells(g, d, r, off, len);
    ReadLoopCells(g, e, q, off, len);
    var i, j := if |s| < |t| then |s| else 0, if |t| < |s| then |t| else 0;
    assert i < |t| ==> CellAt(g, e, q, off + i) == Some(t[i]);
    assert j < |s| ==> CellAt(g, d, r, off + j) == Some(s[j]);
    forall k | 0 <= k < |s|
      ensures s[k] == t[k]
    {
      assert CellAt(g, d, r, off + k) == Some(s[k]) && CellAt(g, e, q, off + k) == Some(t[k]);
    }
  }

  /** The same blocks, holding the same bytes. */
  ghost predicate SameFile(g: Geometry, d: Disk, r: Record, e: Disk, q: Record)
    requires Sound(g) && Blocky(g, d) && Blocky(g, e)
  {
    forall fb: nat ::
      && FileBlock(g, e, q, fb) == FileBlock(g, d, r, fb)
      && (FileBlock(g, d, r, fb) != 0 ==>
            FileBlock(g, d, r, fb) in d && FileBlock(g, d, r, fb) in e &&
            e[FileBlock(g, d, r, fb)] == d[FileBlock(g, d, r, fb)])
  }

  /** The same blocks, holding the same bytes, except for file block `but`. */
  ghost predicate SameFileBut(g: Geometry, d: Disk, r: Record, e: Disk, q: Record, but: nat)
    requires Sound(g) && Blocky(g, d) && Blocky(g, e)
  {
    forall fb: nat :: fb != but ==>
      && FileBlock(g, e, q, fb) == FileBlock(g, d, r, fb)
      && (FileBlock(g, d, r, fb) != 0 ==>
            FileBlock(g, d, r, fb) in d && FileBlock(g, d, r, fb) in e &&
            e[FileBlock(g, d, r, fb)] == d[FileBlock(g, d, r, fb)])
  }

  lemma SameFileThen(g: Geometry, d: Disk, r: Record, e: Disk, q: Record, f: Disk, p: Record)
    requires Sound(g) && Blocky(g, d) && Blocky(g, e) && Blocky(g, f)
    requires SameFile(g, d, r, e, q) && SameFile(g, e, q, f, p)
    ensures SameFile(g, d, r, f, p)
  {
    forall fb: nat
      ensures FileBlock(g, f, p, fb) == FileBlock(g, d, r, fb)
    {
      assert FileBlock(g, e, q, fb) == FileBlock(g, d, r, fb);
    }
  }

  /** A file of an owned volume is the same as itself: all its blocks are on the disk. */
  lemma SameFileSelf(g: Geometry, v: Volume, own: map<nat, Owner>, recs: map<nat, Record>, ino: nat)
    requires Sound(g) && Owned(g, v, own, recs) && ino in recs
    ensures SameFile(g, v.disk, recs[ino], v.disk, recs[ino])
  {
    forall fb: nat
      ensures FileBlock(g, v.disk, recs[ino], fb) != 0 ==> FileBlock(g, v.disk, recs[ino], fb) in v.disk
    {
      assert FileBlock(g, v.disk, recs[ino], fb) == PosBlock(g, v.disk, recs[ino], Leaf(RouteOf(g, fb)));
    }
  }

  // What becomes of a record, and of the blocks it names

  /** The file blocks that are mapped. */
  function MappedBlocks(g: Geometry, disk: Disk, r: Record): set<nat>
    requires Sound(g) && Blocky(g, disk)
  {
    set fb: nat | fb < 12 + PerBlock(g) + Times(PerBlock(g), PerBlock(g)) && FileBlock(g, disk, r, fb) != 0
  }

  /** The record's sector count is that of its mapped file blocks; indirect blocks do not count. */
  ghost predicate Counted(g: Geometry, disk: Disk, r: Record)
    requires Sound(g) && Blocky(g, disk)
  {
    Sectors(r) == Wrap32(Times(|MappedBlocks(g, disk, r)|, g.blockSize / 512))
  }

  /** The two records agree but for size, modification time, links, sectors and pointers. */
  ghost predicate SameRest(r: Record, q: Record) {
    forall i: nat :: i < 4 || 8 <= i < 16 || 20 <= i < 26 || 32 <= i < 40 || 100 <= i < 116 ==> q[i] == r[i]
  }

  /** A file whose mapped blocks stay where they are, on the way from `(d, r)` to `(e, q)`. */
  ghost predicate Grew(g: Geometry, d: Disk, r: Record, e: Disk, q: Record)
    requires Sound(g) && Blocky(g, d) && Blocky(g, e)
  {
    && SameRest(r, q)
    && (forall fb: nat :: FileBlock(g, d, r, fb) != 0 ==> FileBlock(g, e, q, fb) == FileBlock(g, d, r, fb))
    && (Counted(g, d, r) ==> Counted(g, e, q))
  }

  lemma GrewThen(g: Geometry, d: Disk, r: Record, e: Disk, q: Record, f: Disk, p: Record)
    requires Sound(g) && Blocky(g, d) && Blocky(g, e) && Blocky(g, f)
    requires Grew(g, d, r, e, q) && Grew(g, e, q, f, p)
    ensures Grew(g, d, r, f, p)
  {
    hide FileBlock, Counted, NumbersFit, BitmapsDistinct;
    forall i: nat | i < 4 || 8 <= i < 16 || 20 <= i < 26 || 32 <= i < 40 || 100 <= i < 116
      ensures p[i] == r[i]
    {
      assert q[i] == r[i];
    }
  }

  /** The same blocks are mapped, whatever they hold. */
  lemma GrewNone(g: Geometry, d: Disk, r: Record, e: Disk, q: Record)
    requires Sound(g) && Blocky(g, d) && Blocky(g, e) && SameRest(r, q) && Sectors(q) == Sectors(r)
    requires forall fb: nat :: FileBlock(g, e, q, fb) == FileBlock(g, d, r, fb)
    ensures Grew(g, d, r, e, q)
  {
    hide FileBlock, SameRest, NumbersFit, BitmapsDistinct, Times, Sectors;
    assert MappedBlocks(g, e, q) == MappedBlocks(g, d, r);
  }

  /** One more block is mapped and its sectors are counted. */
  lemma GrewOne(g: Geometry, d: Disk, r: Record, e: Disk, q: Record, fb: nat)
    requires Sound(g) && Blocky(g, d) && Blocky(g, e) && SameRest(r, q)
    requires Sectors(q) == Wrap32(Sectors(r) + g.blockSize / 512)
    requires forall f: nat :: f != fb ==> FileBlock(g, e, q, f) == FileBlock(g, d, r, f)
    requires FileBlock(g, d, r, fb) == 0 != FileBlock(g, e, q, fb)
    ensures Grew(g, d, r, e, q)
  {
    hide SameRest, NumbersFit, BitmapsDistinct, Sectors, FileBlock, Times, PerBlock, MappedBlocks;
    OneMoreMapped(g, d, r, e, q, fb);
    WrapAdds(|MappedBlocks(g, d, r)|, g.blockSize / 512);
  }

  lemma OneMoreMapped(g: Geometry, d: Disk, r: Record, e: Disk, q: Record, fb: nat)
    requires Sound(g) && Blocky(g, d) && Blocky(g, e)
    requires forall f: nat :: f != fb ==> FileBlock(g, e, q, f) == FileBlock(g, d, r, f)
    requires FileBlock(g, d, r, fb) == 0 != FileBlock(g, e, q, fb)
    ensures |MappedBlocks(g, e, q)| == |MappedBlocks(g, d, r)| + 1
  {
    hide NumbersFit, BitmapsDistinct, FileBlock, Times, PerBlock;
    MappedInReach(g, e, q, fb);
    assert MappedBlocks(g, e, q) == MappedBlocks(g, d, r) + {fb};
  }

  lemma WrapAdds(n: nat, c: nat)
    ensures Wrap32(Wrap32(Times(n, c)) + c) == Wrap32(Times(n + 1, c))
  {
  }

  /** No block behind the end of the file is mapped. */
  ghost predicate Tight(g: Geometry, disk: Disk, r: Record)
    requires Sound(g) && Blocky(g, disk)
  {
    forall fb: nat :: Times(fb, g.blockSize) >= Size(r) ==> FileBlock(g, disk, r, fb) == 0
  }

  /** The block or inode taken for inode `ino` is the first free one from that inode's group on. */
  lemma NearTaken(g: Geometry, v: Volume, own: map<nat, Owner>, recs: map<nat, Record>, k: Kind, ino: nat)
    requires Sound(g) && Shape(g, v) && Coherent(g, v, own, recs) && Numbered(g, Inodes, ino)
    requires Alloc(g, v, k, HomeGroup(g, ino)).1.Some?
    ensures FirstFree(g, v, k, GroupOf(g, Inodes, ino), Alloc(g, v, k, HomeGroup(g, ino)).1.value)
  {
    hide Alloc, CountsAgree, FirstFree, NumbersFit, BitmapsDistinct;
    AllocTakesFirst(g, v, k, HomeGroup(g, ino));
    assert Rem(HomeGroup(g, ino), g.groupCount) == HomeGroup(g, ino);
  }

  lemma MappedInReach(g: Geometry, disk: Disk, r: Record, fb: nat)
    requires Sound(g) && Blocky(g, disk) && FileBlock(g, disk, r, fb) != 0
    ensures fb < 12 + PerBlock(g) + Times(PerBlock(g), PerBlock(g))
  {
    hide Times;
  }

  /** One of the `n` bytes from `off` on lies in the same block as byte `i`. */
  predicate Touched(g: Geometry, off: nat, n: nat, i: nat)
    requires Sound(g)
  {
    n > 0 && Quot(off, g.blockSize) <= Quot(i, g.blockSize) <= Quot(off + n - 1, g.blockSize)
  }

  /** What byte `i` is after `bytes` were written at `off`; blocks opened for that hold zeros elsewhere. */
  function CellAfter(g: Geometry, before: Option<byte>, off: nat, bytes: seq<byte>, i: nat): Option<byte>
    requires Sound(g)
  {
    if off <= i < off + |bytes| then Some(bytes[i - off])
    else if before.Some? then before
    else if Touched(g, off, |bytes|, i) then Some(0)
    else None
  }

  /**
   * From `(d, recs)` to `(e, recs2)`, `bytes` were laid into inode `ino` at `off`: they are there
   * now, every other byte that was mapped is unchanged, the rest of newly mapped blocks is zero, and
   * every other inode is unchanged.
   */
  ghost predicate Wrote(g: Geometry, d: Disk, recs: map<nat, Record>, e: Disk, recs2: map<nat, Record>,
                        ino: nat, off: nat, bytes: seq<byte>)
    requires Sound(g) && Blocky(g, d) && Blocky(g, e) && ino in recs
  {
    && recs2.Keys == recs.Keys
    && (forall j :: j in recs && j != ino ==> recs2[j] == recs[j] && SameFile(g, d, recs[j], e, recs2[j]))
    && (forall i: nat :: CellAt(g, e, recs2[ino], i) == CellAfter(g, CellAt(g, d, recs[ino], i), off, bytes, i))
    && Size(recs2[ino]) == Size(recs[ino]) && Mode(recs2[ino]) == Mode(recs[ino])
    && Links(recs2[ino]) == Links(recs[ino]) && Grew(g, d, recs[ino], e, recs2[ino])
  }

  ghost predicate SamePointers(r: Record, q: Record) {
    forall j: nat :: j < 15 ==> Pointer(q, j) == Pointer(r, j)
  }

  /** Ownership sees only the pointers of a record. */
  lemma SamePointersOwned(g: Geometry, v: Volume, own: map<nat, Owner>, recs: map<nat, Record>, ino: nat, q: Record)
    requires Sound(g) && Owned(g, v, own, recs) && ino in recs && SamePointers(recs[ino], q)
    ensures Owned(g, v, own, recs[ino := q])
    ensures forall p :: PosBlock(g, v.disk, q, p) == PosBlock(g, v.disk, recs[ino], p)
  {
    forall p
      ensures PosBlock(g, v.disk, q, p) == PosBlock(g, v.disk, recs[ino], p)
    {
      match p
      case Leaf(Direct(i)) =>
        if i < 12 { assert Pointer(q, i) == Pointer(recs[ino], i); }
      case _ =>
        assert Pointer(q, IND) == Pointer(recs[ino], IND) && Pointer(q, DIND) == Pointer(recs[ino], DIND);
    }
    assert FilesOwned(g, v.disk, own, recs[ino := q]);
  }

  /** Rewriting a mapped block of `ino` changes that block of that file and nothing else. */
  lemma LeafStored(g: Geometry, v: Volume, own: map<nat, Owner>, recs: map<nat, Record>, ino: nat, fb: nat,
                   c: seq<byte>)
    requires Sound(g) && Coherent(g, v, own, recs) && ino in recs && |c| == g.blockSize
    requires FileBlock(g, v.disk, recs[ino], fb) != 0
    ensures FileBlock(g, v.disk, recs[ino], fb) in v.disk
    ensures
      var w := v.(disk := v.disk[FileBlock(g, v.disk, recs[ino], fb) := c]);
      && Coherent(g, w, own, recs) && InodesKept(own, v.disk, w.disk)
      && (forall j :: j in recs && j != ino ==> SameFile(g, v.disk, recs[j], w.disk, recs[j]))
      && (forall i: nat :: CellAt(g, w.disk, recs[ino], i) ==
            if Quot(i, g.blockSize) == fb then Some(c[Rem(i, g.blockSize)]) else CellAt(g, v.disk, recs[ino], i))
      && FileBlock(g, w.disk, recs[ino], fb) == FileBlock(g, v.disk, recs[ino], fb)
      && SameFileBut(g, v.disk, recs[ino], w.disk, recs[ino], fb)
  {
    var d := FileBlock(g, v.disk, recs[ino], fb);
    assert d == PosBlock(g, v.disk, recs[ino], Leaf(RouteOf(g, fb)));
    var w := v.(disk := v.disk[d := c]);
    StoreKeepsOwned(g, v, own, recs, d, c);
    PointerBlockWriteAgrees(g, v, own, d, w);
    forall j, f: nat | j in recs
      ensures FileBlock(g, w.disk, recs[j], f) == FileBlock(g, v.disk, recs[j], f)
      ensures FileBlock(g, v.disk, recs[j], f) == d ==> j == ino && f == fb
      ensures FileBlock(g, v.disk, recs[j], f) != 0 ==> FileBlock(g, v.disk, recs[j], f) in v.disk
    {
      assert FileBlock(g, v.disk, recs[j], f) == PosBlock(g, v.disk, recs[j], Leaf(RouteOf(g, f)));
      assert PosBlock(g, w.disk, recs[j], Leaf(RouteOf(g, f))) == PosBlock(g, v.disk, recs[j], Leaf(RouteOf(g, f)));
      if FileBlock(g, v.disk, recs[j], f) == d {
        RouteInjective(g, f, fb);
      }
    }
  }

  /** The offsets that a chunk at `bo` in block `fb` covers. */
  lemma ChunkRange(g: Geometry, fb: nat, bo: nat, n: nat, i: nat)
    requires Sound(g) && bo + n <= g.blockSize
    ensures Times(fb, g.blockSize) + bo <= i < Times(fb, g.blockSize) + bo + n <==>
      Quot(i, g.blockSize) == fb && bo <= Rem(i, g.blockSize) < bo + n
    ensures Quot(i, g.blockSize) == fb ==> i == Times(fb, g.blockSize) + Rem(i, g.blockSize)
  {
    QuotRem(i, g.blockSize);
    var off := Times(fb, g.blockSize) + bo;
    if off <= i < off + n {
      QuotUnique(fb, g.blockSize, bo + (i - off));
    }
  }

  // One round of the write loop

  /** What a round, or a whole loop, of writing leaves behind. */
  ghost predicate Written(g: Geometry, v: Volume, own: map<nat, Owner>, recs: map<nat, Record>, ino: nat,
                          w: Volume, own2: map<nat, Owner>, recs2: map<nat, Record>, off: nat, bytes: seq<byte>)
    requires Sound(g) && Shape(g, v) && Shape(g, w) && ino in recs
  {
    && Coherent(g, w, own2, recs2) && Extends(own, own2)
    && InodesKept(own, v.disk, w.disk)
    && Wrote(g, v.disk, recs, w.disk, recs2, ino, off, bytes)
  }

  /** Block `b` has been opened for file block `fb` of `ino`; nothing readable has changed yet. */
  ghost predicate Opened(g: Geometry, v: Volume, own: map<nat, Owner>, recs: map<nat, Record>, ino: nat, fb: nat,
                         w: Volume, own2: map<nat, Owner>, r: Record, b: nat)
    requires Sound(g) && Shape(g, v) && Shape(g, w) && ino in recs
  {
    && Coherent(g, w, own2, recs[ino := r]) && Extends(own, own2)
    && InodesKept(own, v.disk, w.disk)
    && b == FileBlock(g, w.disk, r, fb) != 0 && b in w.disk
    && Size(r) == Size(recs[ino]) && Mode(r) == Mode(recs[ino]) && Links(r) == Links(recs[ino])
    && Grew(g, v.disk, recs[ino], w.disk, r)
    && (forall j :: j in recs && j != ino ==> SameFile(g, v.disk, recs[j], w.disk, recs[j]))
    && (forall i: nat :: Quot(i, g.blockSize) != fb || FileBlock(g, v.disk, recs[ino], fb) != 0 ==>
          CellAt(g, w.disk, r, i) == CellAt(g, v.disk, recs[ino], i))
  }

  /** An unmapped file block is opened, or the volume is left exactly as it was. */
  lemma NewBlock(g: Geometry, v: Volume, own: map<nat, Owner>, recs: map<nat, Record>, ino: nat, fb: nat, group: u32)
    returns (own2: map<nat, Owner>)
    requires Sound(g) && Coherent(g, v, own, recs) && ino in recs
    requires FileBlock(g, v.disk, recs[ino], fb) == 0
    ensures
      var (w, r, got) := BlockForWrite(g, v, recs[ino], fb, group);
      && (got.None? ==> w == v && r == recs[ino])
      && (got.Some? ==> got.value.0 in w.disk && Opened(g, v, own, recs, ino, fb, w, own2, r, got.value.0))
  {
    hide CountsAgree, Alloc, NumbersFit, BitmapsDistinct, Opened, PosBlock, Remapped;
    own2 := own;
    var (w, nb) := Alloc(g, v, Blocks, group);
    if nb.Some? {
      AllocBlockOwned(g, v, own, recs, group);
      own2 := SetFileBlockMaps(g, w, own, recs, ino, fb, nb.value, group);
      var (x, r, ok) := SetFileBlock(g, w, recs[ino], fb, nb.value, group);
      if ok {
        MappedBlockOpened(g, v, own, recs, ino, fb, w, nb.value, x, own2, r);
      } else {
        ReleaseUndoesAlloc(g, v, Blocks, group);
      }
    }
  }

  lemma MappedBlockOpened(g: Geometry, v: Volume, own: map<nat, Owner>, recs: map<nat, Record>, ino: nat, fb: nat,
                          w: Volume, nb: nat, x: Volume, own2: map<nat, Owner>, r: Record)
    requires Sound(g) && Owned(g, v, own, recs) && Shape(g, w) && Shape(g, x) && ino in recs
    requires OnlyMaps(Blocks, own, v.disk, w.disk) && nb != 0
    requires forall j, p :: j in recs ==> PosBlock(g, w.disk, recs[j], p) == PosBlock(g, v.disk, recs[j], p)
    requires Remapped(g, w, own, recs, ino, RouteOf(g, fb), nb, x, own2, recs[ino := r])
    requires FileBlock(g, v.disk, recs[ino], fb) == 0
    ensures Opened(g, v, own, recs, ino, fb, x, own2, WithSectors(r, Wrap32(Sectors(r) + g.blockSize / 512)), nb)
  {
    hide FilesNumbered, MetaOwned, CountsAgree, NumbersFit, BitmapsDistinct, Quot, Rem, Grew, SameRest;
    var q := WithSectors(r, Wrap32(Sectors(r) + g.blockSize / 512));
    ScalarFrame(r, Wrap32(Sectors(r) + g.blockSize / 512), 0);
    SamePointersOwned(g, x, own2, recs[ino := r], ino, q);
    assert recs[ino := r][ino := q] == recs[ino := q];
    NewBlockKeepsFiles(g, v, own, recs, ino, fb, w, nb, x, own2, r, q);
    SectorsAdded(recs[ino], r, g.blockSize / 512);
    GrewOne(g, v.disk, recs[ino], x.disk, q, fb);
    forall i: nat | Quot(i, g.blockSize) != fb
      ensures CellAt(g, x.disk, q, i) == CellAt(g, v.disk, recs[ino], i)
    {
      var f := Quot(i, g.blockSize);
      assert FileBlock(g, x.disk, q, f) == FileBlock(g, v.disk, recs[ino], f);
    }
  }

  lemma SectorsAdded(r: Record, q: Record, n: nat)
    requires OnlyPointers(r, q)
    ensures
      var p := WithSectors(q, Wrap32(Sectors(q) + n));
      SameRest(r, p) && Links(p) == Links(r) && Sectors(p) == Wrap32(Sectors(r) + n)
  {
    assert q[26] == r[26] && q[27] == r[27] && q[28] == r[28] && q[29] == r[29] && q[30] == r[30] && q[31] == r[31];
  }

  lemma NewBlockKeepsFiles(g: Geometry, v: Volume, own: map<nat, Owner>, recs: map<nat, Record>, ino: nat, fb: nat,
                           w: Volume, nb: nat, x: Volume, own2: map<nat, Owner>, r: Record, q: Record)
    requires Sound(g) && Owned(g, v, own, recs) && Shape(g, w) && Shape(g, x) && ino in recs
    requires OnlyMaps(Blocks, own, v.disk, w.disk)
    requires forall j, p :: j in recs ==> PosBlock(g, w.disk, recs[j], p) == PosBlock(g, v.disk, recs[j], p)
    requires Remapped(g, w, own, recs, ino, RouteOf(g, fb), nb, x, own2, recs[ino := r])
    requires forall p :: PosBlock(g, x.disk, q, p) == PosBlock(g, x.disk, r, p)
    ensures InodesKept(own, v.disk, x.disk)
    ensures FileBlock(g, x.disk, q, fb) == nb
    ensures SameFileBut(g, v.disk, recs[ino], x.disk, q, fb)
    ensures forall j :: j in recs && j != ino ==> SameFile(g, v.disk, recs[j], x.disk, recs[j])
  {
    hide FilesNumbered, MetaOwned, CountsAgree, NumbersFit, BitmapsDistinct;
    var recs2 := recs[ino := q];
    forall j, f: nat | j in recs && (j != ino || f != fb)
      ensures FileBlock(g, x.disk, recs2[j], f) == FileBlock(g, v.disk, recs[j], f)
      ensures FileBlock(g, v.disk, recs[j], f) != 0 ==>
        var b := FileBlock(g, v.disk, recs[j], f); b in v.disk && x.disk[b] == v.disk[b]
    {
      var p := Leaf(RouteOf(g, f));
      if j == ino && RouteOf(g, f) == RouteOf(g, fb) && !RouteOf(g, f).Beyond? {
        RouteInjective(g, f, fb);
      }
      assert PosBlock(g, x.disk, recs[ino := r][j], p) == PosBlock(g, w.disk, recs[j], p);
      assert FileBlock(g, v.disk, recs[j], f) == PosBlock(g, v.disk, recs[j], p);
    }
    assert FileBlock(g, x.disk, q, fb) == PosBlock(g, x.disk, r, Leaf(RouteOf(g, fb)));
  }

  /**
   * Laying bytes over `base` in block `fb`, where `base` is what the block held, or zeros if the file
   * block was unmapped before.
   */
  lemma ChunkWritten(g: Geometry, v: Volume, own: map<nat, Owner>, recs: map<nat, Record>, ino: nat, fb: nat,
                     w: Volume, own2: map<nat, Owner>, r: Record, b: nat, base: seq<byte>, bo: nat, bytes: seq<byte>)
    requires Sound(g) && Shape(g, v) && Shape(g, w) && ino in recs && |base| == g.blockSize
    requires bytes != [] && bo + |bytes| <= g.blockSize && Opened(g, v, own, recs, ino, fb, w, own2, r, b)
    requires
      var d := FileBlock(g, v.disk, recs[ino], fb);
      if d == 0 then base == Zeros(g.blockSize) else d in v.disk && v.disk[d] == base
    ensures Written(g, v, own, recs, ino, WithChunk(g, w, b, base, bo, bytes), own2, recs[ino := r],
                    Times(fb, g.blockSize) + bo, bytes)
  {
    hide CountsAgree, NumbersFit, BitmapsDistinct, Times, Quot, Rem, CellAt, SameFile, FileBlock, Touched, Owned, Grew;
    var recs2 := recs[ino := r];
    var c := Splice(base, bo, bytes);
    LeafStored(g, w, own2, recs2, ino, fb, c);
    var x := WithChunk(g, w, b, base, bo, bytes);
    GrewNone(g, w.disk, r, x.disk, r);
    GrewThen(g, v.disk, recs[ino], w.disk, r, x.disk, r);
    var off := Times(fb, g.blockSize) + bo;
    forall i: nat
      ensures CellAt(g, x.disk, r, i) == CellAfter(g, CellAt(g, v.disk, recs[ino], i), off, bytes, i)
    {
      CellBefore(g, v, recs[ino], fb, base, i);
      ChunkRange(g, fb, bo, |bytes|, i);
      ChunkTouches(g, fb, bo, |bytes|, i);
    }
    forall j | j in recs && j != ino
      ensures SameFile(g, v.disk, recs[j], x.disk, recs[j])
    {
      SameFileThen(g, v.disk, recs[j], w.disk, recs2[j], x.disk, recs2[j]);
    }
  }

  /** What the bytes of file block `fb` were. */
  lemma CellBefore(g: Geometry, v: Volume, r: Record, fb: nat, base: seq<byte>, i: nat)
    requires Sound(g) && Shape(g, v) && |base| == g.blockSize
    requires
      var d := FileBlock(g, v.disk, r, fb);
      if d == 0 then base == Zeros(g.blockSize) else d in v.disk && v.disk[d] == base
    ensures Quot(i, g.blockSize) == fb ==> base[Rem(i, g.blockSize)] == CellAt(g, v.disk, r, i).GetOr(0)
    ensures Quot(i, g.blockSize) == fb ==> (CellAt(g, v.disk, r, i).None? <==> FileBlock(g, v.disk, r, fb) == 0)
  {
    hide FileBlock, NumbersFit, BitmapsDistinct;
  }

  /** A chunk within one block touches that block. */
  lemma ChunkTouches(g: Geometry, fb: nat, bo: nat, n: nat, i: nat)
    requires Sound(g) && 0 < n && bo + n <= g.blockSize
    ensures Touched(g, Times(fb, g.blockSize) + bo, n, i) <==> Quot(i, g.blockSize) == fb
  {
    QuotUnique(fb, g.blockSize, bo);
    QuotUnique(fb, g.blockSize, bo + n - 1);
    assert Times(fb, g.blockSize) + bo + n - 1 == Times(fb, g.blockSize) + (bo + n - 1);
  }

  lemma {:induction false} QuotStep(x: nat, d: nat)
    requires d > 0
    ensures Quot(x, d) <= Quot(x + 1, d) <= Quot(x, d) + 1
    decreases x
  {
    if x >= d {
      QuotStep(x - d, d);
    }
  }

  lemma {:induction false} QuotGrows(x: nat, y: nat, d: nat)
    requires d > 0 && x <= y
    ensures Quot(x, d) <= Quot(y, d)
    decreases y - x
  {
    if x < y {
      QuotGrows(x, y - 1, d);
      QuotStep(y - 1, d);
    }
  }

  /** Writing one stretch and then the next touches what writing both at once touches. */
  lemma TouchedThen(g: Geometry, off: nat, a: nat, b: nat, i: nat)
    requires Sound(g)
    ensures Touched(g, off, a + b, i) <==> Touched(g, off, a, i) || Touched(g, off + a, b, i)
  {
    hide Quot, NumbersFit, BitmapsDistinct;
    if a > 0 && b > 0 {
      QuotStep(off + a - 1, g.blockSize);
      QuotGrows(off, off + a - 1, g.blockSize);
      QuotGrows(off + a, off + a + b - 1, g.blockSize);
      assert off + (a + b) - 1 == off + a + b - 1;
    }
  }

  lemma WrittenNothing(g: Geometry, v: Volume, own: map<nat, Owner>, recs: map<nat, Record>, ino: nat, off: nat)
    requires Sound(g) && Coherent(g, v, own, recs) && ino in recs
    ensures Written(g, v, own, recs, ino, v, own, recs, off, [])
  {
    GrewNone(g, v.disk, recs[ino], v.disk, recs[ino]);
    forall j | j in recs
      ensures SameFile(g, v.disk, recs[j], v.disk, recs[j])
    {
      SameFileSelf(g, v, own, recs, j);
    }
  }

  lemma WrittenThen(g: Geometry, v: Volume, own: map<nat, Owner>, recs: map<nat, Record>, ino: nat,
                    x: Volume, own1: map<nat, Owner>, recs1: map<nat, Record>, off: nat, bytes: seq<byte>,
                    w: Volume, own2: map<nat, Owner>, recs2: map<nat, Record>, off1: nat, more: seq<byte>, all: seq<byte>)
    requires Sound(g) && Shape(g, v) && Shape(g, x) && Shape(g, w) && ino in recs && ino in recs1
    requires Written(g, v, own, recs, ino, x, own1, recs1, off, bytes)
    requires Written(g, x, own1, recs1, ino, w, own2, recs2, off1, more)
    requires off1 == off + |bytes| && all == bytes + more
    ensures Written(g, v, own, recs, ino, w, own2, recs2, off, all)
  {
    hide Coherent, CellAt, SameFile, NumbersFit, BitmapsDistinct, Grew;
    forall j | j in recs && j != ino
      ensures SameFile(g, v.disk, recs[j], w.disk, recs2[j])
    {
      SameFileThen(g, v.disk, recs[j], x.disk, recs1[j], w.disk, recs2[j]);
    }
    GrewThen(g, v.disk, recs[ino], x.disk, recs1[ino], w.disk, recs2[ino]);
    WroteThen(g, v.disk, recs[ino], x.disk, recs1[ino], w.disk, recs2[ino], off, bytes, more);
  }

  lemma WroteThen(g: Geometry, d: Disk, r: Record, e: Disk, q: Record, f: Disk, p: Record,
                  off: nat, bytes: seq<byte>, more: seq<byte>)
    requires Sound(g) && Blocky(g, d) && Blocky(g, e) && Blocky(g, f)
    requires forall i: nat :: CellAt(g, e, q, i) == CellAfter(g, CellAt(g, d, r, i), off, bytes, i)
    requires forall i: nat :: CellAt(g, f, p, i) == CellAfter(g, CellAt(g, e, q, i), off + |bytes|, more, i)
    ensures forall i: nat :: CellAt(g, f, p, i) == CellAfter(g, CellAt(g, d, r, i), off, bytes + more, i)
  {
    hide CellAt, Touched, NumbersFit, BitmapsDistinct;
    forall i: nat
      ensures CellAt(g, f, p, i) == CellAfter(g, CellAt(g, d, r, i), off, bytes + more, i)
    {
      TouchedThen(g, off, |bytes|, |more|, i);
    }
  }

  lemma AlreadyOpen(g: Geometry, v: Volume, own: map<nat, Owner>, recs: map<nat, Record>, ino: nat, fb: nat, group: u32)
    requires Sound(g) && Coherent(g, v, own, recs) && ino in recs
    requires FileBlock(g, v.disk, recs[ino], fb) != 0
    ensures Opened(g, v, own, recs, ino, fb, v, own, recs[ino], FileBlock(g, v.disk, recs[ino], fb))
    ensures FileBlock(g, v.disk, recs[ino], fb) in v.disk
    ensures
      var d := FileBlock(g, v.disk, recs[ino], fb);
      BlockForWrite(g, v, recs[ino], fb, group) == (v, recs[ino], Some((d, v.disk[d])))
  {
    assert FileBlock(g, v.disk, recs[ino], fb) == PosBlock(g, v.disk, recs[ino], Leaf(RouteOf(g, fb)));
    assert recs[ino := recs[ino]] == recs;
    GrewNone(g, v.disk, recs[ino], v.disk, recs[ino]);
    forall j | j in recs
      ensures SameFile(g, v.disk, recs[j], v.disk, recs[j])
    {
      SameFileSelf(g, v, own, recs, j);
    }
  }

  /** Whichever way the block for a round is found, it is open for writing. */
  lemma RoundOpens(g: Geometry, v: Volume, own: map<nat, Owner>, recs: map<nat, Record>, ino: nat, fb: nat, group: u32)
    returns (own2: map<nat, Owner>)
    requires Sound(g) && Coherent(g, v, own, recs) && ino in recs
    ensures
      var d := FileBlock(g, v.disk, recs[ino], fb);
      var (w, r, got) := BlockForWrite(g, v, recs[ino], fb, group);
      && (got.None? ==> w == v && r == recs[ino] && own2 == own)
      && (got.Some? ==>
            && got.value.0 in w.disk
            && (if d == 0 then got.value.1 == Zeros(g.blockSize) else d in v.disk && v.disk[d] == got.value.1)
            && Opened(g, v, own, recs, ino, fb, w, own2, r, got.value.0))
  {
    if FileBlock(g, v.disk, recs[ino], fb) == 0 {
      own2 := NewBlock(g, v, own, recs, ino, fb, group);
      if BlockForWrite(g, v, recs[ino], fb, group).2.None? {
        own2 := own;
      }
    } else {
      own2 := own;
      AlreadyOpen(g, v, own, recs, ino, fb, group);
    }
  }

  /** A round writes the bytes it counts; one that counts none changes nothing. */
  lemma RoundWrites(g: Geometry, v: Volume, own: map<nat, Owner>, recs: map<nat, Record>, ino: nat, group: u32,
                    buf: seq<byte>, off: nat, done: nat) returns (own2: map<nat, Owner>)
    requires Sound(g) && Shape(g, v) && Coherent(g, v, own, recs) && ino in recs && done < |buf|
    ensures
      var (w, r, n) := WriteRound(g, v, recs[ino], group, buf, off, done);
      Written(g, v, own, recs, ino, w, own2, recs[ino := r], off + done, buf[done..done + n])
  {
    hide Owned, CountsAgree, FileBlock, Opened, Written, BlockForWrite, Quot, Rem, Times, NextChunk, WithChunk, Splice,
         Alloc, SetFileBlock, Freed;
    var fb, bo := Quot(off + done, g.blockSize), Rem(off + done, g.blockSize);
    own2 := RoundOpens(g, v, own, recs, ino, fb, group);
    var (w, r, got) := BlockForWrite(g, v, recs[ino], fb, group);
    if got.Some? {
      ChunkWritten(g, v, own, recs, ino, fb, w, own2, r, got.value.0, got.value.1, bo, NextChunk(g, buf, off, done));
      assert Times(fb, g.blockSize) + bo == off + done by { QuotRem(off + done, g.blockSize); }
      return;
    }
    WrittenNothing(g, v, own, recs, ino, off + done);
    assert recs[ino := recs[ino]] == recs;
    assert buf[done..done + 0] == [];
  }

  /** The write loop lays exactly the bytes it counts, at the place it was asked to. */
  lemma {:induction false} WriteLoopWrites(g: Geometry, v: Volume, own: map<nat, Owner>, recs: map<nat, Record>,
                                           ino: nat,
                                           group: u32, buf: seq<byte>, off: nat, done: nat) returns (own2: map<nat, Owner>)
    requires Sound(g) && Shape(g, v) && Coherent(g, v, own, recs) && ino in recs && done <= |buf|
    ensures
      var (w, r, n) := WriteLoop(g, v, recs[ino], group, buf, off, done);
      Written(g, v, own, recs, ino, w, own2, recs[ino := r], off + done, buf[done..n])
    decreases |buf| - done
  {
    hide Owned, CountsAgree, Wrote, InodesKept, WriteRound, Splice;
    if done == |buf| {
      own2 := own;
      assert recs[ino := recs[ino]] == recs && buf[done..done] == [];
      WrittenNothing(g, v, own, recs, ino, off + done);
    } else {
      var own1 := RoundWrites(g, v, own, recs, ino, group, buf, off, done);
      own2 := own1;
      var (x, r, n) := WriteRound(g, v, recs[ino], group, buf, off, done);
      if n > 0 {
        own2 := LoopAfterRound(g, v, own, recs, ino, group, buf, off, done, x, own1, r, n);
      }
    }
  }

  lemma {:induction false} LoopAfterRound(g: Geometry, v: Volume, own: map<nat, Owner>, recs: map<nat, Record>,
                                          ino: nat,
                                          group: u32, buf: seq<byte>, off: nat, done: nat,
                                          x: Volume, own1: map<nat, Owner>, r: Record, n: nat) returns (own2: map<nat, Owner>)
    requires Sound(g) && Shape(g, v) && Shape(g, x) && ino in recs && 0 < n && done + n <= |buf|
    requires Written(g, v, own, recs, ino, x, own1, recs[ino := r], off + done, buf[done..done + n])
    ensures
      var (y, q, m) := WriteLoop(g, x, r, group, buf, off, done + n);
      Written(g, v, own, recs, ino, y, own2, recs[ino := q], off + done, buf[done..m])
    decreases |buf| - done, 0
  {
    hide Owned, CountsAgree, Wrote, InodesKept, WriteRound;
    var recs1 := recs[ino := r];
    own2 := WriteLoopWrites(g, x, own1, recs1, ino, group, buf, off, done + n);
    var (y, q, m) := WriteLoop(g, x, r, group, buf, off, done + n);
    assert buf[done..done + n] + buf[done + n..m] == buf[done..m];
    WrittenThen(g, v, own, recs, ino, x, own1, recs1, off + done, buf[done..done + n],
                y, own2, recs1[ino := q], off + (done + n), buf[done + n..m], buf[done..m]);
    assert recs1[ino := q] == recs[ino := q];
  }

  // Whole writes and reads

  /** Storing a live inode's record, with its pointers unchanged, after its blocks have been written. */
  lemma RecordStored(g: Geometry, v: Volume, own: map<nat, Owner>, recs: map<nat, Record>, ino: nat, q: Record)
    requires Sound(g) && RecordsTile(g) && Shape(g, v) && Coherent(g, v, own, recs) && ino in recs && Live(g, v, ino)
    requires SamePointers(recs[ino], q)
    ensures Addressable(g, v.disk, ino)
    ensures
      var w := PutRecord(g, v, ino, q);
      && Coherent(g, w, own, recs[ino := q])
      && Records(g, w) == Records(g, v)[ino := q]
      && (forall j :: j in recs ==> SameFile(g, v.disk, recs[j], w.disk, recs[ino := q][j]))
      && (forall m :: Live(g, w, m) == Live(g, v, m))
  {
    HomeOwned(g, v.disk, own, ino);
    WithRecordRecords(g, v, own, ino, q);
    var b := HomeBlock(g, ino);
    var w := PutRecord(g, v, ino, q);
    StoreKeepsOwned(g, v, own, recs, b, w.disk[b]);
    PointerBlockWriteAgrees(g, v, own, b, w);
    SamePointersOwned(g, w, own, recs, ino, q);
    forall j | j in recs
      ensures SameFile(g, v.disk, recs[j], w.disk, recs[ino := q][j])
    {
      TableWriteSameFile(g, v, own, recs, w, j, recs[ino := q][j], b);
    }
    forall m
      ensures Live(g, w, m) == Live(g, v, m)
    {
      if Numbered(g, Inodes, m) {
        assert BitmapBlock(g, Inodes, GroupOf(g, Inodes, m)) != b;
      }
    }
  }

  lemma TableWriteSameFile(g: Geometry, v: Volume, own: map<nat, Owner>, recs: map<nat, Record>, w: Volume, j: nat,
                           q: Record, b: nat)
    requires Sound(g) && Owned(g, v, own, recs) && Shape(g, w) && j in recs && b in own && own[b].Table?
    requires w.disk.Keys == v.disk.Keys && forall x :: x in v.disk && x != b ==> w.disk[x] == v.disk[x]
    requires forall p :: PosBlock(g, w.disk, q, p) == PosBlock(g, v.disk, recs[j], p)
    ensures SameFile(g, v.disk, recs[j], w.disk, q)
  {
    forall fb: nat
      ensures FileBlock(g, w.disk, q, fb) == FileBlock(g, v.disk, recs[j], fb)
      ensures FileBlock(g, v.disk, recs[j], fb) != 0 ==>
        FileBlock(g, v.disk, recs[j], fb) in v.disk && FileBlock(g, v.disk, recs[j], fb) != b
    {
      var p := Leaf(RouteOf(g, fb));
      assert PosBlock(g, w.disk, q, p) == PosBlock(g, v.disk, recs[j], p);
    }
  }

  /** What one call of `WriteFile` does to every file of the volume. */
  ghost predicate FileWritten(g: Geometry, v: Volume, own: map<nat, Owner>, ino: nat, w: Volume, own2: map<nat, Owner>,
                              off: nat, bytes: seq<byte>)
    requires Sound(g) && Shape(g, v) && Shape(g, w) && ino in Records(g, v)
  {
    && Coherent(g, w, own2, Records(g, w)) && Extends(own, own2)
    && Records(g, w).Keys == Records(g, v).Keys
    && (forall j :: j in Records(g, v) && j != ino ==>
          Records(g, w)[j] == Records(g, v)[j] && SameFile(g, v.disk, Records(g, v)[j], w.disk, Records(g, w)[j]))
    && (forall i: nat ::
          CellAt(g, w.disk, Records(g, w)[ino], i) == CellAfter(g, CellAt(g, v.disk, Records(g, v)[ino], i), off, bytes, i))
    && Mode(Records(g, w)[ino]) == Mode(Records(g, v)[ino]) && Links(Records(g, w)[ino]) == Links(Records(g, v)[ino])
    && Grew(g, v.disk, Records(g, v)[ino], w.disk, Records(g, w)[ino]) && Mtime(Records(g, w)[ino]) == 0
    && Size(Records(g, w)[ino]) == (if off + |bytes| > Size(Records(g, v)[ino]) then off + |bytes| else Size(Records(g, v)[ino]))
    && (forall m :: Live(g, w, m) == Live(g, v, m))
  }

  lemma SealedFrame(r: Record, end: nat)
    requires end < 0x1_0000_0000
    ensures SamePointers(r, Sealed(r, end)) && Mode(Sealed(r, end)) == Mode(r) && Links(Sealed(r, end)) == Links(r)
    ensures SameRest(r, Sealed(r, end)) && Sectors(Sealed(r, end)) == Sectors(r) && Mtime(Sealed(r, end)) == 0
    ensures Size(Sealed(r, end)) == if end > Size(r) then end else Size(r)
  {
    ScalarFrame(r, Wrap32(end), 0);
    ScalarFrame(if end > Size(r) then WithSize(r, Wrap32(end)) else r, 0, 0);
  }

  /**
   * A write puts the bytes it reports at the offset asked for, keeps every byte of the file that was
   * mapped elsewhere, leaves zeros in the rest of the blocks it opens and maps no others, and keeps
   * every other file; ownership and counters stay in order.
   */
  lemma WriteFileWrites(g: Geometry, v: Volume, own: map<nat, Owner>, ino: nat, buf: seq<byte>, off: nat)
    returns (own2: map<nat, Owner>)
    requires Sound(g) && RecordsTile(g) && Shape(g, v) && Coherent(g, v, own, Records(g, v))
    requires ino in Records(g, v) && off + |buf| < 0x1_0000_0000
    ensures
      var (w, n) := WriteFile(g, v, ino, buf, off);
      && n.Some? && n.value <= |buf|
      && FileWritten(g, v, own, ino, w, own2, off, buf[..n.value])
  {
    hide Coherent, Written, FileWritten, Records, RecordAt, WriteLoop, Sealed, PutRecord, Addressable, Live;
    var recs := Records(g, v);
    RecordFound(g, v, ino);
    own2 := WriteLoopWrites(g, v, own, recs, ino, HomeGroup(g, ino), buf, off, 0);
    var (x, r, n) := WriteLoop(g, v, recs[ino], HomeGroup(g, ino), buf, off, 0);
    LoopKeepsRecords(g, v, own, recs, ino, x, own2, recs[ino := r], off, buf[0..n]);
    LoopThenStore(g, v, own, ino, x, own2, r, off, buf[0..n]);
    assert buf[0..n] == buf[..n];
  }

  lemma RecordFound(g: Geometry, v: Volume, ino: nat)
    requires Sound(g) && Shape(g, v) && ino in Records(g, v)
    ensures Numbered(g, Inodes, ino) && Addressable(g, v.disk, ino) && Records(g, v)[ino] == RecordAt(g, v.disk, ino)
    ensures Live(g, v, ino)
  {
  }

  lemma LoopKeepsRecords(g: Geometry, v: Volume, own: map<nat, Owner>, recs: map<nat, Record>, ino: nat,
                         x: Volume, own2: map<nat, Owner>, recs2: map<nat, Record>, off: nat, bytes: seq<byte>)
    requires Sound(g) && RecordsTile(g) && Shape(g, v) && Shape(g, x) && Coherent(g, v, own, recs) && ino in recs
    requires Written(g, v, own, recs, ino, x, own2, recs2, off, bytes)
    ensures Records(g, x) == Records(g, v) && forall m :: Live(g, x, m) == Live(g, v, m)
  {
    SameRecords(g, v, x, own);
  }

  lemma LoopThenStore(g: Geometry, v: Volume, own: map<nat, Owner>, ino: nat, x: Volume, own2: map<nat, Owner>,
                      r: Record,
                      off: nat, bytes: seq<byte>)
    requires Sound(g) && RecordsTile(g) && Shape(g, v) && Shape(g, x) && ino in Records(g, v)
    requires Written(g, v, own, Records(g, v), ino, x, own2, Records(g, v)[ino := r], off, bytes)
    requires Records(g, x) == Records(g, v) && (forall m :: Live(g, x, m) == Live(g, v, m))
    requires off + |bytes| < 0x1_0000_0000
    ensures FileWritten(g, v, own, ino, PutRecord(g, x, ino, Sealed(r, off + |bytes|)), own2, off, bytes)
  {
    hide Owned, CountsAgree, Sealed, PutRecord, Live, RecordAt, CellAt, InodesKept, Splice, Records, Grew, SameRest;
    var recs := Records(g, v);
    var q := Sealed(r, off + |bytes|);
    var w := PutRecord(g, x, ino, q);
    SealedFrame(r, off + |bytes|);
    RecordFound(g, v, ino);
    RecordStored(g, x, own2, recs[ino := r], ino, q);
    assert recs[ino := r][ino := q] == recs[ino := q];
    SameFileGrew(g, x.disk, r, w.disk, q);
    GrewThen(g, v.disk, recs[ino], x.disk, r, w.disk, q);
    forall j | j in recs && j != ino
      ensures SameFile(g, v.disk, recs[j], w.disk, recs[j])
    {
      SameFileThen(g, v.disk, recs[j], x.disk, recs[ino := r][j], w.disk, recs[j]);
    }
    forall i: nat
      ensures CellAt(g, w.disk, q, i) == CellAt(g, x.disk, r, i)
    {
      SameFileCell(g, x.disk, r, w.disk, q, i);
    }
  }

  lemma SameFileGrew(g: Geometry, d: Disk, r: Record, e: Disk, q: Record)
    requires Sound(g) && Blocky(g, d) && Blocky(g, e) && SameFile(g, d, r, e, q)
    requires SameRest(r, q) && Sectors(q) == Sectors(r)
    ensures Grew(g, d, r, e, q)
  {
    hide FileBlock, SameRest, NumbersFit, BitmapsDistinct;
    GrewNone(g, d, r, e, q);
  }

  lemma SameFileCell(g: Geometry, d: Disk, r: Record, e: Disk, q: Record, i: nat)
    requires Sound(g) && Blocky(g, d) && Blocky(g, e) && SameFile(g, d, r, e, q)
    ensures CellAt(g, e, q, i) == CellAt(g, d, r, i)
  {
    var fb := Quot(i, g.blockSize);
    assert FileBlock(g, e, q, fb) == FileBlock(g, d, r, fb);
  }
}
