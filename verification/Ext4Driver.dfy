/** The driver itself: buffers, scan loops and copy loops, proved against the functions above. */
module Ext4Driver {
  import opened Wrappers
  import opened Bytes
  import opened Arith
  import opened Bitmap
  import opened Ext4Alloc
  import opened Ext4Map
  import opened Ext4Inode
  import opened Ext4File
  import opened Ext4Dir
  import opened Ext4Create
  import opened Ext4Run

  lemma {:induction false} FirstClearIs(bm: seq<byte>, from: nat, n: nat, i: nat)
    requires from <= i <= n <= 8 * |bm| && (i < n ==> !Bit(bm, i))
    requires forall j: nat :: from <= j < i ==> Bit(bm, j)
    ensures FirstClear(bm, from, n) == i
    decreases i - from
  {
    if from < i {
      FirstClearIs(bm, from + 1, n, i);
    }
  }

  lemma SpliceTwice(s: seq<byte>, o: nat, a: seq<byte>, b: seq<byte>)
    requires o + |a| + |b| <= |s|
    ensures Splice(Splice(s, o, a), o + |a|, b) == Splice(s, o, a + b)
  {
    var l, r := Splice(Splice(s, o, a), o + |a|, b), Splice(s, o, a + b);
    assert forall i :: 0 <= i < |s| ==> l[i] == r[i];
  }

  /** After the new inode's record is written, the parent is still a well-formed directory. */
  lemma DirsAfterBirth(g: Geometry, v: Volume, parent: nat, group: u32, mode: u16)
    requires Sound(g) && RecordsTile(g) && Ordered(g, v)
    requires parent in Records(g, v) && DirOk(g, v.disk, Records(g, v)[parent]) && Alloc(g, v, Inodes, group).1.Some?
    ensures
      var (w, n) := Alloc(g, v, Inodes, group);
      var x := PutRecord(g, w, n.value, NewRecord(mode));
      && (exists own :: Coherent(g, x, own, Records(g, x)))
      && n.value < 0x8000_0000 && n.value != parent
      && Records(g, x) == Records(g, v)[n.value := NewRecord(mode)]
      && Addressable(g, x.disk, parent) && RecordAt(g, x.disk, parent) == Records(g, x)[parent]
      && DirOk(g, x.disk, Records(g, x)[parent])
  {
    hide Coherent, Records, SameFile, DirOk, Entries, Alloc, PutRecord, NewRecord, RecordAt, Addressable, Live, IsDir;
    var own :| Coherent(g, v, own, Records(g, v));
    InodeBorn(g, v, own, group, mode);
    var (w, n) := Alloc(g, v, Inodes, group);
    NotRecorded(g, v, n.value);
    var x := PutRecord(g, w, n.value, NewRecord(mode));
    SameFileSameDir(g, v.disk, Records(g, v)[parent], x.disk, Records(g, x)[parent]);
    RecordFound(g, x, parent);
  }

  /** After the parent has its entry, the new inode still has the blank record. */
  lemma DirsAfterEntry(g: Geometry, v: Volume, parent: nat, group: u32, mode: u16, x: Volume, e: Entry)
    requires Sound(g) && RecordsTile(g) && Ordered(g, v) && parent in Records(g, v) && DirOk(g, v.disk, Records(g, v)[parent])
    requires Alloc(g, v, Inodes, group).1.Some? && |e.name| < 256
    requires x == PutRecord(g, Alloc(g, v, Inodes, group).0, Alloc(g, v, Inodes, group).1.value, NewRecord(mode))
    ensures Shape(g, x)
    ensures
      var y, n := AddDirEntry(g, x, parent, e).0, Alloc(g, v, Inodes, group).1.value;
      && (exists own :: Coherent(g, y, own, Records(g, y)))
      && n in Records(g, y) && Size(Records(g, y)[n]) == 0
  {
    hide Coherent, Records, SameFile, DirOk, Entries, Alloc, PutRecord, NewRecord, RecordAt, Addressable, Live, IsDir,
         WithOneMore, AddDirEntry;
    DirsAfterBirth(g, v, parent, group, mode);
    BlankDir(mode);
    var own :| Coherent(g, x, own, Records(g, x));
    var own2 := TryAdd(g, x, own, parent, e);
  }

  /** One round of the read loop, written out. */
  lemma ReadLoopRound(g: Geometry, disk: Disk, r: Record, off: nat, len: nat)
    requires Sound(g) && Blocky(g, disk)
    ensures
      var d, bo := FileBlock(g, disk, r, Quot(off, g.blockSize)), Rem(off, g.blockSize);
      var n := Min(g.blockSize - bo, len);
      ReadLoop(g, disk, r, off, len) ==
        if len == 0 || d == 0 || d !in disk then [] else disk[d][bo..bo + n] + ReadLoop(g, disk, r, off + n, len - n)
  {
  }

  lemma ReadLoopNothing(g: Geometry, disk: Disk, r: Record, off: nat)
    requires Sound(g) && Blocky(g, disk)
    ensures ReadLoop(g, disk, r, off, 0) == []
  {
  }

  lemma WriteLoopStep(g: Geometry, v: Volume, r: Record, group: u32, buf: seq<byte>, off: nat, done: nat)
    requires Sound(g) && Shape(g, v) && done <= |buf|
    ensures done == |buf| ==> WriteLoop(g, v, r, group, buf, off, done) == (v, r, done)
    ensures done < |buf| ==>
      var (w, r2, n) := WriteRound(g, v, r, group, buf, off, done);
      && NextChunk(g, buf, off, done) ==
           buf[done..done + Min(g.blockSize - Rem(off + done, g.blockSize), |buf| - done)]
      && WriteLoop(g, v, r, group, buf, off, done) ==
           if n == 0 then (w, r2, done) else WriteLoop(g, w, r2, group, buf, off, done + n)
  {
    hide WriteRound, Quot, Rem, Times, NumbersFit, BitmapsDistinct;
  }

  /** `struct ext4_fs` and the block device behind it. */
  class Driver {
    const g: Geometry
    var disk: Disk
    var freeBlocks: seq<u16>
    var freeInodes: seq<u16>
    var sbFreeBlocks: u32
    var sbFreeInodes: u32

    ghost function Vol(): Volume
      reads this
    {
      Volume(disk, freeBlocks, freeInodes, sbFreeBlocks, sbFreeInodes)
    }

    ghost predicate Ready()
      reads this
    {
      Sound(g) && Shape(g, Vol())
    }

    constructor (g: Geometry, v: Volume)
      requires Sound(g) && Shape(g, v)
      ensures this.g == g && Vol() == v && Ready()
    {
      this.g := g;
      disk := v.disk;
      freeBlocks, freeInodes := v.freeBlocks, v.freeInodes;
      sbFreeBlocks, sbFreeInodes := v.sbFreeBlocks, v.sbFreeInodes;
    }

    // Block I/O: the device fails on blocks that it does not have.

    method ReadBlock(b: nat, buf: array<byte>) returns (ok: bool)
      requires Ready() && buf.Length == g.blockSize
      modifies buf
      ensures ok == (b in disk)
      ensures buf[..] == if ok then disk[b] else old(buf[..])
    {
      ok := b in disk;
      if ok {
        for i := 0 to buf.Length
          invariant buf[..i] == disk[b][..i]
        {
          buf[i] := disk[b][i];
        }
      }
    }

    method WriteBlock(b: nat, buf: array<byte>) returns (ok: bool)
      requires Ready() && buf.Length == g.blockSize
      modifies this`disk
      ensures ok == (b in old(disk)) && disk == Stored(old(disk), b, buf[..]) && Ready()
    {
      ok := b in disk;
      if ok {
        disk := disk[b := buf[..]];
      }
    }

    /** The first clear bit below `limit`, looking at the first `bytes` bytes of the bitmap. */
    method FindClear(bitmap: array<byte>, bytes: nat, limit: nat) returns (i: nat)
      requires bytes <= bitmap.Length && limit <= 8 * bytes
      ensures i == FirstClear(bitmap[..], 0, limit)
    {
      var n := 0;
      while n < bytes
        invariant n <= bytes
        invariant forall j: nat :: j < 8 * n && j < limit ==> Bit(bitmap[..], j)
      {
        FullByte(bitmap[n]);
        if bitmap[n] != 0xFF {
          var bit := 0;
          while bit < 8
            invariant bit <= 8
            invariant forall j: nat :: j < 8 * n + bit && j < limit ==> Bit(bitmap[..], j)
          {
            if !TestBit(bitmap[n], bit) {
              var at := n * 8 + bit;
              if at >= limit { break; }
              FirstClearIs(bitmap[..], 0, limit, at);
              return at;
            }
            bit := bit + 1;
          }
        } else {
          forall j: nat | 8 * n <= j < 8 * n + 8
            ensures Bit(bitmap[..], j)
          {
            Pow2Of8();
            AllOnes(8, j % 8);
          }
        }
        n := n + 1;
      }
      FirstClearIs(bitmap[..], 0, limit, limit);
      i := limit;
    }

    method AllocBit(k: Kind, preferred: u32) returns (r: Option<nat>)
      requires Ready()
      modifies this
      ensures Ready() && (Vol(), r) == Alloc(g, old(Vol()), k, preferred)
    {
      hide TestBit, OrBit, Quot, Rem, FirstClear, CountClear;
      ghost var v := Vol();
      var bitmap := new byte[g.blockSize];
      var bytes := if k.Blocks? then g.blockSize else g.inodesPerGroup / 8;
      var round := 0;
      while round < g.groupCount
        invariant round <= g.groupCount && Vol() == v && bitmap.Length == g.blockSize
        invariant Find(g, v, k, preferred, 0) == Find(g, v, k, preferred, round)
      {
        var _, group := Place((preferred + round) % 0x1_0000_0000, g.groupCount);
        assert group == GroupAt(g, preferred, round);
        var free := if k.Blocks? then freeBlocks[group] else freeInodes[group];
        var b := BitmapBlock(g, k, group);
        if free != 0 {
          var ok := ReadBlock(b, bitmap);
          if ok {
            var i := FindClear(bitmap, bytes, PerGroup(g, k));
            if i < PerGroup(g, k) {
              Take(k, group, i, bitmap);
              return Some(Number(g, k, group, i));
            }
          }
        }
        round := round + 1;
      }
      r := None;
    }

    /** Set the bit in the buffer, write the bitmap back and count the number as taken. */
    method Take(k: Kind, group: nat, i: nat, bitmap: array<byte>)
      requires Ready() && group < g.groupCount && i < PerGroup(g, k) && bitmap.Length == g.blockSize
      requires BitmapBlock(g, k, group) in disk && bitmap[..] == disk[BitmapBlock(g, k, group)]
      modifies this, bitmap
      ensures Ready() && Vol() == Taken(g, old(Vol()), k, group, i)
    {
      hide TestBit, OrBit, Quot, Rem;
      ghost var bm := bitmap[..];
      Pow2Of8();
      OrBitFits(bitmap[i / 8], i % 8, 8);
      bitmap[i / 8] := OrBit(bitmap[i / 8], i % 8);
      assert bitmap[..] == SetBit(bm, i);
      var ok := WriteBlock(BitmapBlock(g, k, group), bitmap);
      if k.Blocks? {
        freeBlocks := freeBlocks[group := Wrap16((freeBlocks[group] as int) - 1)];
        sbFreeBlocks := Wrap32((sbFreeBlocks as int) - 1);
      } else {
        freeInodes := freeInodes[group := Wrap16((freeInodes[group] as int) - 1)];
        sbFreeInodes := Wrap32((sbFreeInodes as int) - 1);
      }
    }

    /** `ext4_free_block` and `ext4_free_inode`. */
    method FreeBit(k: Kind, n: nat) returns (ok: bool)
      requires Ready()
      modifies this
      ensures Ready()
      ensures match Release(g, old(Vol()), k, n) case None => !ok && Vol() == old(Vol()) case Some(w) => ok && Vol() == w
    {
      hide TestBit, AndNotBit, Times;
      if n < Base(g, k) { return false; }
      var group, i := (n - Base(g, k)) / PerGroup(g, k), (n - Base(g, k)) % PerGroup(g, k);
      QuotIs(n - Base(g, k), PerGroup(g, k));
      if group >= g.groupCount { return false; }
      var b := BitmapBlock(g, k, group);
      var bitmap := new byte[g.blockSize];
      ok := ReadBlock(b, bitmap);
      if !ok { return; }
      ghost var bm := bitmap[..];
      bitmap[i / 8] := AndNotBit(bitmap[i / 8], i % 8);
      assert bitmap[..] == ClearBit(bm, i);
      ok := WriteBlock(b, bitmap);
      if k.Blocks? {
        freeBlocks := freeBlocks[group := Wrap16((freeBlocks[group] as int) + 1)];
        sbFreeBlocks := Wrap32((sbFreeBlocks as int) + 1);
      } else {
        freeInodes := freeInodes[group := Wrap16((freeInodes[group] as int) + 1)];
        sbFreeInodes := Wrap32((sbFreeInodes as int) + 1);
      }
    }

    // Inode records

    /** The table block and byte offset of an inode's record, if there is such an inode. */
    method Locate(ino: nat) returns (at: Option<(nat, nat)>)
      requires Ready() && RecordsTile(g)
      ensures at.Some? <==> Numbered(g, Inodes, ino)
      ensures at.Some? ==> at.value == (HomeBlock(g, ino), HomeOffset(g, ino)) && at.value.1 + RECORD_BYTES <= g.blockSize
    {
      if ino == 0 { return None; }
      var group, index := (ino - 1) / g.inodesPerGroup, (ino - 1) % g.inodesPerGroup;
      QuotIs(ino - 1, g.inodesPerGroup);
      if group >= g.groupCount { return None; }
      var start := index * g.inodeSize;
      TimesIs(index, g.inodeSize);
      QuotIs(start, g.blockSize);
      RecordInTable(g, index);
      at := Some((g.inodeTable[group] + start / g.blockSize, start % g.blockSize));
    }

    /** `ext4_read_inode` */
    method ReadInode(ino: nat) returns (r: Option<Record>)
      requires Ready() && RecordsTile(g)
      ensures r == if Addressable(g, disk, ino) then Some(RecordAt(g, disk, ino)) else None
    {
      hide HomeBlock, HomeOffset, RecordsTile, Numbered;
      var at := Locate(ino);
      if at.None? { return None; }
      var (block, offset) := at.value;
      var buf := new byte[g.blockSize];
      var ok := ReadBlock(block, buf);
      if !ok { return None; }
      var inode := new byte[RECORD_BYTES];
      for i := 0 to RECORD_BYTES
        invariant buf[..] == disk[block]
        invariant inode[..i] == buf[offset..offset + i]
      {
        inode[i] := buf[offset + i];
      }
      assert inode[..] == inode[..RECORD_BYTES] == disk[block][offset..offset + RECORD_BYTES];
      r := Some(inode[..]);
    }

    /** `ext4_write_inode` */
    method WriteInode(ino: nat, r: Record) returns (ok: bool)
      requires Ready() && RecordsTile(g)
      modifies this`disk
      ensures Ready() && ok == Addressable(g, old(disk), ino) && Vol() == PutRecord(g, old(Vol()), ino, r)
    {
      hide HomeBlock, HomeOffset, RecordsTile, Numbered;
      var at := Locate(ino);
      if at.None? { return false; }
      var (block, offset) := at.value;
      var buf := new byte[g.blockSize];
      ok := ReadBlock(block, buf);
      if !ok { return; }
      CopyIn(buf, offset, r);
      ok := WriteBlock(block, buf);
    }

    /** Lay `bytes` into the buffer at `offset`. */
    method CopyIn(buf: array<byte>, offset: nat, bytes: seq<byte>)
      requires offset + |bytes| <= buf.Length
      modifies buf
      ensures buf[..] == Splice(old(buf[..]), offset, bytes)
    {
      ghost var before := buf[..];
      for i := 0 to |bytes|
        invariant forall j :: 0 <= j < buf.Length ==> buf[j] == if offset <= j < offset + i then bytes[j - offset] else before[j]
      {
        buf[offset + i] := bytes[i];
      }
    }

    // The block map

    /** `ext4_set_file_block`; the record is the caller's copy of the inode. */
    method MapFileBlock(inode: Record, fb: nat, nb: nat, group: u32) returns (r: Record, ok: bool)
      requires Ready()
      modifies this
      ensures Ready() && (Vol(), r, ok) == SetFileBlock(g, old(Vol()), inode, fb, nb, group)
    {
      hide Find, Taken, PutU32, U32;
      r := inode;
      if fb < 12 {
        r := WithPointer(r, fb, Wrap32(nb));
        return r, true;
      }
      var i := fb - 12;
      if i >= g.blockSize / 4 { return r, false; }
      if Pointer(r, IND) == 0 {
        var ib := AllocBit(Blocks, group);
        if ib.None? { return r, false; }
        r := WithPointer(r, IND, Wrap32(ib.value));
        var zero := new byte[g.blockSize](_ => 0);
        assert zero[..] == Zeros(g.blockSize);
        var _ := WriteBlock(ib.value, zero);
        PointerFrame(inode, IND, Wrap32(ib.value));
      }
      r, ok := PutSlot(r, i, nb);
    }

    /** Overwrite entry `i` of the record's indirect block. */
    method PutSlot(r: Record, i: nat, nb: nat) returns (q: Record, ok: bool)
      requires Ready() && i < PerBlock(g)
      modifies this`disk
      ensures Ready() && (Vol(), q, ok) == SetInBlock(g, old(Vol()), r, Pointer(r, IND), i, nb)
    {
      q := r;
      var indirect := new byte[g.blockSize];
      ok := ReadBlock(Pointer(r, IND), indirect);
      if !ok { return; }
      CopyIn(indirect, 4 * i, Le32(Wrap32(nb)));
      ok := WriteBlock(Pointer(r, IND), indirect);
    }

    // Files

    /** `ext4_read_file`: the bytes copied to the caller's buffer, `None` for the error return. */
    method ReadFileBytes(ino: nat, off: nat, len: nat) returns (bytes: Option<seq<byte>>)
      requires Ready() && RecordsTile(g)
      ensures bytes == ReadFile(g, disk, ino, off, len)
    {
      hide HomeBlock, HomeOffset, RecordsTile, Numbered, FileBlock, RecordAt, Addressable, ReadLoop, Quot, Rem;
      var inode := ReadInode(ino);
      if inode.None? { return None; }
      var size := Size(inode.value);
      if off >= size { return Some([]); }
      var n := if off + len > size then size - off else len;
      var out := ReadLoopBytes(inode.value, off, n);
      bytes := Some(out);
    }

    /** A file offset's block and the offset within it. */
    method Place(x: nat, size: nat) returns (q: nat, r: nat)
      requires size > 0
      ensures q == Quot(x, size) && r == Rem(x, size)
    {
      q, r := x / size, x % size;
      QuotIs(x, size);
    }

    /** One round of the copy loop of `ext4_read_file`: the next bytes, or none where the loop breaks off. */
    method ReadRound(inode: Record, off: nat, n: nat, buf: array<byte>) returns (out: seq<byte>)
      requires Ready() && 0 < n && buf.Length == g.blockSize
      modifies buf
      ensures |out| <= n && (out == [] ==> ReadLoop(g, disk, inode, off, n) == [])
      ensures out != [] ==> ReadLoop(g, disk, inode, off, n) == out + ReadLoop(g, disk, inode, off + |out|, n - |out|)
    {
      hide FileBlock, ReadLoop, Quot, Rem, NumbersFit, BitmapsDistinct;
      var fb, bo := Place(off, g.blockSize);
      ReadLoopRound(g, disk, inode, off, n);
      var d := FileBlock(g, disk, inode, fb);
      if d == 0 { return []; }
      var ok := ReadBlock(d, buf);
      if !ok { return []; }
      var chunk := g.blockSize - bo;
      if chunk > n { chunk := n; }
      out := buf[bo..bo + chunk];
    }

    /** The copy loop of `ext4_read_file`. */
    method ReadLoopBytes(inode: Record, off: nat, n: nat) returns (out: seq<byte>)
      requires Ready()
      ensures out == ReadLoop(g, disk, inode, off, n)
    {
      hide ReadLoop, NumbersFit, BitmapsDistinct;
      out := [];
      var buf := new byte[g.blockSize];
      while |out| < n
        invariant |out| <= n && buf.Length == g.blockSize && fresh(buf)
        invariant out + ReadLoop(g, disk, inode, off + |out|, n - |out|) == ReadLoop(g, disk, inode, off, n)
      {
        var next := ReadRound(inode, off + |out|, n - |out|, buf);
        if next == [] { return; }
        ghost var rest := ReadLoop(g, disk, inode, off + |out| + |next|, n - |out| - |next|);
        assert (out + next) + rest == out + (next + rest);
        out := out + next;
      }
      ReadLoopNothing(g, disk, inode, off + n);
    }

    /** Get or allocate the block for one round of `ext4_write_file`, with its starting contents in `buf`. */
    method OpenBlock(inode: Record, fb: nat, group: u32, buf: array<byte>) returns (r: Record, block: Option<nat>)
      requires Ready() && buf.Length == g.blockSize
      modifies this, buf
      ensures Ready()
      ensures
        var (w, q, got) := BlockForWrite(g, old(Vol()), inode, fb, group);
        && Vol() == w && r == q && block.Some? == got.Some?
        && (got.Some? ==> got.value == (block.value, buf[..]))
    {
      hide FileBlock, Find, Taken, SetFileBlock, Release, Splice;
      r := inode;
      var d := FileBlock(g, disk, r, fb);
      if d == 0 {
        var nb := AllocBit(Blocks, group);
        if nb.None? { return r, None; }
        var ok;
        r, ok := MapFileBlock(r, fb, nb.value, group);
        if !ok {
          var _ := FreeBit(Blocks, nb.value);
          return r, None;
        }
        r := WithSectors(r, Wrap32(Sectors(r) + g.blockSize / 512));
        ZeroFill(buf);
        return r, Some(nb.value);
      }
      var ok := ReadBlock(d, buf);
      block := if ok then Some(d) else None;
    }

    method ZeroFill(buf: array<byte>)
      modifies buf
      ensures buf[..] == Zeros(buf.Length)
    {
      for i := 0 to buf.Length
        invariant forall j :: 0 <= j < i ==> buf[j] == 0
      {
        buf[i] := 0;
      }
    }

    /** The loop of `ext4_write_file`: the updated record and the number of bytes written. */
    method WriteLoopBytes(inode: Record, group: u32, src: seq<byte>, off: nat) returns (r: Record, n: nat)
      requires Ready()
      modifies this
      ensures Ready() && (Vol(), r, n) == WriteLoop(g, old(Vol()), inode, group, src, off, 0)
    {
      hide WriteLoop, BlockForWrite, NextChunk, Quot, Rem, Splice;
      ghost var v := Vol();
      var buf := new byte[g.blockSize];
      r, n := inode, 0;
      while n < |src|
        invariant Ready() && n <= |src| && buf.Length == g.blockSize && fresh(buf)
        invariant WriteLoop(g, Vol(), r, group, src, off, n) == WriteLoop(g, v, inode, group, src, off, 0)
      {
        var fb, bo := (off + n) / g.blockSize, (off + n) % g.blockSize;
        QuotIs(off + n, g.blockSize);
        WriteLoopStep(g, Vol(), r, group, src, off, n);
        var block;
        r, block := OpenBlock(r, fb, group, buf);
        if block.None? { return; }
        var chunk := g.blockSize - bo;
        if chunk > |src| - n { chunk := |src| - n; }
        CopyIn(buf, bo, src[n..n + chunk]);
        var ok := WriteBlock(block.value, buf);
        if !ok { return; }
        n := n + chunk;
      }
      WriteLoopStep(g, Vol(), r, group, src, off, n);
    }

    /** `ext4_write_file`: the number of bytes written, `None` for the error return. */
    method WriteFileBytes(ino: nat, src: seq<byte>, off: nat) returns (n: Option<nat>)
      requires Ready() && RecordsTile(g)
      modifies this
      ensures Ready() && (Vol(), n) == WriteFile(g, old(Vol()), ino, src, off)
    {
      hide HomeBlock, HomeOffset, RecordsTile, WriteLoop, RecordAt, PutRecord, Quot, Rem;
      var inode := ReadInode(ino);
      if inode.None? { return None; }
      var group := (ino - 1) / g.inodesPerGroup;
      QuotIs(ino - 1, g.inodesPerGroup);
      var r, written := WriteLoopBytes(inode.value, group, src, off);
      if off + written > Size(r) {
        r := WithSize(r, Wrap32(off + written));
      }
      r := WithMtime(r, 0);
      var _ := WriteInode(ino, r);
      n := Some(written);
    }

    // Directories

    /** Scan one directory block, already in `buf`, for a record with `need` bytes of slack. */
    method ScanBlock(buf: array<byte>, need: nat) returns (at: Option<nat>)
      requires Ready() && buf.Length == g.blockSize && Tiled(buf[..], 0) && need > 0
      ensures at == FindSlack(buf[..], 0, need)
    {
      hide U16, Need;
      ghost var c := buf[..];
      var offset := 0;
      while offset < g.blockSize
        invariant offset <= g.blockSize && Tiled(c, offset)
        invariant FindSlack(c, offset, need) == FindSlack(c, 0, need)
        decreases g.blockSize - offset
      {
        var recLen, nameLen := U16(buf[..], offset + 4), buf[offset + 6];
        if recLen == 0 { break; }
        var actual := Need(nameLen);
        if recLen > actual && recLen - actual >= need { return Some(offset); }
        offset := offset + recLen;
      }
      at := None;
    }

    /** The first block of the directory with room, scanning from the start. */
    method FindDirRoom(inode: Record, need: nat, buf: array<byte>) returns (room: Option<(nat, nat)>)
      requires Ready() && DirOk(g, disk, inode) && buf.Length == g.blockSize && need > 0
      modifies buf
      ensures room == FindRoom(g, disk, inode, need, 0)
      ensures room.Some? ==> buf[..] == disk[FileBlock(g, disk, inode, room.value.0)]
    {
      hide FileBlock, FindSlack, Tiled, Quot, Rem;
      var blocks := (Size(inode) + g.blockSize - 1) / g.blockSize;
      QuotIs(Size(inode) + g.blockSize - 1, g.blockSize);
      WholeBlocks(g, inode);
      var b := 0;
      while b < blocks
        invariant b <= blocks && buf.Length == g.blockSize
        invariant FindRoom(g, disk, inode, need, b) == FindRoom(g, disk, inode, need, 0)
      {
        var d := FileBlock(g, disk, inode, b);
        if d != 0 {
          var ok := ReadBlock(d, buf);
          if ok {
            var at := ScanBlock(buf, need);
            if at.Some? { return Some((b, at.value)); }
          }
        }
        b := b + 1;
      }
      room := None;
    }

    /** Write a record image, header field by header field, then the name byte by byte. */
    method PutRecordImage(buf: array<byte>, o: nat, e: Entry, recLen: u16)
      requires |e.name| < 256 && o + 8 + |e.name| <= buf.Length
      modifies buf
      ensures buf[..] == Splice(old(buf[..]), o, RecordImage(e.ino, recLen, e.kind, e.name))
    {
      hide Le32, Le16, U16, U32, Splice;
      ghost var before := buf[..];
      CopyIn(buf, o, Le32(e.ino));
      CopyIn(buf, o + 4, Le16(recLen));
      SpliceTwice(before, o, Le32(e.ino), Le16(recLen));
      CopyIn(buf, o + 6, [|e.name|, e.kind]);
      SpliceTwice(before, o, Le32(e.ino) + Le16(recLen), [|e.name|, e.kind]);
      CopyIn(buf, o + 8, e.name);
      SpliceTwice(before, o, Le32(e.ino) + Le16(recLen) + [|e.name|, e.kind], e.name);
    }

    /** `ext4_add_dir_entry` */
    method AddEntry(dir: nat, e: Entry) returns (ok: bool)
      requires Ready() && RecordsTile(g) && |e.name| < 256
      requires Addressable(g, disk, dir) ==> DirOk(g, disk, RecordAt(g, disk, dir))
      modifies this
      ensures Ready() && (Vol(), ok) == AddDirEntry(g, old(Vol()), dir, e)
    {
      hide HomeBlock, HomeOffset, RecordsTile, RecordAt, Quot, Rem, FileBlock, FindSlack, FindRoom, U16, GrowDir,
           Splice, DirOk, RecordImage;
      var inode := ReadInode(dir);
      if inode.None? { return false; }
      var need := Need(|e.name|);
      var buf := new byte[g.blockSize];
      var room := FindDirRoom(inode.value, need, buf);
      if room.Some? {
        var (b, o) := room.value;
        var recLen, actual := U16(buf[..], o + 4), Need(buf[o + 6]);
        CopyIn(buf, o + 4, Le16(actual));
        PutRecordImage(buf, o + actual, e, recLen - actual);
        ok := WriteBlock(FileBlock(g, disk, inode.value, b), buf);
        return;
      }
      ok := Grow(dir, inode.value, e, buf);
    }

    /** The second half of `ext4_add_dir_entry`: open a new directory block for the entry. */
    method Grow(dir: nat, inode: Record, e: Entry, buf: array<byte>) returns (ok: bool)
      requires Ready() && RecordsTile(g) && |e.name| < 256 && buf.Length == g.blockSize && Addressable(g, disk, dir)
      modifies this, buf
      ensures Ready() && (Vol(), ok) == GrowDir(g, old(Vol()), dir, inode, e)
    {
      hide HomeBlock, HomeOffset, RecordsTile, Quot, Rem, Find, Taken, SetFileBlock, Release, Splice, RecordImage,
           PutRecord;
      var group := (dir - 1) / g.inodesPerGroup;
      QuotIs(dir - 1, g.inodesPerGroup);
      var nb := AllocBit(Blocks, group);
      if nb.None? { return false; }
      ZeroFill(buf);
      PutRecordImage(buf, 0, e, g.blockSize);
      ok := WriteBlock(nb.value, buf);
      if !ok {
        var _ := FreeBit(Blocks, nb.value);
        return;
      }
      var blocks := (Size(inode) + g.blockSize - 1) / g.blockSize;
      QuotIs(Size(inode) + g.blockSize - 1, g.blockSize);
      var r;
      r, ok := MapFileBlock(inode, blocks, nb.value, group);
      if !ok {
        var _ := FreeBit(Blocks, nb.value);
        return;
      }
      ok := WriteInode(dir, Grown(g, r));
    }

    /** `ext4_create_file`: the new inode's number, `None` for the error return. */
    method CreateInode(parent: nat, name: seq<byte>, mode: u16) returns (ino: Option<nat>)
      requires Ready() && RecordsTile(g) && Ordered(g, Vol())
      requires parent in Records(g, Vol()) && DirOk(g, disk, Records(g, Vol())[parent]) && Numbered(g, Inodes, parent)
      modifies this
      ensures Ready() && (Vol(), ino) == CreateFile(g, old(Vol()), parent, name, mode)
    {
      hide HomeBlock, HomeOffset, RecordsTile, Quot, Rem, Find, Taken, AddDirEntry, WithRecord, Release, NewRecord,
           Records,
           RecordAt, DirOk, Coherent, Addressable, IsDirMode, Clipped, FillDir;
      ghost var v := Vol();
      var group := (parent - 1) / g.inodesPerGroup;
      QuotIs(parent - 1, g.inodesPerGroup);
      var new_ := AllocBit(Inodes, group);
      if new_.None? { return None; }
      var n := new_.value;
      var ok := WriteInode(n, NewRecord(mode));
      if !ok {
        var _ := FreeBit(Inodes, n);
        return None;
      }
      DirsAfterBirth(g, v, parent, group, mode);
      var e := Entry(Wrap32(n), if IsDirMode(mode) then 2 else 1, Clipped(name));
      ghost var x := Vol();
      ok := AddEntry(parent, e);
      if !ok {
        var _ := FreeBit(Inodes, n);
        return None;
      }
      if IsDirMode(mode) {
        DirsAfterEntry(g, v, parent, group, mode, x, e);
        NumberedSmall(g, Inodes, parent);
        Fill(n, parent);
      }
      ino := Some(n);
    }

    /** The dot entries of a new directory, whose results are ignored, and the parent's link count. */
    method Fill(n: nat, parent: nat)
      requires Ready() && RecordsTile(g) && n < 0x8000_0000 && parent < 0x8000_0000
      requires exists own :: Coherent(g, Vol(), own, Records(g, Vol()))
      requires n in Records(g, Vol()) && Size(Records(g, Vol())[n]) == 0
      modifies this
      ensures Ready() && Vol() == FillDir(g, old(Vol()), n, parent)
    {
      hide HomeBlock, HomeOffset, RecordsTile, AddDirEntry, PutRecord, Records, RecordAt, DirOk, Coherent, Addressable;
      ghost var own :| Coherent(g, Vol(), own, Records(g, Vol()));
      RecordFound(g, Vol(), n);
      EmptyDir(g, disk, Records(g, Vol())[n]);
      ghost var own1 := TryAdd(g, Vol(), own, n, Dot(n));
      var _ := AddEntry(n, Dot(n));
      RecordFound(g, Vol(), n);
      var _ := AddEntry(n, DotDot(parent));
      var inode := ReadInode(parent);
      if inode.Some? {
        var _ := WriteInode(parent, WithLinks(inode.value, Wrap16(Links(inode.value) + 1)));
      }
    }
  }
}
