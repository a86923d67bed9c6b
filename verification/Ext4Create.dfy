/** Adding directory entries and creating files and directories. */
module Ext4Create {
  import opened Wrappers
  import opened Bytes
  import opened Arith
  import opened Bitmap
  import opened Ext4Alloc
  import opened Ext4Map
  import opened Ext4Inode
  import opened Ext4File
  import opened Ext4Dir

  /** Names are cut at 255 bytes. */
  function Clipped(name: seq<byte>): (s: seq<byte>)
    ensures |s| < 256
  {
    if |name| > 255 then name[..255] else name
  }

  function DirBlocks(g: Geometry, r: Record): nat
    requires Sound(g)
  {
    Quot(Size(r) + g.blockSize - 1, g.blockSize)
  }

  /** The first directory block, from file block `b` on, with room, and where the room is. */
  function FindRoom(g: Geometry, disk: Disk, r: Record, need: nat, b: nat): (s: Option<(nat, nat)>)
    requires Sound(g) && Blocky(g, disk)
    ensures s.Some? ==>
      && b <= s.value.0 < DirBlocks(g, r)
      && FileBlock(g, disk, r, s.value.0) != 0 && FileBlock(g, disk, r, s.value.0) in disk
      && FindSlack(disk[FileBlock(g, disk, r, s.value.0)], 0, need) == Some(s.value.1)
    decreases DirBlocks(g, r) - b
  {
    if b >= DirBlocks(g, r) then None else
    var d := FileBlock(g, disk, r, b);
    if d == 0 || d !in disk then FindRoom(g, disk, r, need, b + 1) else
    match FindSlack(disk[d], 0, need)
    case Some(o) => Some((b, o))
    case None => FindRoom(g, disk, r, need, b + 1)
  }

  /** The block found is the first one of the directory with room. */
  lemma {:induction false} RoomFirst(g: Geometry, disk: Disk, r: Record, need: nat, from: nat, b: nat)
    requires Sound(g) && Blocky(g, disk) && from <= b < DirBlocks(g, r)
    requires FindRoom(g, disk, r, need, from).Some? ==> b < FindRoom(g, disk, r, need, from).value.0
    ensures
      var d := FileBlock(g, disk, r, b);
      d == 0 || d !in disk || FindSlack(disk[d], 0, need).None?
    decreases b - from
  {
    hide NumbersFit, BitmapsDistinct, Quot, FindSlack;
    if from < b {
      RoomFirst(g, disk, r, need, from + 1, b);
    }
  }

  /** The directory's record after it has grown by one block. */
  function Grown(g: Geometry, r: Record): Record {
    WithSectors(WithSize(r, Wrap32(Size(r) + g.blockSize)), Wrap32(Sectors(r) + g.blockSize / 512))
  }

  /** `ext4_add_dir_entry`: the new volume, and whether the entry was added. */
  function AddDirEntry(g: Geometry, v: Volume, dir: nat, e: Entry): (s: (Volume, bool))
    requires Sound(g) && Shape(g, v) && |e.name| < 256
    ensures Shape(g, s.0)
  {
    if !Addressable(g, v.disk, dir) then (v, false) else
    var r := RecordAt(g, v.disk, dir);
    match FindRoom(g, v.disk, r, Need(|e.name|), 0)
    case Some((b, o)) =>
      var d := FileBlock(g, v.disk, r, b);
      (v.(disk := v.disk[d := Inserted(v.disk[d], o, e)]), true)
    case None => GrowDir(g, v, dir, r, e)
  }

  function GrowDir(g: Geometry, v: Volume, dir: nat, r: Record, e: Entry): (s: (Volume, bool))
    requires Sound(g) && Shape(g, v) && |e.name| < 256 && Addressable(g, v.disk, dir)
    ensures Shape(g, s.0)
  {
    var group := HomeGroup(g, dir);
    var (w, nb) := Alloc(g, v, Blocks, group);
    if nb.None? then (v, false)
    else if nb.value !in w.disk then (Freed(g, w, nb.value), false)
    else
      var z := w.(disk := w.disk[nb.value := OneEntryBlock(g.blockSize, e)]);
      var (x, q, ok) := SetFileBlock(g, z, r, DirBlocks(g, r), nb.value, group);
      if !ok then (Freed(g, x, nb.value), false)
      else (PutRecord(g, x, dir, Grown(g, q)), Addressable(g, x.disk, dir))
  }

  /** The record of a newly created inode. */
  function NewRecord(mode: u16): Record {
    WithLinks(WithMode(Zeros(RECORD_BYTES), mode), 1)
  }

  function Dot(ino: u32): Entry { Entry(ino, 2, [46]) }
  function DotDot(ino: u32): Entry { Entry(ino, 2, [46, 46]) }

  /** `ext4_free_inode` with its result ignored. */
  function FreedInode(g: Geometry, v: Volume, ino: nat): (w: Volume)
    requires Sound(g) && Shape(g, v)
    ensures Shape(g, w)
  {
    match Release(g, v, Inodes, ino)
    case None => v
    case Some(w) => w
  }

  /** The parent's link count goes up by one. */
  function Linked(g: Geometry, v: Volume, ino: nat): (w: Volume)
    requires Sound(g) && Shape(g, v)
    ensures Shape(g, w)
  {
    if !Addressable(g, v.disk, ino) then v else
    var r := RecordAt(g, v.disk, ino);
    PutRecord(g, v, ino, WithLinks(r, Wrap16(Links(r) + 1)))
  }

  /** `ext4_create_file`: the new volume and the new inode's number, `None` on failure. */
  function CreateFile(g: Geometry, v: Volume, parent: nat, name: seq<byte>, mode: u16): (s: (Volume, Option<nat>))
    requires Sound(g) && Shape(g, v) && Numbered(g, Inodes, parent)
    ensures Shape(g, s.0)
  {
    var (w, ino) := Alloc(g, v, Inodes, HomeGroup(g, parent));
    if ino.None? then (v, None) else
    var n := ino.value;
    if !Addressable(g, w.disk, n) then (FreedInode(g, w, n), None) else
    var x := PutRecord(g, w, n, NewRecord(mode));
    var e := Entry(Wrap32(n), if IsDirMode(mode) then 2 else 1, Clipped(name));
    var (y, ok) := AddDirEntry(g, x, parent, e);
    if !ok then (FreedInode(g, y, n), None)
    else if !IsDirMode(mode) then (y, Some(n))
    else (FillDir(g, y, n, parent), Some(n))
  }

  /** The entries every new directory starts with, and the parent's new link. */
  function FillDir(g: Geometry, v: Volume, ino: nat, parent: nat): (w: Volume)
    requires Sound(g) && Shape(g, v)
    ensures Shape(g, w)
  {
    var a := AddDirEntry(g, v, ino, Dot(Wrap32(ino))).0;
    var b := AddDirEntry(g, a, ino, DotDot(Wrap32(parent))).0;
    Linked(g, b, parent)
  }

  // Directories as lists of entries

  /** A directory is a whole number of blocks, each of them tiled by records. */
  ghost predicate DirOk(g: Geometry, disk: Disk, r: Record)
    requires Sound(g) && Blocky(g, disk)
  {
    && Rem(Size(r), g.blockSize) == 0
    && forall b: nat :: b < Quot(Size(r), g.blockSize) && FileBlock(g, disk, r, b) != 0 ==>
         FileBlock(g, disk, r, b) in disk && Tiled(disk[FileBlock(g, disk, r, b)], 0)
  }

  function BlockEntries(g: Geometry, disk: Disk, r: Record, b: nat): seq<Entry>
    requires Sound(g) && Blocky(g, disk)
  {
    var d := FileBlock(g, disk, r, b);
    if d == 0 || d !in disk || !Tiled(disk[d], 0) then [] else Walk(disk[d], 0)
  }

  /** The entries of the first `n` blocks. */
  function EntriesUpTo(g: Geometry, disk: Disk, r: Record, n: nat): seq<Entry>
    requires Sound(g) && Blocky(g, disk)
  {
    if n == 0 then [] else EntriesUpTo(g, disk, r, n - 1) + BlockEntries(g, disk, r, n - 1)
  }

  /** Everything a walk through the directory meets. */
  function Entries(g: Geometry, disk: Disk, r: Record): seq<Entry>
    requires Sound(g) && Blocky(g, disk)
  {
    EntriesUpTo(g, disk, r, Quot(Size(r), g.blockSize))
  }

  /** For a whole number of blocks, rounding up does nothing. */
  lemma WholeBlocks(g: Geometry, r: Record)
    requires Sound(g) && Rem(Size(r), g.blockSize) == 0
    ensures DirBlocks(g, r) == Quot(Size(r), g.blockSize) && Size(r) == Times(DirBlocks(g, r), g.blockSize)
  {
    QuotRem(Size(r), g.blockSize);
    QuotUnique(Quot(Size(r), g.blockSize), g.blockSize, g.blockSize - 1);
  }

  lemma {:induction false} EntriesFrame(g: Geometry, d: Disk, r: Record, e: Disk, q: Record, n: nat)
    requires Sound(g) && Blocky(g, d) && Blocky(g, e)
    requires forall b: nat :: b < n ==> BlockEntries(g, e, q, b) == BlockEntries(g, d, r, b)
    ensures EntriesUpTo(g, e, q, n) == EntriesUpTo(g, d, r, n)
  {
    if n > 0 {
      EntriesFrame(g, d, r, e, q, n - 1);
    }
  }

  lemma OneMoreBefore(s: seq<Entry>, t: seq<Entry>, a: seq<Entry>, e: Entry)
    requires WithOneMore(s, t, e) && s != []
    ensures WithOneMore(s + a, t + a, e)
  {
    var k: nat :| k > 0 && k <= |s| && t == s[..k] + [e] + s[k..];
    assert (s + a)[..k] == s[..k] && (s + a)[k..] == s[k..] + a;
    assert t + a == (s + a)[..k] + [e] + (s + a)[k..];
  }

  lemma OneMoreAfter(s: seq<Entry>, a: seq<Entry>, b: seq<Entry>, e: Entry)
    requires WithOneMore(a, b, e) && a != []
    ensures WithOneMore(s + a, s + b, e)
  {
    var k: nat :| k > 0 && k <= |a| && b == a[..k] + [e] + a[k..];
    var j := |s| + k;
    assert (s + a)[..j] == s + a[..k] && (s + a)[j..] == a[k..];
    assert s + b == (s + a)[..j] + [e] + (s + a)[j..];
  }

  /** One block gaining an entry is the directory gaining it. */
  lemma {:induction false} EntriesGain(g: Geometry, d: Disk, r: Record, x: Disk, q: Record, n: nat, b: nat, e: Entry)
    requires Sound(g) && Blocky(g, d) && Blocky(g, x) && b < n
    requires forall i: nat :: i < n && i != b ==> BlockEntries(g, x, q, i) == BlockEntries(g, d, r, i)
    requires BlockEntries(g, d, r, b) != [] && WithOneMore(BlockEntries(g, d, r, b), BlockEntries(g, x, q, b), e)
    ensures EntriesUpTo(g, d, r, n) != [] && WithOneMore(EntriesUpTo(g, d, r, n), EntriesUpTo(g, x, q, n), e)
  {
    hide BlockEntries, WithOneMore;
    if b == n - 1 {
      EntriesFrame(g, d, r, x, q, n - 1);
      OneMoreAfter(EntriesUpTo(g, d, r, n - 1), BlockEntries(g, d, r, b), BlockEntries(g, x, q, b), e);
    } else {
      EntriesGain(g, d, r, x, q, n - 1, b, e);
      OneMoreBefore(EntriesUpTo(g, d, r, n - 1), EntriesUpTo(g, x, q, n - 1), BlockEntries(g, d, r, n - 1), e);
    }
  }

  /** Equal files are equal directories. */
  lemma SameFileSameDir(g: Geometry, d: Disk, r: Record, e: Disk, q: Record)
    requires Sound(g) && Blocky(g, d) && Blocky(g, e) && SameFile(g, d, r, e, q) && Size(q) == Size(r)
    ensures DirOk(g, d, r) ==> DirOk(g, e, q)
    ensures Entries(g, e, q) == Entries(g, d, r)
  {
    forall b: nat
      ensures FileBlock(g, e, q, b) == FileBlock(g, d, r, b)
      ensures BlockEntries(g, e, q, b) == BlockEntries(g, d, r, b)
    {
    }
    EntriesFrame(g, d, r, e, q, Quot(Size(r), g.blockSize));
  }

  // Adding an entry

  /** A directory that maps nothing behind its end still does not, and its mapped blocks stay where they are. */
  ghost predicate Neatly(g: Geometry, d: Disk, r: Record, e: Disk, q: Record)
    requires Sound(g) && Blocky(g, d) && Blocky(g, e)
  {
    SameRest(r, q) && (Tight(g, d, r) ==> Tight(g, e, q) && Grew(g, d, r, e, q))
  }

  lemma NeatlyThen(g: Geometry, d: Disk, r: Record, e: Disk, q: Record, f: Disk, p: Record)
    requires Sound(g) && Blocky(g, d) && Blocky(g, e) && Blocky(g, f)
    requires Neatly(g, d, r, e, q) && Neatly(g, e, q, f, p)
    ensures Neatly(g, d, r, f, p)
  {
    hide Grew, Tight, NumbersFit, BitmapsDistinct;
    SameRestThen(r, q, p);
    if Tight(g, d, r) {
      GrewThen(g, d, r, e, q, f, p);
    }
  }

  lemma SameRestThen(r: Record, q: Record, p: Record)
    requires SameRest(r, q) && SameRest(q, p)
    ensures SameRest(r, p)
  {
    forall i: nat | i < 4 || 8 <= i < 16 || 20 <= i < 26 || 32 <= i < 40 || 100 <= i < 116
      ensures p[i] == r[i]
    {
      assert q[i] == r[i];
    }
  }

  /** The same blocks are mapped and the size is the same. */
  lemma NeatlySame(g: Geometry, d: Disk, r: Record, e: Disk, q: Record)
    requires Sound(g) && Blocky(g, d) && Blocky(g, e) && SameRest(r, q) && Sectors(q) == Sectors(r) && Size(q) == Size(r)
    requires forall fb: nat :: FileBlock(g, e, q, fb) == FileBlock(g, d, r, fb)
    ensures Neatly(g, d, r, e, q)
  {
    hide Grew, FileBlock, SameRest, NumbersFit, BitmapsDistinct, Times;
    GrewNone(g, d, r, e, q);
  }

  /** The blocks a directory gains are the first free ones from its own group on. */
  ghost predicate NearBlocks(g: Geometry, v: Volume, dir: nat, r: Record, e: Disk, q: Record)
    requires Sound(g) && Shape(g, v) && Blocky(g, e)
  {
    && Numbered(g, Inodes, dir)
    && forall fb: nat :: FileBlock(g, e, q, fb) != FileBlock(g, v.disk, r, fb) ==>
         FirstFree(g, v, Blocks, GroupOf(g, Inodes, dir), FileBlock(g, e, q, fb))
  }

  /** Directory `dir` has gained `e`, and nothing else about the volume's files has changed. */
  ghost predicate EntryAdded(g: Geometry, v: Volume, dir: nat, w: Volume, own2: map<nat, Owner>, e: Entry)
    requires Sound(g) && Shape(g, v) && Shape(g, w) && dir in Records(g, v)
  {
    && Coherent(g, w, own2, Records(g, w))
    && Records(g, w).Keys == Records(g, v).Keys
    && (forall j :: j in Records(g, v) && j != dir ==>
          Records(g, w)[j] == Records(g, v)[j] && SameFile(g, v.disk, Records(g, v)[j], w.disk, Records(g, w)[j]))
    && Mode(Records(g, w)[dir]) == Mode(Records(g, v)[dir]) && Links(Records(g, w)[dir]) == Links(Records(g, v)[dir])
    && Neatly(g, v.disk, Records(g, v)[dir], w.disk, Records(g, w)[dir])
    && NearBlocks(g, v, dir, Records(g, v)[dir], w.disk, Records(g, w)[dir])
    && DirOk(g, w.disk, Records(g, w)[dir])
    && WithOneMore(Entries(g, v.disk, Records(g, v)[dir]), Entries(g, w.disk, Records(g, w)[dir]), e)
    && (forall m :: Live(g, w, m) == Live(g, v, m))
  }

  /** No record and no readable byte differs. */
  ghost predicate Untouched(g: Geometry, v: Volume, w: Volume, own2: map<nat, Owner>)
    requires Sound(g) && Shape(g, v) && Shape(g, w)
  {
    && Coherent(g, w, own2, Records(g, w))
    && w == v.(disk := w.disk)
    && Records(g, w) == Records(g, v)
    && (forall j :: j in Records(g, v) ==> SameFile(g, v.disk, Records(g, v)[j], w.disk, Records(g, w)[j]))
    && (forall m :: Live(g, w, m) == Live(g, v, m))
  }

  /** A tiled block of a directory takes the entry into its slack. */
  lemma InsertAdds(g: Geometry, v: Volume, own: map<nat, Owner>, dir: nat, e: Entry, b: nat, o: nat)
    requires Sound(g) && RecordsTile(g) && Shape(g, v) && Coherent(g, v, own, Records(g, v))
    requires dir in Records(g, v) && DirOk(g, v.disk, Records(g, v)[dir]) && |e.name| < 256
    requires b < Quot(Size(Records(g, v)[dir]), g.blockSize)
    requires
      var d := FileBlock(g, v.disk, Records(g, v)[dir], b);
      d != 0 && d in v.disk && FindSlack(v.disk[d], 0, Need(|e.name|)) == Some(o)
    ensures
      var d := FileBlock(g, v.disk, Records(g, v)[dir], b);
      EntryAdded(g, v, dir, v.(disk := v.disk[d := Inserted(v.disk[d], o, e)]), own, e)
  {
    hide Tiled, Walk, FindSlack, Inserted, WithOneMore, CellAt, SameFile, SameFileBut, RecordAt, Live, Splice, Neatly,
         NearBlocks;
    var recs := Records(g, v);
    var r := recs[dir];
    var d := FileBlock(g, v.disk, r, b);
    var c := Inserted(v.disk[d], o, e);
    var w := v.(disk := v.disk[d := c]);
    InsertTiles(v.disk[d], 0, e);
    LeafStored(g, v, own, recs, dir, b, c);
    SameRecords(g, v, w, own);
    InsertSeen(g, v.disk, r, w.disk, b, e);
    RecordFound(g, v, dir);
    SameBlocks(g, v, dir, r, w.disk, b);
  }

  lemma SameBlocks(g: Geometry, v: Volume, dir: nat, r: Record, e: Disk, b: nat)
    requires Sound(g) && Shape(g, v) && Blocky(g, e) && Numbered(g, Inodes, dir)
    requires SameFileBut(g, v.disk, r, e, r, b) && FileBlock(g, e, r, b) == FileBlock(g, v.disk, r, b)
    ensures Neatly(g, v.disk, r, e, r) && NearBlocks(g, v, dir, r, e, r)
  {
    hide FileBlock, Neatly, FirstFree, NumbersFit, BitmapsDistinct;
    NeatlySame(g, v.disk, r, e, r);
  }

  lemma InsertSeen(g: Geometry, d: Disk, r: Record, x: Disk, b: nat, e: Entry)
    requires Sound(g) && Blocky(g, d) && Blocky(g, x) && DirOk(g, d, r) && b < Quot(Size(r), g.blockSize)
    requires SameFileBut(g, d, r, x, r, b) && FileBlock(g, x, r, b) == FileBlock(g, d, r, b) != 0
    requires FileBlock(g, d, r, b) in d && FileBlock(g, d, r, b) in x
    requires
      var f := FileBlock(g, d, r, b);
      Tiled(d[f], 0) && Tiled(x[f], 0) && Walk(d[f], 0) != [] && WithOneMore(Walk(d[f], 0), Walk(x[f], 0), e)
    ensures DirOk(g, x, r) && WithOneMore(Entries(g, d, r), Entries(g, x, r), e)
  {
    hide WithOneMore, Tiled, Walk;
    forall i: nat | i != b
      ensures FileBlock(g, x, r, i) == FileBlock(g, d, r, i)
      ensures BlockEntries(g, x, r, i) == BlockEntries(g, d, r, i)
    {
    }
    EntriesGain(g, d, r, x, r, Quot(Size(r), g.blockSize), b, e);
  }

  /** A directory whose next block can still be mapped is far from the 32-bit size limit. */
  lemma GrowFits(g: Geometry, r: Record)
    requires Sound(g) && Rem(Size(r), g.blockSize) == 0
    requires RouteOf(g, DirBlocks(g, r)).Direct? || RouteOf(g, DirBlocks(g, r)).Single?
    ensures Size(r) + g.blockSize < 0x1_0000_0000
    ensures Size(Grown(g, r)) == Size(r) + g.blockSize
    ensures Quot(Size(r) + g.blockSize, g.blockSize) == DirBlocks(g, r) + 1 && Rem(Size(r) + g.blockSize, g.blockSize) == 0
    ensures SamePointers(r, Grown(g, r)) && Mode(Grown(g, r)) == Mode(r) && Links(Grown(g, r)) == Links(r)
    ensures SameRest(r, Grown(g, r)) && Sectors(Grown(g, r)) == Wrap32(Sectors(r) + g.blockSize / 512)
  {
    WholeBlocks(g, r);
    var n := DirBlocks(g, r);
    assert n <= 12 + 16384;
    TimesMonotone(n, 12 + 16384, g.blockSize);
    TimesIs(12 + 16384, g.blockSize);
    QuotUnique(n + 1, g.blockSize, 0);
    ScalarFrame(r, Wrap32(Size(r) + g.blockSize), 0);
    ScalarFrame(WithSize(r, Wrap32(Size(r) + g.blockSize)), Wrap32(Sectors(r) + g.blockSize / 512), 0);
  }

  /** Filling a newly allocated block disturbs no file and keeps the block adoptable. */
  lemma FreshFilled(g: Geometry, v: Volume, own: map<nat, Owner>, recs: map<nat, Record>, group: u32, c: seq<byte>)
    requires Sound(g) && Shape(g, v) && Coherent(g, v, own, recs) && |c| == g.blockSize
    requires Alloc(g, v, Blocks, group).1.Some?
    ensures
      var (w, nb) := Alloc(g, v, Blocks, group);
      var z := w.(disk := w.disk[nb.value := c]);
      && nb.value in w.disk
      && Coherent(g, z, own, recs) && Adoptable(g, z, own, nb.value) && !Reserved(g, v, nb.value)
      && OnlyMaps(Blocks, own, v.disk, z.disk)
      && (forall j, p :: j in recs ==> PosBlock(g, z.disk, recs[j], p) == PosBlock(g, v.disk, recs[j], p))
  {
    AllocBlockOwned(g, v, own, recs, group);
    var (w, nb) := Alloc(g, v, Blocks, group);
    var z := w.(disk := w.disk[nb.value := c]);
    StoreKeepsOwned(g, w, own, recs, nb.value, c);
    PointerBlockWriteAgrees(g, w, own, nb.value, z);
    assert Reserved(g, z, nb.value) by {
      if Numbered(g, Blocks, nb.value) {
        assert BitmapBlock(g, Blocks, GroupOf(g, Blocks, nb.value)) != nb.value;
      }
    }
  }

  /** Giving the filled block back restores the volume except for that block's bytes. */
  lemma FreshReturned(g: Geometry, v: Volume, own: map<nat, Owner>, recs: map<nat, Record>, group: u32, c: seq<byte>)
    requires Sound(g) && Shape(g, v) && Coherent(g, v, own, recs) && |c| == g.blockSize
    requires Alloc(g, v, Blocks, group).1.Some?
    ensures
      var (w, nb) := Alloc(g, v, Blocks, group);
      && nb.value in v.disk && nb.value !in own
      && Freed(g, w.(disk := w.disk[nb.value := c]), nb.value) == v.(disk := v.disk[nb.value := c])
  {
    hide Find, PosBlock, CountsAgree, Marked, Quot, Rem, CountClear;
    AllocBlockOwned(g, v, own, recs, group);
    ReleaseUndoesAlloc(g, v, Blocks, group);
    var (w, nb) := Alloc(g, v, Blocks, group);
    var z := w.(disk := w.disk[nb.value := c]);
    var b := BitmapBlock(g, Blocks, GroupOf(g, Blocks, nb.value));
    assert b != nb.value;
    var u := Freed(g, w, nb.value);
    assert u == v;
    assert Freed(g, z, nb.value).disk == u.disk[nb.value := c];
  }

  /** A change of bytes in a block nobody owns goes unnoticed. */
  lemma UnownedUntouched(g: Geometry, v: Volume, own: map<nat, Owner>, b: nat, c: seq<byte>)
    requires Sound(g) && RecordsTile(g) && Shape(g, v) && Coherent(g, v, own, Records(g, v))
    requires b in v.disk && b !in own && |c| == g.blockSize
    ensures Untouched(g, v, v.(disk := v.disk[b := c]), own)
  {
    var recs := Records(g, v);
    var w := v.(disk := v.disk[b := c]);
    StoreKeepsOwned(g, v, own, recs, b, c);
    PointerBlockWriteAgrees(g, v, own, b, w);
    SameRecords(g, v, w, own);
    forall j | j in recs
      ensures SameFile(g, v.disk, recs[j], w.disk, recs[j])
    {
      forall fb: nat
        ensures FileBlock(g, w.disk, recs[j], fb) == FileBlock(g, v.disk, recs[j], fb)
        ensures FileBlock(g, v.disk, recs[j], fb) != 0 ==> FileBlock(g, v.disk, recs[j], fb) in own
      {
        assert PosBlock(g, w.disk, recs[j], Leaf(RouteOf(g, fb))) == PosBlock(g, v.disk, recs[j], Leaf(RouteOf(g, fb)));
      }
    }
  }

  /** The directory seen through its grown record: the old blocks, then the new one. */
  lemma GrownSeen(g: Geometry, d: Disk, r: Record, x: Disk, q: Record, nb: nat, e: Entry)
    requires Sound(g) && Blocky(g, d) && Blocky(g, x) && DirOk(g, d, r) && |e.name| < 256
    requires SameFileBut(g, d, r, x, q, DirBlocks(g, r)) && FileBlock(g, x, q, DirBlocks(g, r)) == nb != 0
    requires nb in x && x[nb] == OneEntryBlock(g.blockSize, e)
    requires Rem(Size(q), g.blockSize) == 0 && Quot(Size(q), g.blockSize) == DirBlocks(g, r) + 1
    ensures DirOk(g, x, q) && WithOneMore(Entries(g, d, r), Entries(g, x, q), e)
  {
    hide OneEntryBlock, Tiled, Walk;
    WholeBlocks(g, r);
    OneEntryTiles(g.blockSize, e);
    var n := DirBlocks(g, r);
    forall i: nat | i != n
      ensures FileBlock(g, x, q, i) == FileBlock(g, d, r, i)
      ensures BlockEntries(g, x, q, i) == BlockEntries(g, d, r, i)
    {
    }
    EntriesFrame(g, d, r, x, q, n);
    var s := Entries(g, d, r);
    assert Entries(g, x, q) == s + [e] == s[..|s|] + [e] + s[|s|..];
  }

  lemma GrowMapped(g: Geometry, v: Volume, own: map<nat, Owner>, dir: nat, e: Entry,
                   z: Volume, nb: nat, x: Volume, own2: map<nat, Owner>, q: Record)
    requires Sound(g) && RecordsTile(g) && Shape(g, v) && Shape(g, z) && Shape(g, x)
    requires Coherent(g, v, own, Records(g, v)) && dir in Records(g, v) && |e.name| < 256 && nb != 0
    requires DirOk(g, v.disk, Records(g, v)[dir])
    requires OnlyMaps(Blocks, own, v.disk, z.disk)
    requires forall j, p :: j in Records(g, v) ==>
      PosBlock(g, z.disk, Records(g, v)[j], p) == PosBlock(g, v.disk, Records(g, v)[j], p)
    requires
      var n := DirBlocks(g, Records(g, v)[dir]);
      && (RouteOf(g, n).Direct? || RouteOf(g, n).Single?)
      && Remapped(g, z, own, Records(g, v), dir, RouteOf(g, n), nb, x, own2, Records(g, v)[dir := q])
    requires nb in z.disk && z.disk[nb] == OneEntryBlock(g.blockSize, e)
    requires Numbered(g, Inodes, dir) && FirstFree(g, v, Blocks, GroupOf(g, Inodes, dir), nb)
    ensures Addressable(g, x.disk, dir)
    ensures EntryAdded(g, v, dir, PutRecord(g, x, dir, Grown(g, q)), own2, e)
  {
    hide Coherent, Remapped, PosBlock, OnlyMaps, NumbersFit, BitmapsDistinct, SameFile, SameFileBut, OneEntryBlock, Grown,
         PutRecord, Live, Records, RecordAt, FirstFree, SameRest, OnlyPointers, EntryAdded, DirOk, Quot, Rem, Times;
    var recs := Records(g, v);
    var r := recs[dir];
    MappedKeeps(g, v, own, dir, z, nb, x, own2, q);
    WholeBlocksAgain(g, v.disk, r);
    GrowFits(g, q);
    RecordFound(g, v, dir);
    RecordStored(g, x, own2, recs[dir := q], dir, Grown(g, q));
    PointersThenGrown(r, q, Grown(g, q), g.blockSize / 512);
    var p := Grown(g, q);
    assert recs[dir := q][dir := p] == recs[dir := p];
    GrowStored(g, v, own2, dir, e, nb, x, q, p, PutRecord(g, x, dir, p));
  }

  /** Mapping the new block changes no other block of any file, and no record on the disk yet. */
  lemma MappedKeeps(g: Geometry, v: Volume, own: map<nat, Owner>, dir: nat, z: Volume, nb: nat, x: Volume,
                    own2: map<nat, Owner>, q: Record)
    requires Sound(g) && RecordsTile(g) && Shape(g, v) && Shape(g, z) && Shape(g, x)
    requires Coherent(g, v, own, Records(g, v)) && dir in Records(g, v) && OnlyMaps(Blocks, own, v.disk, z.disk)
    requires forall j, p :: j in Records(g, v) ==>
      PosBlock(g, z.disk, Records(g, v)[j], p) == PosBlock(g, v.disk, Records(g, v)[j], p)
    requires Remapped(g, z, own, Records(g, v), dir, RouteOf(g, DirBlocks(g, Records(g, v)[dir])), nb, x, own2,
                      Records(g, v)[dir := q])
    ensures
      var r := Records(g, v)[dir];
      && SameFileBut(g, v.disk, r, x.disk, q, DirBlocks(g, r)) && FileBlock(g, x.disk, q, DirBlocks(g, r)) == nb
      && OnlyPointers(r, q) && Mode(q) == Mode(r) && Size(q) == Size(r)
    ensures forall j :: j in Records(g, v) && j != dir ==> SameFile(g, v.disk, Records(g, v)[j], x.disk, Records(g, v)[j])
    ensures Records(g, x) == Records(g, v) && forall m :: Live(g, x, m) == Live(g, v, m)
    ensures Coherent(g, x, own2, Records(g, v)[dir := q])
    ensures nb in z.disk && nb in x.disk && x.disk[nb] == z.disk[nb]
  {
    hide CountsAgree, FilesNumbered, NumbersFit, BitmapsDistinct, SameFile, SameFileBut, Live, Records, RecordAt, FileBlock,
         OnlyPointers, DirBlocks, RouteOf, Splice, PosBlock;
    var recs := Records(g, v);
    NewBlockKeepsFiles(g, v, own, recs, dir, DirBlocks(g, recs[dir]), z, nb, x, own2, q, q);
    SameRecords(g, v, x, own);
  }

  lemma PointersThenGrown(r: Record, q: Record, p: Record, n: nat)
    requires OnlyPointers(r, q) && SameRest(q, p) && Links(p) == Links(q) && Sectors(p) == Wrap32(Sectors(q) + n)
    ensures SameRest(r, p) && Links(p) == Links(r) && Sectors(p) == Wrap32(Sectors(r) + n)
  {
    assert SameRest(r, q);
    SameRestThen(r, q, p);
    assert q[26] == r[26] && q[27] == r[27] && q[28] == r[28] && q[29] == r[29] && q[30] == r[30] && q[31] == r[31];
  }

  lemma GrowStored(g: Geometry, v: Volume, own2: map<nat, Owner>, dir: nat, e: Entry, nb: nat, x: Volume, q: Record,
                   p: Record, u: Volume)
    requires Sound(g) && RecordsTile(g) && Shape(g, v) && Shape(g, x) && Shape(g, u)
    requires dir in Records(g, v) && |e.name| < 256 && nb != 0 && DirOk(g, v.disk, Records(g, v)[dir])
    requires
      var r := Records(g, v)[dir];
      var n := DirBlocks(g, r);
      && SameFileBut(g, v.disk, r, x.disk, q, n) && FileBlock(g, x.disk, q, n) == nb
      && Rem(Size(p), g.blockSize) == 0 && Quot(Size(p), g.blockSize) == n + 1
      && Mode(p) == Mode(r) && Links(p) == Links(r) && SameRest(r, p)
      && Sectors(p) == Wrap32(Sectors(r) + g.blockSize / 512)
    requires Numbered(g, Inodes, dir) && FirstFree(g, v, Blocks, GroupOf(g, Inodes, dir), nb)
    requires nb in x.disk && x.disk[nb] == OneEntryBlock(g.blockSize, e)
    requires forall j :: j in Records(g, v) && j != dir ==> SameFile(g, v.disk, Records(g, v)[j], x.disk, Records(g, v)[j])
    requires Records(g, x) == Records(g, v) && forall m :: Live(g, x, m) == Live(g, v, m)
    requires Coherent(g, u, own2, Records(g, v)[dir := p]) && Records(g, u) == Records(g, v)[dir := p]
    requires
      var a, b := Records(g, v)[dir := q], Records(g, v)[dir := p];
      forall j :: j in a ==> SameFile(g, x.disk, a[j], u.disk, b[j])
    requires forall m :: Live(g, u, m) == Live(g, x, m)
    ensures EntryAdded(g, v, dir, u, own2, e)
  {
    hide Records, Owned, CountsAgree, WithOneMore, Live, DirOk, OneEntryBlock, SameFile, SameFileBut,
         FirstFree, SameRest, Neatly, NearBlocks, NumbersFit, BitmapsDistinct;
    var recs := Records(g, v);
    assert SameFile(g, x.disk, recs[dir := q][dir], u.disk, recs[dir := p][dir]);
    forall j | j in recs && j != dir
      ensures SameFile(g, v.disk, recs[j], u.disk, recs[j])
    {
      assert SameFile(g, x.disk, recs[dir := q][j], u.disk, recs[dir := p][j]);
      SameFileThen(g, v.disk, recs[j], x.disk, recs[j], u.disk, recs[j]);
    }
    SameFileButThen(g, v.disk, recs[dir], x.disk, q, u.disk, p, DirBlocks(g, recs[dir]));
    GrownSeen(g, v.disk, recs[dir], u.disk, p, nb, e);
    WholeBlocksAgain(g, v.disk, recs[dir]);
    GrownNeatly(g, v, dir, recs[dir], u.disk, p, nb);
  }

  lemma WholeBlocksAgain(g: Geometry, disk: Disk, r: Record)
    requires Sound(g) && Blocky(g, disk) && DirOk(g, disk, r)
    ensures Size(r) == Times(DirBlocks(g, r), g.blockSize) && Rem(Size(r), g.blockSize) == 0
  {
    WholeBlocks(g, r);
  }

  lemma GrownNeatly(g: Geometry, v: Volume, dir: nat, r: Record, e: Disk, p: Record, nb: nat)
    requires Sound(g) && Shape(g, v) && Blocky(g, e) && Numbered(g, Inodes, dir) && nb != 0
    requires SameFileBut(g, v.disk, r, e, p, DirBlocks(g, r)) && FileBlock(g, e, p, DirBlocks(g, r)) == nb
    requires Size(r) == Times(DirBlocks(g, r), g.blockSize)
    requires Rem(Size(p), g.blockSize) == 0 && Quot(Size(p), g.blockSize) == DirBlocks(g, r) + 1
    requires SameRest(r, p) && Sectors(p) == Wrap32(Sectors(r) + g.blockSize / 512)
    requires FirstFree(g, v, Blocks, GroupOf(g, Inodes, dir), nb)
    ensures Neatly(g, v.disk, r, e, p) && NearBlocks(g, v, dir, r, e, p)
  {
    hide FileBlock, Grew, SameRest, FirstFree, NumbersFit, BitmapsDistinct, Quot, Rem, DirBlocks;
    var n := DirBlocks(g, r);
    WholeBlocks(g, p);
    if Tight(g, v.disk, r) {
      GrewOne(g, v.disk, r, e, p, n);
      forall fb: nat | Times(fb, g.blockSize) >= Size(p)
        ensures FileBlock(g, e, p, fb) == 0
      {
        assert Times(fb, g.blockSize) >= Size(r);
      }
    }
  }

  lemma SameFileButThen(g: Geometry, d: Disk, r: Record, e: Disk, q: Record, f: Disk, p: Record, but: nat)
    requires Sound(g) && Blocky(g, d) && Blocky(g, e) && Blocky(g, f)
    requires SameFileBut(g, d, r, e, q, but) && SameFile(g, e, q, f, p)
    ensures SameFileBut(g, d, r, f, p, but)
    ensures FileBlock(g, f, p, but) == FileBlock(g, e, q, but)
    ensures
      var b := FileBlock(g, e, q, but);
      b != 0 ==> b in f && f[b] == e[b]
  {
    forall fb: nat
      ensures FileBlock(g, f, p, fb) == FileBlock(g, e, q, fb)
    {
    }
  }

  /** Growing a directory by one block: it works and adds the entry, or nothing readable changes. */
  lemma GrowDirAdds(g: Geometry, v: Volume, own: map<nat, Owner>, dir: nat, e: Entry) returns (own2: map<nat, Owner>)
    requires Sound(g) && RecordsTile(g) && Shape(g, v) && Coherent(g, v, own, Records(g, v))
    requires dir in Records(g, v) && Addressable(g, v.disk, dir) && DirOk(g, v.disk, Records(g, v)[dir]) && |e.name| < 256
    ensures
      var (w, ok) := GrowDir(g, v, dir, Records(g, v)[dir], e);
      if ok then EntryAdded(g, v, dir, w, own2, e) else Untouched(g, v, w, own2)
  {
    hide Owned, CountsAgree, Records, DirOk, Alloc, SetFileBlock, OneEntryBlock, Freed, EntryAdded, Untouched,
         PutRecord, Grown, FirstFree;
    own2 := own;
    var recs := Records(g, v);
    var group := HomeGroup(g, dir);
    var (w, nb) := Alloc(g, v, Blocks, group);
    if nb.None? {
      SelfUntouched(g, v, own);
      return;
    }
    var c := OneEntryBlock(g.blockSize, e);
    FreshFilled(g, v, own, recs, group, c);
    var z := w.(disk := w.disk[nb.value := c]);
    var n := DirBlocks(g, recs[dir]);
    var own1 := SetFileBlockMaps(g, z, own, recs, dir, n, nb.value, group);
    var (x, q, ok) := SetFileBlock(g, z, recs[dir], n, nb.value, group);
    if ok {
      SetOkRoute(g, z, recs[dir], n, nb.value, group);
      NearTaken(g, v, own, recs, Blocks, dir);
      GrowMapped(g, v, own, dir, e, z, nb.value, x, own1, q);
      own2 := own1;
    } else {
      FreshReturned(g, v, own, recs, group, c);
      UnownedUntouched(g, v, own, nb.value, c);
    }
  }

  lemma SetOkRoute(g: Geometry, v: Volume, r: Record, fb: nat, nb: nat, group: u32)
    requires Sound(g) && Shape(g, v) && SetFileBlock(g, v, r, fb, nb, group).2
    ensures RouteOf(g, fb).Direct? || RouteOf(g, fb).Single?
  {
  }

  lemma SelfUntouched(g: Geometry, v: Volume, own: map<nat, Owner>)
    requires Sound(g) && Shape(g, v) && Coherent(g, v, own, Records(g, v))
    ensures Untouched(g, v, v, own)
  {
    var recs := Records(g, v);
    forall j | j in recs
      ensures SameFile(g, v.disk, recs[j], v.disk, recs[j])
    {
      SameFileSelf(g, v, own, recs, j);
    }
  }

  /**
   * Adding an entry to a well-formed directory keeps it well formed and adds exactly that entry,
   * whether it went into slack or opened a new block; every other file stays as it was.
   */
  lemma AddDirEntryAdds(g: Geometry, v: Volume, own: map<nat, Owner>, dir: nat, e: Entry) returns (own2: map<nat,
                        Owner>)
    requires Sound(g) && RecordsTile(g) && Shape(g, v) && Coherent(g, v, own, Records(g, v))
    requires dir in Records(g, v) && DirOk(g, v.disk, Records(g, v)[dir]) && |e.name| < 256
    ensures
      var (w, ok) := AddDirEntry(g, v, dir, e);
      if ok then EntryAdded(g, v, dir, w, own2, e) else Untouched(g, v, w, own2)
  {
    hide Coherent, Records, EntryAdded, Untouched, GrowDir, Inserted, FindSlack, FindRoom, RecordAt, Addressable;
    RecordFound(g, v, dir);
    var r := Records(g, v)[dir];
    WholeBlocks(g, r);
    match FindRoom(g, v.disk, r, Need(|e.name|), 0)
    case Some((b, o)) =>
      own2 := own;
      InsertAdds(g, v, own, dir, e, b, o);
    case None =>
      own2 := GrowDirAdds(g, v, own, dir, e);
  }

  // Creating files and directories

  /** All inodes but those in `but` have kept their records and their bytes. */
  ghost predicate KeptBut(g: Geometry, v: Volume, w: Volume, but: set<nat>)
    requires Sound(g) && Shape(g, v) && Shape(g, w)
  {
    forall j :: j in Records(g, v) && j !in but ==>
      && j in Records(g, w) && Records(g, w)[j] == Records(g, v)[j]
      && SameFile(g, v.disk, Records(g, v)[j], w.disk, Records(g, w)[j])
  }

  lemma KeptThen(g: Geometry, v: Volume, x: Volume, w: Volume, a: set<nat>, b: set<nat>)
    requires Sound(g) && Shape(g, v) && Shape(g, x) && Shape(g, w)
    requires KeptBut(g, v, x, a) && KeptBut(g, x, w, b)
    ensures KeptBut(g, v, w, a + b)
  {
    hide Records, SameFile;
    forall j | j in Records(g, v) && j !in a + b
      ensures j in Records(g, w) && Records(g, w)[j] == Records(g, v)[j]
      ensures SameFile(g, v.disk, Records(g, v)[j], w.disk, Records(g, w)[j])
    {
      SameFileThen(g, v.disk, Records(g, v)[j], x.disk, Records(g, x)[j], w.disk, Records(g, w)[j]);
    }
  }

  lemma NewRecordBlank(mode: u16)
    ensures
      var r := NewRecord(mode);
      Mode(r) == mode && Size(r) == 0 && forall j: nat :: j < 15 ==> Pointer(r, j) == 0
  {
  }

  /** A newly allocated inode with a blank record joins the live ones and disturbs nobody. */
  lemma InodeBorn(g: Geometry, v: Volume, own: map<nat, Owner>, preferred: u32, mode: u16)
    requires Sound(g) && RecordsTile(g) && Shape(g, v) && Coherent(g, v, own, Records(g, v))
    requires Alloc(g, v, Inodes, preferred).1.Some?
    ensures
      var (w, n) := Alloc(g, v, Inodes, preferred);
      var x := PutRecord(g, w, n.value, NewRecord(mode));
      && 0 < n.value < 0x8000_0000 && Addressable(g, w.disk, n.value) && !Live(g, v, n.value)
      && Records(g, x) == Records(g, v)[n.value := NewRecord(mode)]
      && Coherent(g, x, own, Records(g, x)) && KeptBut(g, v, x, {})
  {
    hide Alloc, Records, SameFile, Marked, CountsAgree;
    var recs := Records(g, v);
    AllocInodeOwned(g, v, own, recs, preferred);
    var (w, some) := Alloc(g, v, Inodes, preferred);
    var n, r := some.value, NewRecord(mode);
    RecordsLive(g, v, n);
    HomeOwned(g, w.disk, own, n);
    var b := HomeBlock(g, n);
    var x := PutRecord(g, w, n, r);
    BornRecords(g, v, own, w, n, r);
    StoreKeepsOwned(g, w, own, recs, b, x.disk[b]);
    PointerBlockWriteAgrees(g, w, own, b, x);
    BlankOwned(g, x, own, recs, n, mode);
    forall j | j in recs
      ensures SameFile(g, v.disk, recs[j], x.disk, recs[j])
    {
      OwnedFileKept(g, v, own, recs, x, j);
    }
  }

  lemma RecordsLive(g: Geometry, v: Volume, n: nat)
    requires Sound(g) && Shape(g, v)
    ensures n in Records(g, v) ==> Live(g, v, n)
  {
  }

  lemma BlankOwned(g: Geometry, v: Volume, own: map<nat, Owner>, recs: map<nat, Record>, n: nat, mode: u16)
    requires Sound(g) && Owned(g, v, own, recs)
    ensures Owned(g, v, own, recs[n := NewRecord(mode)])
  {
    var r := NewRecord(mode);
    NewRecordBlank(mode);
    forall p
      ensures PosBlock(g, v.disk, r, p) == 0
    {
    }
    assert FilesOwned(g, v.disk, own, recs[n := r]);
  }

  lemma BornRecords(g: Geometry, v: Volume, own: map<nat, Owner>, w: Volume, n: nat, r: Record)
    requires Sound(g) && RecordsTile(g) && Shape(g, v) && Shape(g, w) && MetaOwned(g, own)
    requires (forall b :: b in own ==> b in v.disk) && OnlyMaps(Inodes, own, v.disk, w.disk)
    requires Numbered(g, Inodes, n)
    requires forall m :: Numbered(g, Inodes, m) ==> Marked(g, w, Inodes, m) == (m == n || Marked(g, v, Inodes, m))
    ensures Addressable(g, w.disk, n)
    ensures Records(g, PutRecord(g, w, n, r)) == Records(g, v)[n := r]
  {
    HomeOwned(g, w.disk, own, n);
    NumberedSmall(g, Inodes, n);
    WithRecordRecords(g, w, own, n, r);
    GainedRecords(g, v, own, w, n);
  }

  lemma GainedRecords(g: Geometry, v: Volume, own: map<nat, Owner>, w: Volume, n: nat)
    requires Sound(g) && RecordsTile(g) && Shape(g, v) && Shape(g, w) && MetaOwned(g, own)
    requires (forall b :: b in own ==> b in v.disk) && OnlyMaps(Inodes, own, v.disk, w.disk)
    requires Numbered(g, Inodes, n)
    requires forall m :: Numbered(g, Inodes, m) ==> Marked(g, w, Inodes, m) == (m == n || Marked(g, v, Inodes, m))
    ensures forall m :: m != n ==> (m in Records(g, w) <==> m in Records(g, v))
    ensures forall m :: m != n && m in Records(g, v) ==> Records(g, w)[m] == Records(g, v)[m]
  {
    hide Splice, Marked;
    forall m | Numbered(g, Inodes, m)
      ensures Addressable(g, v.disk, m) && Addressable(g, w.disk, m)
      ensures RecordAt(g, w.disk, m) == RecordAt(g, v.disk, m)
    {
      HomeOwned(g, v.disk, own, m);
    }
  }

  /** A volume whose inode `n` has just been released again, everything else being as in `v`. */
  lemma InodeUnborn(g: Geometry, v: Volume, own: map<nat, Owner>, recs: map<nat, Record>, n: nat)
    requires Sound(g) && RecordsTile(g) && Shape(g, v) && Coherent(g, v, own, recs) && Records(g, v) == recs && n in recs
    requires
      var group := GroupOf(g, Inodes, n);
      v.freeInodes[group] < 0xFFFF && v.sbFreeInodes < 0xFFFF_FFFF
    ensures
      var w := FreedInode(g, v, n);
      && Coherent(g, w, own, Records(g, w)) && Records(g, w) == recs - {n}
      && KeptBut(g, v, w, {n})
  {
    LocatedNumber(g, Inodes, n);
    var group, i := GroupOf(g, Inodes, n), IndexOf(g, Inodes, n);
    var b := BitmapBlock(g, Inodes, group);
    var w := FreedInode(g, v, n);
    assert InUse(g, v, Inodes, group, i);
    GivenAgrees(g, v, Inodes, group, i);
    UnbornOwned(g, v, own, recs, n);
    UnbornRecords(g, v, own, w, n);
    forall j | j in recs
      ensures SameFile(g, v.disk, recs[j], w.disk, recs[j])
    {
      OwnedFileKept(g, v, own, recs, w, j);
    }
  }

  lemma UnbornOwned(g: Geometry, v: Volume, own: map<nat, Owner>, recs: map<nat, Record>, n: nat)
    requires Sound(g) && Owned(g, v, own, recs) && BitmapsOnDisk(g, v) && Numbered(g, Inodes, n)
    ensures
      var w := FreedInode(g, v, n);
      && Owned(g, w, own, recs - {n})
      && (forall j, p :: j in recs ==> PosBlock(g, w.disk, recs[j], p) == PosBlock(g, v.disk, recs[j], p))
      && w.disk.Keys == v.disk.Keys && forall b :: b in own && IsLeaf(own[b]) ==> w.disk[b] == v.disk[b]
  {
    var b := BitmapBlock(g, Inodes, GroupOf(g, Inodes, n));
    var w := FreedInode(g, v, n);
    ReleaseMarks(g, v, n);
    StoreKeepsOwned(g, v, own, recs, b, w.disk[b]);
    assert Owned(g, w, own, recs);
  }

  /** A file whose blocks are all owned is unaffected by changes elsewhere. */
  lemma OwnedFileKept(g: Geometry, v: Volume, own: map<nat, Owner>, recs: map<nat, Record>, w: Volume, j: nat)
    requires Sound(g) && Owned(g, v, own, recs) && Shape(g, w) && j in recs
    requires forall p :: PosBlock(g, w.disk, recs[j], p) == PosBlock(g, v.disk, recs[j], p)
    requires w.disk.Keys == v.disk.Keys
    requires forall b :: b in own && IsLeaf(own[b]) ==> b in v.disk && w.disk[b] == v.disk[b]
    ensures SameFile(g, v.disk, recs[j], w.disk, recs[j])
  {
    forall fb: nat
      ensures FileBlock(g, w.disk, recs[j], fb) == FileBlock(g, v.disk, recs[j], fb)
      ensures
        var d := FileBlock(g, v.disk, recs[j], fb);
        d != 0 ==> d in own && IsLeaf(own[d])
    {
      var p := Leaf(RouteOf(g, fb));
      assert PosBlock(g, w.disk, recs[j], p) == PosBlock(g, v.disk, recs[j], p);
    }
  }

  lemma ReleaseMarks(g: Geometry, v: Volume, n: nat)
    requires Sound(g) && Shape(g, v) && BitmapsOnDisk(g, v) && Numbered(g, Inodes, n)
    ensures forall m :: Numbered(g, Inodes, m) ==>
      Marked(g, FreedInode(g, v, n), Inodes, m) == (m != n && Marked(g, v, Inodes, m))
    ensures
      var w := FreedInode(g, v, n);
      w.disk == v.disk[BitmapBlock(g, Inodes, GroupOf(g, Inodes, n)) := w.disk[BitmapBlock(g, Inodes, GroupOf(g, Inodes, n))]]
  {
    LocatedNumber(g, Inodes, n);
    var group, i := GroupOf(g, Inodes, n), IndexOf(g, Inodes, n);
    var w := FreedInode(g, v, n);
    var bm := v.disk[BitmapBlock(g, Inodes, group)];
    forall m | Numbered(g, Inodes, m)
      ensures Marked(g, w, Inodes, m) == (m != n && Marked(g, v, Inodes, m))
    {
      LocatedNumber(g, Inodes, m);
      if GroupOf(g, Inodes, m) == group {
        ClearBitAt(bm, i, IndexOf(g, Inodes, m));
      } else {
        assert BitmapBlock(g, Inodes, GroupOf(g, Inodes, m)) != BitmapBlock(g, Inodes, group);
      }
    }
  }

  lemma UnbornRecords(g: Geometry, v: Volume, own: map<nat, Owner>, w: Volume, n: nat)
    requires Sound(g) && RecordsTile(g) && Shape(g, v) && BitmapsOnDisk(g, v) && MetaOwned(g, own)
    requires (forall b :: b in own ==> b in v.disk) && Numbered(g, Inodes, n)
    requires w == FreedInode(g, v, n)
    ensures Records(g, w) == Records(g, v) - {n}
  {
    hide FreedInode, Marked, Splice, NumbersFit, BitmapsDistinct;
    ReleaseMarks(g, v, n);
    LocatedNumber(g, Inodes, n);
    var b := BitmapBlock(g, Inodes, GroupOf(g, Inodes, n));
    forall m | Numbered(g, Inodes, m)
      ensures Addressable(g, v.disk, m) && Addressable(g, w.disk, m)
      ensures RecordAt(g, w.disk, m) == RecordAt(g, v.disk, m)
    {
      HomeOwned(g, v.disk, own, m);
      assert HomeBlock(g, m) != b;
    }
  }
}
