/** The inode table: where each record lives, and the records of all live inodes. */
module Ext4Inode {
  import opened Bytes
  import opened Arith
  import opened Ext4Alloc
  import opened Ext4Map

  /** Inode records tile table blocks, and table offsets fit 32 bits. */
  ghost predicate RecordsTile(g: Geometry)
    requires Sound(g)
  {
    Rem(g.blockSize, g.inodeSize) == 0 && Times(g.inodesPerGroup, g.inodeSize) < 0x1_0000_0000
  }

  /** The table block, counted from the start of the group's table, holding record `index`. */
  function RecordBlock(g: Geometry, index: nat): nat
    requires Sound(g)
  {
    Quot(Times(index, g.inodeSize), g.blockSize)
  }

  function RecordOffset(g: Geometry, index: nat): nat
    requires Sound(g)
  {
    Rem(Times(index, g.inodeSize), g.blockSize)
  }

  lemma {:induction false} TimesAssoc(a: nat, b: nat, c: nat)
    ensures Times(Times(a, b), c) == Times(a, Times(b, c))
  {
    if a > 0 {
      TimesAssoc(a - 1, b, c);
      TimesAdd(Times(a - 1, b), b, c);
    }
  }

  lemma {:induction false} TimesAdd(a: nat, b: nat, c: nat)
    ensures Times(a + b, c) == Times(a, c) + Times(b, c)
  {
    if b > 0 {
      TimesAdd(a, b - 1, c);
    }
  }

  /** With `q` records to a block, record `index` is the `index % q`-th of table block `index / q`. */
  lemma RecordPlace(g: Geometry, index: nat)
    requires Sound(g) && RecordsTile(g)
    ensures
      var q := Quot(g.blockSize, g.inodeSize);
      && q > 0 && Times(q, g.inodeSize) == g.blockSize
      && RecordBlock(g, index) == Quot(index, q)
      && RecordOffset(g, index) == Times(Rem(index, q), g.inodeSize)
      && RecordOffset(g, index) + g.inodeSize <= g.blockSize
  {
    var q := Quot(g.blockSize, g.inodeSize);
    QuotRem(g.blockSize, g.inodeSize);
    assert q == 0 ==> Times(q, g.inodeSize) == 0;
    var a, b := Quot(index, q), Rem(index, q);
    QuotRem(index, q);
    TimesAdd(Times(a, q), b, g.inodeSize);
    TimesAssoc(a, q, g.inodeSize);
    TimesMonotone(b + 1, q, g.inodeSize);
    QuotUnique(a, g.blockSize, Times(b, g.inodeSize));
  }

  lemma {:induction false} QuotMonotone(x: nat, y: nat, d: nat)
    requires d > 0 && x <= y
    ensures Quot(x, d) <= Quot(y, d)
  {
    if x >= d {
      QuotMonotone(x - d, y - d, d);
    }
  }

  /** Each record lies inside one block of its group's table. */
  lemma RecordInTable(g: Geometry, index: nat)
    requires Sound(g) && RecordsTile(g) && index < g.inodesPerGroup
    ensures RecordBlock(g, index) < TableLength(g)
    ensures RecordOffset(g, index) + RECORD_BYTES <= g.blockSize
  {
    RecordPlace(g, index);
    TimesMonotone(index, g.inodesPerGroup - 1, g.inodeSize);
    QuotMonotone(Times(index, g.inodeSize), Times(g.inodesPerGroup - 1, g.inodeSize), g.blockSize);
  }

  /** Two records of a table are in different blocks or at least one record apart. */
  lemma RecordsApart(g: Geometry, a: nat, b: nat)
    requires Sound(g) && RecordsTile(g) && a < b
    ensures RecordBlock(g, a) != RecordBlock(g, b) ||
            RecordOffset(g, a) + g.inodeSize <= RecordOffset(g, b)
  {
    RecordPlace(g, a);
    RecordPlace(g, b);
    var q := Quot(g.blockSize, g.inodeSize);
    QuotRem(a, q);
    QuotRem(b, q);
    if Quot(a, q) == Quot(b, q) {
      TimesMonotone(Rem(a, q) + 1, Rem(b, q), g.inodeSize);
    }
  }

  // Reading and writing records

  function HomeBlock(g: Geometry, ino: nat): nat
    requires Sound(g) && Numbered(g, Inodes, ino)
  {
    TableBlock(g, GroupOf(g, Inodes, ino), RecordBlock(g, IndexOf(g, Inodes, ino)))
  }

  function HomeOffset(g: Geometry, ino: nat): nat
    requires Sound(g) && Numbered(g, Inodes, ino)
  {
    RecordOffset(g, IndexOf(g, Inodes, ino))
  }

  /**
   * Counted in bytes from the start of its group's table, inode `ino`'s record is at its index in the
   * group times the inode size.
   */
  lemma RecordAddress(g: Geometry, ino: nat)
    requires Sound(g) && Numbered(g, Inodes, ino)
    ensures
      var group := (ino - 1) / g.inodesPerGroup;
      && group < g.groupCount && HomeBlock(g, ino) >= g.inodeTable[group] && HomeOffset(g, ino) < g.blockSize
      && (HomeBlock(g, ino) - g.inodeTable[group]) * g.blockSize + HomeOffset(g, ino)
         == (ino - 1) % g.inodesPerGroup * g.inodeSize
  {
    hide NumbersFit, BitmapsDistinct, Quot, Rem, Times;
    QuotIs(ino - 1, g.inodesPerGroup);
    var index := IndexOf(g, Inodes, ino);
    TimesIs(index, g.inodeSize);
    QuotRem(Times(index, g.inodeSize), g.blockSize);
    TimesIs(RecordBlock(g, index), g.blockSize);
  }

  /** The inode exists and its record can be read or written. */
  predicate Addressable(g: Geometry, disk: Disk, ino: nat)
    requires Sound(g)
  {
    Numbered(g, Inodes, ino) && HomeBlock(g, ino) in disk && HomeOffset(g, ino) + RECORD_BYTES <= g.blockSize
  }

  function RecordAt(g: Geometry, disk: Disk, ino: nat): Record
    requires Sound(g) && Blocky(g, disk) && Addressable(g, disk, ino)
  {
    disk[HomeBlock(g, ino)][HomeOffset(g, ino)..HomeOffset(g, ino) + RECORD_BYTES]
  }

  function WithRecord(g: Geometry, disk: Disk, ino: nat, r: Record): (d: Disk)
    requires Sound(g) && Blocky(g, disk) && Addressable(g, disk, ino)
    ensures Blocky(g, d)
  {
    disk[HomeBlock(g, ino) := Splice(disk[HomeBlock(g, ino)], HomeOffset(g, ino), r)]
  }

  lemma HomeOwned(g: Geometry, disk: Disk, own: map<nat, Owner>, ino: nat)
    requires Sound(g) && RecordsTile(g) && MetaOwned(g, own) && Numbered(g, Inodes, ino)
    requires forall b :: b in own ==> b in disk
    ensures Addressable(g, disk, ino)
    ensures HomeBlock(g, ino) in own &&
            own[HomeBlock(g, ino)] == Table(GroupOf(g, Inodes, ino), RecordBlock(g, IndexOf(g, Inodes, ino)))
  {
    LocatedNumber(g, Inodes, ino);
    RecordInTable(g, IndexOf(g, Inodes, ino));
  }

  /** Writing inode `i` and reading inode `j`: the new record when `i == j`, the old one otherwise. */
  lemma WriteThenRead(g: Geometry, disk: Disk, own: map<nat, Owner>, i: nat, r: Record, j: nat)
    requires Sound(g) && RecordsTile(g) && Blocky(g, disk) && MetaOwned(g, own)
    requires forall b :: b in own ==> b in disk
    requires Numbered(g, Inodes, i) && Numbered(g, Inodes, j)
    ensures Addressable(g, disk, i) && Addressable(g, disk, j)
    ensures RecordAt(g, WithRecord(g, disk, i, r), j) == if i == j then r else RecordAt(g, disk, j)
  {
    hide NumbersFit, BitmapsDistinct, MetaOwned, HomeBlock, HomeOffset, Splice, RecordsTile, Numbered;
    HomeOwned(g, disk, own, i);
    HomeOwned(g, disk, own, j);
    if HomeBlock(g, i) == HomeBlock(g, j) {
      HomesApart(g, disk, own, i, j);
      SpliceSlice(disk[HomeBlock(g, i)], HomeOffset(g, i), r, HomeOffset(g, j), 116);
    }
  }

  /** Two inodes in one table block do not overlap. */
  lemma HomesApart(g: Geometry, disk: Disk, own: map<nat, Owner>, i: nat, j: nat)
    requires Sound(g) && RecordsTile(g) && Blocky(g, disk) && MetaOwned(g, own)
    requires forall b :: b in own ==> b in disk
    requires Numbered(g, Inodes, i) && Numbered(g, Inodes, j) && HomeBlock(g, i) == HomeBlock(g, j)
    ensures
      var o, p := HomeOffset(g, i), HomeOffset(g, j);
      i == j || o + 116 <= p || p + 116 <= o
  {
    hide NumbersFit, BitmapsDistinct, MetaOwned, RecordBlock, RecordOffset, Quot, Rem;
    HomeOwned(g, disk, own, i);
    HomeOwned(g, disk, own, j);
    LocatedNumber(g, Inodes, i);
    LocatedNumber(g, Inodes, j);
    var a, b := IndexOf(g, Inodes, i), IndexOf(g, Inodes, j);
    if a < b {
      RecordsApart(g, a, b);
    } else if b < a {
      RecordsApart(g, b, a);
    }
  }

  lemma SpliceSlice(s: seq<byte>, o: nat, d: seq<byte>, p: nat, n: nat)
    requires o + |d| <= |s| && p + n <= |s|
    ensures p + n <= o || o + |d| <= p ==> Splice(s, o, d)[p..p + n] == s[p..p + n]
    ensures p == o && n == |d| ==> Splice(s, o, d)[p..p + n] == d
  {
  }

  predicate Live(g: Geometry, v: Volume, ino: nat)
    requires Sound(g) && Shape(g, v)
  {
    Numbered(g, Inodes, ino) && Marked(g, v, Inodes, ino)
  }

  /** The on-disk records of all inodes whose bit is set. */
  ghost function Records(g: Geometry, v: Volume): map<nat, Record>
    requires Sound(g) && Shape(g, v)
  {
    map ino: nat | ino < 0x8000_0000 && Live(g, v, ino) && Addressable(g, v.disk, ino) :: RecordAt(g, v.disk, ino)
  }

  lemma NumberedSmall(g: Geometry, k: Kind, n: nat)
    requires Sound(g) && Numbered(g, k, n)
    ensures n < 0x8000_0000
  {
    LocatedNumber(g, k, n);
    assert Number(g, k, GroupOf(g, k, n), IndexOf(g, k, n)) == n;
  }

  /** With the tables on disk, every live inode has a record. */
  lemma LiveRecorded(g: Geometry, v: Volume, own: map<nat, Owner>, ino: nat)
    requires Sound(g) && RecordsTile(g) && Shape(g, v) && MetaOwned(g, own)
    requires forall b :: b in own ==> b in v.disk
    ensures ino in Records(g, v) <==> Live(g, v, ino)
  {
    if Live(g, v, ino) {
      NumberedSmall(g, Inodes, ino);
      HomeOwned(g, v.disk, own, ino);
    }
  }

  /** Volumes that agree on inode bitmaps and tables hold the same records. */
  lemma SameRecords(g: Geometry, v: Volume, w: Volume, own: map<nat, Owner>)
    requires Sound(g) && RecordsTile(g) && Shape(g, v) && Shape(g, w) && MetaOwned(g, own)
    requires forall b :: b in own ==> b in v.disk
    requires InodesKept(own, v.disk, w.disk)
    ensures Records(g, w) == Records(g, v)
    ensures forall ino :: Live(g, w, ino) == Live(g, v, ino)
  {
    forall ino
      ensures Live(g, w, ino) == Live(g, v, ino)
    {
      if Numbered(g, Inodes, ino) {
        var b := BitmapBlock(g, Inodes, GroupOf(g, Inodes, ino));
        assert Payload(own[b]);
      }
    }
    forall ino | Numbered(g, Inodes, ino)
      ensures Addressable(g, v.disk, ino) && Addressable(g, w.disk, ino)
      ensures RecordAt(g, w.disk, ino) == RecordAt(g, v.disk, ino)
    {
      HomeOwned(g, v.disk, own, ino);
      assert Payload(own[HomeBlock(g, ino)]);
    }
  }

  /** Writing a live inode's record replaces that record and no other. */
  lemma WithRecordRecords(g: Geometry, v: Volume, own: map<nat, Owner>, ino: nat, r: Record)
    requires Sound(g) && RecordsTile(g) && Shape(g, v) && MetaOwned(g, own)
    requires forall b :: b in own ==> b in v.disk
    requires Live(g, v, ino)
    ensures Addressable(g, v.disk, ino)
    ensures Records(g, v.(disk := WithRecord(g, v.disk, ino, r))) == Records(g, v)[ino := r]
  {
    HomeOwned(g, v.disk, own, ino);
    NumberedSmall(g, Inodes, ino);
    var w := v.(disk := WithRecord(g, v.disk, ino, r));
    forall j | Numbered(g, Inodes, j)
      ensures Live(g, w, j) == Live(g, v, j)
      ensures Addressable(g, v.disk, j) && Addressable(g, w.disk, j)
      ensures RecordAt(g, w.disk, j) == if j == ino then r else RecordAt(g, v.disk, j)
    {
      WriteThenRead(g, v.disk, own, ino, r, j);
      assert BitmapBlock(g, Inodes, GroupOf(g, Inodes, j)) != HomeBlock(g, ino);
    }
  }
}
