/** Directory blocks: records that tile a block, and inserting one more. */
module Ext4Dir {
  import opened Wrappers
  import opened Bytes

  /** A directory entry as a reader of the directory sees it. */
  datatype Entry = Entry(ino: u32, kind: byte, name: seq<byte>)

  /** The bytes a record with an `n`-byte name takes, rounded up to a multiple of four. */
  function Need(n: nat): (k: nat)
    ensures 8 + n <= k < 12 + n && k % 4 == 0
  {
    (8 + n + 3) / 4 * 4
  }

  function RecLen(c: seq<byte>, o: nat): u16
    requires o + 8 <= |c|
  {
    U16(c, o + 4)
  }

  function NameLen(c: seq<byte>, o: nat): byte
    requires o + 8 <= |c|
  {
    c[o + 6]
  }

  /** The record at `o` is aligned, holds its name and stays inside the block. */
  predicate RecordFits(c: seq<byte>, o: nat) {
    o + 8 <= |c| && RecLen(c, o) % 4 == 0 && Need(NameLen(c, o)) <= RecLen(c, o) && o + RecLen(c, o) <= |c|
  }

  /** From `o` on, the `rec_len` chain covers the block exactly. */
  predicate Tiled(c: seq<byte>, o: nat)
    decreases |c| - o
  {
    o == |c| || (RecordFits(c, o) && Tiled(c, o + RecLen(c, o)))
  }

  function EntryAt(c: seq<byte>, o: nat): Entry
    requires RecordFits(c, o)
  {
    Entry(U32(c, o), c[o + 7], c[o + 8..o + 8 + NameLen(c, o)])
  }

  /** Where the fields of a directory record sit. */
  lemma EntryLayout(c: seq<byte>, o: nat, k: nat)
    requires RecordFits(c, o)
    ensures
      var e := EntryAt(c, o);
      && e.ino == Little(c[o..o + 4]) && RecLen(c, o) == Little(c[o + 4..o + 6])
      && |e.name| == c[o + 6] && e.kind == c[o + 7] && (k < |e.name| ==> e.name[k] == c[o + 8 + k])
  {
    LittleFields(c, o);
    LittleFields(c, o + 4);
  }

  /** The entries met on the chain from `o`, in order. */
  function Walk(c: seq<byte>, o: nat): seq<Entry>
    requires Tiled(c, o)
    decreases |c| - o
  {
    if o == |c| then [] else [EntryAt(c, o)] + Walk(c, o + RecLen(c, o))
  }

  /** A complete record image: header, then name. */
  function RecordImage(ino: u32, recLen: u16, kind: byte, name: seq<byte>): (s: seq<byte>)
    requires |name| < 256
    ensures |s| == 8 + |name|
  {
    Le32(ino) + Le16(recLen) + [|name|, kind] + name
  }

  lemma RecordImageFields(c: seq<byte>, o: nat, ino: u32, recLen: u16, kind: byte, name: seq<byte>)
    requires |name| < 256 && o + 8 + |name| <= |c|
    ensures
      var d := Splice(c, o, RecordImage(ino, recLen, kind, name));
      && RecLen(d, o) == recLen && NameLen(d, o) == |name| && U32(d, o) == ino && d[o + 7] == kind
      && d[o + 8..o + 8 + |name|] == name
  {
    var s := RecordImage(ino, recLen, kind, name);
    var d := Splice(c, o, s);
    assert forall k :: 0 <= k < |s| ==> d[o + k] == s[k];
    assert s[0] == Le32(ino)[0] && s[1] == Le32(ino)[1] && s[2] == Le32(ino)[2] && s[3] == Le32(ino)[3];
    assert s[4] == Le16(recLen)[0] && s[5] == Le16(recLen)[1];
    assert d[o] == s[0] && d[o + 1] == s[1] && d[o + 2] == s[2] && d[o + 3] == s[3];
    assert d[o + 4] == s[4] && d[o + 5] == s[5] && d[o + 6] == s[6] && d[o + 7] == s[7];
  }

  /** The first record at or after `o` with `need` bytes of slack behind its name. */
  function FindSlack(c: seq<byte>, o: nat, need: nat): (r: Option<nat>)
    ensures r.Some? ==>
      && r.value + 8 <= |c| && r.value + RecLen(c, r.value) <= |c|
      && Need(NameLen(c, r.value)) + need <= RecLen(c, r.value)
    decreases |c| - o
  {
    if o + 8 > |c| || RecLen(c, o) == 0 || o + RecLen(c, o) > |c| then None
    else if RecLen(c, o) > Need(NameLen(c, o)) && RecLen(c, o) - Need(NameLen(c, o)) >= need then Some(o)
    else FindSlack(c, o + RecLen(c, o), need)
  }

  /** The record at `o` shrunk to its own size, the new entry taking over its slack. */
  function Inserted(c: seq<byte>, o: nat, e: Entry): (d: seq<byte>)
    requires |e.name| < 256 && o + 8 <= |c| && o + RecLen(c, o) <= |c|
    requires Need(NameLen(c, o)) + Need(|e.name|) <= RecLen(c, o)
    ensures |d| == |c|
  {
    var own := Need(NameLen(c, o));
    Splice(PutU16(c, o + 4, own), o + own, RecordImage(e.ino, RecLen(c, o) - own, e.kind, e.name))
  }

  /** A fresh block with a single record that takes all of it. */
  function OneEntryBlock(size: nat, e: Entry): (c: seq<byte>)
    requires |e.name| < 256 && 1024 <= size < 0x1_0000
    ensures |c| == size
  {
    Splice(Zeros(size), 0, RecordImage(e.ino, size, e.kind, e.name))
  }

  lemma OneEntryTiles(size: nat, e: Entry)
    requires |e.name| < 256 && 1024 <= size < 0x1_0000 && size % 4 == 0
    ensures Tiled(OneEntryBlock(size, e), 0)
    ensures Walk(OneEntryBlock(size, e), 0) == [e]
  {
    RecordImageFields(Zeros(size), 0, e.ino, size, e.kind, e.name);
    var c := OneEntryBlock(size, e);
    assert Tiled(c, size);
  }

  /** The chain from `o` on depends only on the bytes from `o` on. */
  lemma {:induction false} ChainFrame(c: seq<byte>, d: seq<byte>, o: nat)
    requires |c| == |d| && Tiled(c, o) && forall i :: o <= i < |c| ==> d[i] == c[i]
    ensures Tiled(d, o) && Walk(d, o) == Walk(c, o)
    decreases |c| - o
  {
    if o < |c| {
      SameRecord(c, d, o);
      ChainFrame(c, d, o + RecLen(c, o));
    }
  }

  lemma SameRecord(c: seq<byte>, d: seq<byte>, o: nat)
    requires |c| == |d| && RecordFits(c, o) && forall i :: o <= i < o + RecLen(c, o) ==> d[i] == c[i]
    ensures RecordFits(d, o) && RecLen(d, o) == RecLen(c, o) && EntryAt(d, o) == EntryAt(c, o)
  {
    assert d[o] == c[o] && d[o + 1] == c[o + 1] && d[o + 2] == c[o + 2] && d[o + 3] == c[o + 3];
    assert d[o + 4] == c[o + 4] && d[o + 5] == c[o + 5] && d[o + 6] == c[o + 6] && d[o + 7] == c[o + 7];
    assert d[o + 8..o + 8 + NameLen(c, o)] == c[o + 8..o + 8 + NameLen(c, o)];
  }

  /** `e` has been put into the list, behind at least one of the entries already there. */
  ghost predicate WithOneMore(before: seq<Entry>, after: seq<Entry>, e: Entry) {
    exists k: nat :: (k > 0 || before == []) && k <= |before| && after == before[..k] + [e] + before[k..]
  }

  lemma OneMoreHere(h: Entry, w: seq<Entry>, e: Entry)
    ensures WithOneMore([h] + w, [h, e] + w, e)
  {
    var b := [h] + w;
    assert b[..1] == [h] && b[1..] == w;
    assert [h, e] + w == b[..1] + [e] + b[1..];
  }

  lemma OneMoreLater(h: Entry, w: seq<Entry>, x: seq<Entry>, e: Entry)
    requires WithOneMore(w, x, e)
    ensures WithOneMore([h] + w, [h] + x, e)
  {
    var k: nat :| (k > 0 || w == []) && k <= |w| && x == w[..k] + [e] + w[k..];
    var b := [h] + w;
    assert b[..k + 1] == [h] + w[..k] && b[k + 1..] == w[k..];
    assert [h] + x == b[..k + 1] + [e] + b[k + 1..];
  }

  /** Nothing outside the record that is split changes. */
  lemma InsertedFrame(c: seq<byte>, o: nat, e: Entry)
    requires |e.name| < 256 && o + 8 <= |c| && o + RecLen(c, o) <= |c|
    requires Need(NameLen(c, o)) + Need(|e.name|) <= RecLen(c, o)
    ensures forall i :: 0 <= i < |c| && !(o <= i < o + RecLen(c, o)) ==> Inserted(c, o, e)[i] == c[i]
  {
    hide U16, Need, Le32, Le16;
  }

  lemma ShrunkHead(c: seq<byte>, o: nat, e: Entry)
    requires |e.name| < 256 && RecordFits(c, o)
    requires Need(NameLen(c, o)) + Need(|e.name|) <= RecLen(c, o)
    ensures
      var d, own := Inserted(c, o, e), Need(NameLen(c, o));
      RecordFits(d, o) && RecLen(d, o) == own && EntryAt(d, o) == EntryAt(c, o)
  {
    hide Need, Le32, Le16, RecordImage;
    var own := Need(NameLen(c, o));
    var m := PutU16(c, o + 4, own);
    var d := Inserted(c, o, e);
    assert d[o] == c[o] && d[o + 1] == c[o + 1] && d[o + 2] == c[o + 2] && d[o + 3] == c[o + 3];
    assert d[o + 4] == m[o + 4] && d[o + 5] == m[o + 5] && d[o + 6] == c[o + 6] && d[o + 7] == c[o + 7];
    assert d[o + 8..o + 8 + NameLen(c, o)] == c[o + 8..o + 8 + NameLen(c, o)];
  }

  lemma NewTail(c: seq<byte>, o: nat, e: Entry)
    requires |e.name| < 256 && RecordFits(c, o)
    requires Need(NameLen(c, o)) + Need(|e.name|) <= RecLen(c, o)
    ensures
      var d, own := Inserted(c, o, e), Need(NameLen(c, o));
      RecordFits(d, o + own) && RecLen(d, o + own) == RecLen(c, o) - own && EntryAt(d, o + own) == e
  {
    hide Need, Le32, Le16, RecordImage, Splice, PutU16;
    var own := Need(NameLen(c, o));
    RecordImageFields(PutU16(c, o + 4, own), o + own, e.ino, RecLen(c, o) - own, e.kind, e.name);
  }

  lemma TailWalked(c: seq<byte>, o: nat, e: Entry)
    requires |e.name| < 256 && RecordFits(c, o) && Tiled(c, o + RecLen(c, o))
    requires Need(NameLen(c, o)) + Need(|e.name|) <= RecLen(c, o)
    ensures
      var d, own := Inserted(c, o, e), Need(NameLen(c, o));
      Tiled(d, o + own) && Walk(d, o + own) == [e] + Walk(c, o + RecLen(c, o))
  {
    hide Need, Inserted, EntryAt, U16;
    NewTail(c, o, e);
    InsertedFrame(c, o, e);
    ChainFrame(c, Inserted(c, o, e), o + RecLen(c, o));
  }

  lemma SplitRecord(c: seq<byte>, o: nat, e: Entry)
    requires |e.name| < 256 && RecordFits(c, o) && Tiled(c, o + RecLen(c, o))
    requires Need(NameLen(c, o)) + Need(|e.name|) <= RecLen(c, o)
    ensures
      var d := Inserted(c, o, e);
      && Tiled(d, o)
      && Walk(d, o) == [EntryAt(c, o), e] + Walk(c, o + RecLen(c, o))
  {
    hide Need, Inserted, EntryAt, U16;
    ShrunkHead(c, o, e);
    TailWalked(c, o, e);
  }

  /** Inserting where `FindSlack` found room keeps the tiling and adds exactly the new entry. */
  lemma {:induction false} InsertTiles(c: seq<byte>, o: nat, e: Entry)
    requires |e.name| < 256 && Tiled(c, o) && FindSlack(c, o, Need(|e.name|)).Some?
    ensures
      var d := Inserted(c, FindSlack(c, o, Need(|e.name|)).value, e);
      Tiled(d, o) && Walk(c, o) != [] && WithOneMore(Walk(c, o), Walk(d, o), e)
    decreases |c| - o
  {
    hide Need, Inserted, EntryAt, WithOneMore, U16;
    var p := FindSlack(c, o, Need(|e.name|)).value;
    var d := Inserted(c, p, e);
    var next := o + RecLen(c, o);
    if p == o {
      SplitRecord(c, o, e);
      OneMoreHere(EntryAt(c, o), Walk(c, next), e);
    } else {
      SlackBeyond(c, next, Need(|e.name|));
      InsertTiles(c, next, e);
      InsertedFrame(c, p, e);
      SameRecord(c, d, o);
      OneMoreLater(EntryAt(c, o), Walk(c, next), Walk(d, next), e);
    }
  }

  lemma {:induction false} SlackBeyond(c: seq<byte>, o: nat, need: nat)
    requires FindSlack(c, o, need).Some?
    ensures FindSlack(c, o, need).value >= o
    decreases |c| - o
  {
    if FindSlack(c, o, need).value != o {
      SlackBeyond(c, o + RecLen(c, o), need);
    }
  }

  /** `p` is the offset of a record on the chain from `o`. */
  predicate OnChain(c: seq<byte>, o: nat, p: nat)
    requires Tiled(c, o)
    decreases |c| - o
  {
    o < |c| && (p == o || OnChain(c, o + RecLen(c, o), p))
  }

  /** On a tiled block the search fails only if no record has enough slack. */
  lemma {:induction false} NoSlack(c: seq<byte>, o: nat, need: nat, p: nat)
    requires Tiled(c, o) && FindSlack(c, o, need).None? && need > 0 && OnChain(c, o, p)
    ensures RecordFits(c, p) && RecLen(c, p) < Need(NameLen(c, p)) + need
    decreases |c| - o
  {
    if p != o {
      NoSlack(c, o + RecLen(c, o), need, p);
    }
  }

  /** The record found is the first one on the chain with enough slack. */
  lemma {:induction false} SlackFirst(c: seq<byte>, o: nat, need: nat, p: nat)
    requires Tiled(c, o) && FindSlack(c, o, need).Some? && need > 0 && OnChain(c, o, p)
    ensures
      var found := FindSlack(c, o, need).value;
      && OnChain(c, o, found) && RecordFits(c, found) && RecLen(c, found) >= Need(NameLen(c, found)) + need
      && (p < found ==> RecordFits(c, p) && RecLen(c, p) < Need(NameLen(c, p)) + need)
    decreases |c| - o
  {
    if FindSlack(c, o, need).value != o {
      var next := o + RecLen(c, o);
      SlackFirst(c, next, need, if p == o then next else p);
    } else {
      ChainForward(c, o, p);
    }
  }

  lemma {:induction false} ChainForward(c: seq<byte>, o: nat, p: nat)
    requires Tiled(c, o) && OnChain(c, o, p)
    ensures o <= p < |c|
    decreases |c| - o
  {
    if p != o {
      ChainForward(c, o + RecLen(c, o), p);
    }
  }
}
