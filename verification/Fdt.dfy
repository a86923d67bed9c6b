/** Finding the machine's memory in a flattened device tree (section 5.4 of the Devicetree Specification). */
module Fdt {
  import opened Bytes
  import opened Wrappers

  /** Memory from the blob's first byte on. */
  type Memory = nat -> byte

  /** What is passed on to the page allocator. */
  datatype Range = Range(base: nat, size: nat)

  const LIMIT: nat := 0x1_0000_0000
  const MEMORY: seq<byte> := [109, 101, 109, 111, 114, 121, 64]
  const REG: seq<byte> := [114, 101, 103, 0]

  // Big-endian fields

  /** `dtb_be32` */
  function Be32(m: Memory, p: nat): u32 {
    ((m(p) as int * 256 + m(p + 1)) * 256 + m(p + 2)) * 256 + m(p + 3)
  }

  /** `dtb_be64` */
  function Be64(m: Memory, p: nat): nat { Be32(m, p) * 0x1_0000_0000 + Be32(m, p + 4) }

  function Cell32(x: u32): (s: seq<byte>)
    ensures |s| == 4
  {
    [x / 0x100_0000, x / 0x1_0000 % 256, x / 256 % 256, x % 256]
  }

  predicate Holds(m: Memory, p: nat, s: seq<byte>) {
    forall i :: 0 <= i < |s| ==> m(p + i) == s[i]
  }

  /** Reading a big-endian cell gives back what was written. */
  lemma CellReads(m: Memory, p: nat, x: u32)
    requires Holds(m, p, Cell32(x))
    ensures Be32(m, p) == x
  {
    var s := Cell32(x);
    assert m(p + 0) == s[0] && m(p + 1) == s[1] && m(p + 2) == s[2] && m(p + 3) == s[3];
    var v: int := x;
    assert v / 0x1_0000 == v / 0x100_0000 * 256 + v / 0x1_0000 % 256;
    assert v / 256 == v / 0x1_0000 * 256 + v / 256 % 256;
  }

  // The walk over the structure block

  /** `str_starts_with_local` */
  predicate StartsWith(m: Memory, p: nat, prefix: seq<byte>) { Holds(m, p, prefix) }

  /** The length of the name at `p`, cut off at the end of the block. */
  function NameLength(m: Memory, p: nat, end: nat): (n: nat)
    ensures forall j :: p <= j < p + n ==> m(j) != 0
    ensures p <= end ==> p + n <= end
    ensures p + n < end ==> m(p + n) == 0
    decreases if p < end then end - p else 0
  {
    if p < end && m(p) != 0 then 1 + NameLength(m, p + 1, end) else 0
  }

  /** Rounding up to the next token, `(len + 3) & ~3U`. */
  function Aligned(len: nat): (n: nat)
    ensures len + 3 < 0x1_0000_0000 ==> len <= n < len + 4 && n % 4 == 0
  {
    Wrap32(len + 3) / 4 * 4
  }

  /** A `reg` property's data at `p`, of length `len`: the range it gives, if it gives one. */
  function RegAt(m: Memory, p: nat, len: nat): Option<Range> {
    if len >= 16 && Be64(m, p) != 0 && Be64(m, p + 8) != 0 then
      Some(Range(Be64(m, p), if Be64(m, p + 8) > LIMIT then LIMIT else Be64(m, p + 8)))
    else None
  }

  /** The token loop of `dtb_configure_memory`, from `p` on. */
  function Walk(m: Memory, strings: nat, p: nat, end: nat, depth: nat, inMemory: bool): Option<Range>
    decreases end - p
  {
    if p + 4 > end then None else
    var token := Be32(m, p);
    if token == 1 then
      var enters := depth == 1 && StartsWith(m, p + 4, MEMORY);
      Walk(m, strings, p + 4 + Aligned(NameLength(m, p + 4, end) + 1), end, depth + 1, inMemory || enters)
    else if token == 2 then
      Walk(m, strings, p + 4, end, if depth > 0 then depth - 1 else 0, inMemory && depth != 2)
    else if token == 3 then
      if p + 12 > end then None else
      var len := Be32(m, p + 4);
      var reg := if inMemory && Holds(m, strings + Be32(m, p + 8), REG) then RegAt(m, p + 12, len) else None;
      if reg.Some? then reg else Walk(m, strings, p + 12 + Aligned(len), end, depth, inMemory)
    else if token == 9 then None
    else Walk(m, strings, p + 4, end, depth, inMemory)
  }

  /** `dtb_configure_memory` */
  function Configured(dtb: Option<Memory>): Option<Range> {
    if dtb.None? || Be32(dtb.value, 0) != 0xD00DFEED then None else
    var m := dtb.value;
    Walk(m, Be32(m, 12), Be32(m, 8), Be32(m, 8) + Be32(m, 36), 0, false)
  }

  // Device trees

  /** What a node contains, in document order. */
  datatype Items =
    | Done
    | Nop(rest: Items)
    | Property(nameOffset: u32, data: seq<byte>, rest: Items)
    | Node(name: seq<byte>, items: Items, rest: Items)

  ghost predicate WellFormed(t: Items) {
    match t
    case Done => true
    case Nop(rest) => WellFormed(rest)
    case Property(_, data, rest) => |data| < 0x1_0000_0000 && WellFormed(rest)
    case Node(name, items, rest) => 0 !in name && WellFormed(items) && WellFormed(rest)
  }

  function Padding(n: nat): (s: seq<byte>)
    ensures |s| < 4 && (n + |s|) % 4 == 0
  {
    Zeros((4 - n % 4) % 4)
  }

  /** The structure block's bytes. */
  ghost function Serialized(t: Items): seq<byte>
    requires WellFormed(t)
  {
    match t
    case Done => []
    case Nop(rest) => Cell32(4) + Serialized(rest)
    case Property(offset, data, rest) =>
      Cell32(3) + Cell32(|data|) + Cell32(offset) + data + Padding(|data|) + Serialized(rest)
    case Node(name, items, rest) =>
      Cell32(1) + name + [0] + Padding(|name| + 1) + Serialized(items) + Cell32(2) + Serialized(rest)
  }

  /** A 64-bit big-endian number. */
  function Number(s: seq<byte>): nat
    requires |s| == 8
  {
    Word(s[..4]) * 0x1_0000_0000 + Word(s[4..])
  }

  function Word(s: seq<byte>): u32
    requires |s| == 4
  {
    ((s[0] as int * 256 + s[1]) * 256 + s[2]) * 256 + s[3]
  }

  /** The range that one property gives. */
  function Reg(m: Memory, strings: nat, offset: u32, data: seq<byte>): seq<Range> {
    var size := if |data| >= 16 then Number(data[8..16]) else 0;
    if Holds(m, strings + offset, [114, 101, 103, 0]) && size != 0 && Number(data[..8]) != 0 then
      [Range(Number(data[..8]), if size > 0x1_0000_0000 then 0x1_0000_0000 else size)]
    else []
  }

  /** The ranges given by all properties in a subtree, in preorder. */
  function Regs(m: Memory, strings: nat, t: Items): seq<Range> {
    match t
    case Done => []
    case Nop(rest) => Regs(m, strings, rest)
    case Property(offset, data, rest) => Reg(m, strings, offset, data) + Regs(m, strings, rest)
    case Node(_, items, rest) => Regs(m, strings, items) + Regs(m, strings, rest)
  }

  predicate IsMemory(name: seq<byte>) { [109, 101, 109, 111, 114, 121, 64] <= name }

  /** The ranges given inside the memory nodes among a root's children. */
  function MemoryRegs(m: Memory, strings: nat, t: Items): seq<Range> {
    match t
    case Done => []
    case Nop(rest) => MemoryRegs(m, strings, rest)
    case Property(_, _, rest) => MemoryRegs(m, strings, rest)
    case Node(name, items, rest) =>
      (if IsMemory(name) then Regs(m, strings, items) else []) + MemoryRegs(m, strings, rest)
  }

  /** The ranges given inside the memory nodes of a whole tree. */
  function TreeRegs(m: Memory, strings: nat, t: Items): seq<Range> {
    match t
    case Done => []
    case Nop(rest) => TreeRegs(m, strings, rest)
    case Property(_, _, rest) => TreeRegs(m, strings, rest)
    case Node(_, items, rest) => MemoryRegs(m, strings, items) + TreeRegs(m, strings, rest)
  }

  function First(rs: seq<Range>): Option<Range> { if rs == [] then None else Some(rs[0]) }

  // The walk and the tree

  /** The ranges that count for items at a given depth. */
  function Wanted(m: Memory, strings: nat, t: Items, depth: nat, inMemory: bool): seq<Range> {
    if inMemory then Regs(m, strings, t)
    else if depth == 0 then TreeRegs(m, strings, t)
    else if depth == 1 then MemoryRegs(m, strings, t)
    else []
  }

  /** What counts in an item, below it, and behind it. */
  lemma WantedParts(m: Memory, strings: nat, t: Items, depth: nat, inMemory: bool)
    requires inMemory ==> depth >= 2
    ensures Wanted(m, strings, t, depth, inMemory)
         == match t
            case Done => []
            case Nop(rest) => Wanted(m, strings, rest, depth, inMemory)
            case Property(offset, data, rest) =>
              (if inMemory then Reg(m, strings, offset, data) else []) + Wanted(m, strings, rest, depth, inMemory)
            case Node(name, items, rest) =>
              Wanted(m, strings, items, depth + 1, inMemory || (depth == 1 && IsMemory(name)))
              + Wanted(m, strings, rest, depth, inMemory)
  {
    hide Reg, IsMemory;
  }

  /** A property's bytes, and those behind it. */
  lemma PropertyParts(m: Memory, p: nat, t: Items)
    requires t.Property? && WellFormed(t) && Holds(m, p, Serialized(t))
    ensures
      var head := Cell32(3) + Cell32(|t.data|) + Cell32(t.nameOffset) + t.data + Padding(|t.data|);
      && Holds(m, p, head) && Holds(m, p + |head|, Serialized(t.rest))
      && |head| == 12 + |t.data| + |Padding(|t.data|)| && |Serialized(t)| == |head| + |Serialized(t.rest)|
  {
    hide Holds, Cell32, Padding;
    var head := Cell32(3) + Cell32(|t.data|) + Cell32(t.nameOffset) + t.data + Padding(|t.data|);
    HoldsParts(m, p, head, Serialized(t.rest));
  }

  /** A node's bytes, cut behind its beginning, its contents and its end. */
  lemma NodeParts(m: Memory, p: nat, t: Items)
    requires t.Node? && WellFormed(t) && Holds(m, p, Serialized(t))
    ensures
      var head, inner := Cell32(1) + t.name + [0] + Padding(|t.name| + 1), Serialized(t.items);
      var q := p + |head|;
      && Holds(m, p, head) && Holds(m, q, inner) && Holds(m, q + |inner|, Cell32(2))
      && Holds(m, q + |inner| + 4, Serialized(t.rest))
      && |Serialized(t)| == |head| + |inner| + 4 + |Serialized(t.rest)|
  {
    hide Holds, Cell32, Padding;
    var head, inner := Cell32(1) + t.name + [0] + Padding(|t.name| + 1), Serialized(t.items);
    HoldsParts(m, p, head + inner + Cell32(2), Serialized(t.rest));
    HoldsParts(m, p, head + inner, Cell32(2));
    HoldsParts(m, p, head, inner);
  }

  lemma HoldsParts(m: Memory, p: nat, a: seq<byte>, b: seq<byte>)
    requires Holds(m, p, a + b)
    ensures Holds(m, p, a) && Holds(m, p + |a|, b)
  {
    assert forall i :: 0 <= i < |a| ==> (a + b)[i] == a[i];
    forall i | 0 <= i < |b| ensures m(p + |a| + i) == b[i] {
      assert (a + b)[|a| + i] == b[i];
      assert m(p + (|a| + i)) == b[i];
    }
  }

  lemma AlignedIs(n: nat)
    requires n + 3 < 0x1_0000_0000
    ensures Aligned(n) == n + |Padding(n)|
  {
  }

  lemma {:induction false} NameEnds(m: Memory, p: nat, end: nat, name: seq<byte>)
    requires Holds(m, p, name + [0]) && 0 !in name && p + |name| < end
    ensures NameLength(m, p, end) == |name|
    decreases |name|
  {
    assert m(p + |name|) == (name + [0])[|name|] == 0;
    if name != [] {
      assert m(p + 0) == (name + [0])[0] == name[0];
      forall i | 0 <= i < |name| ensures m(p + 1 + i) == (name[1..] + [0])[i] {
        assert m(p + (i + 1)) == (name + [0])[i + 1];
      }
      NameEnds(m, p + 1, end, name[1..]);
    }
  }

  lemma NameStarts(m: Memory, p: nat, name: seq<byte>)
    requires Holds(m, p, name + [0]) && 0 !in name
    ensures StartsWith(m, p, MEMORY) <==> IsMemory(name)
  {
    assert m(p + |name|) == (name + [0])[|name|] == 0;
    assert forall i :: 0 <= i < |name| ==> m(p + i) == (name + [0])[i] == name[i];
    if StartsWith(m, p, MEMORY) {
      var n := if |name| < 7 then |name| else 0;
      assert m(p + n) == MEMORY[n] && MEMORY[n] != 0;
      assert forall i :: 0 <= i < 7 ==> name[i] == MEMORY[i];
    }
  }

  lemma NumberReads(m: Memory, p: nat, data: seq<byte>, o: nat)
    requires Holds(m, p, data) && o + 8 <= |data|
    ensures Be64(m, p + o) == Number(data[o..o + 8])
  {
    WordReads(m, p, data, o);
    WordReads(m, p, data, o + 4);
    assert data[o..o + 8][..4] == data[o..o + 4] && data[o..o + 8][4..] == data[o + 4..o + 8];
  }

  lemma WordReads(m: Memory, p: nat, data: seq<byte>, o: nat)
    requires Holds(m, p, data) && o + 4 <= |data|
    ensures Be32(m, p + o) == Word(data[o..o + 4])
  {
    assert m(p + (o + 0)) == data[o] && m(p + (o + 1)) == data[o + 1];
    assert m(p + (o + 2)) == data[o + 2] && m(p + (o + 3)) == data[o + 3];
  }

  lemma RegReads(m: Memory, strings: nat, p: nat, offset: u32, data: seq<byte>)
    requires Holds(m, p, data)
    ensures First(Reg(m, strings, offset, data))
         == if Holds(m, strings + offset, REG) then RegAt(m, p, |data|) else None
  {
    hide Be64, Number, Holds;
    if |data| >= 16 {
      NumberReads(m, p, data, 0);
      NumberReads(m, p, data, 8);
    }
  }

  /** A property token: the walk reports its range, or goes on behind its data. */
  lemma WalkProperty(m: Memory, strings: nat, p: nat, end: nat, depth: nat, inMemory: bool, offset: u32,
                     data: seq<byte>)
    requires |data| < 0x1_0000_0000 && end < p + 0x1_0000_0000
    requires Holds(m, p, Cell32(3) + Cell32(|data|) + Cell32(offset) + data + Padding(|data|))
    requires p + 12 + |data| + |Padding(|data|)| <= end
    ensures
      var reg := if inMemory then Reg(m, strings, offset, data) else [];
      Walk(m, strings, p, end, depth, inMemory)
      == if reg != [] then Some(reg[0]) else Walk(m, strings, p + 12 + |data| + |Padding(|data|)|, end, depth, inMemory)
  {
    hide Holds, Cell32, Be32, RegAt, Reg, Padding, Aligned;
    var a, b, c, d := Cell32(3), Cell32(|data|), Cell32(offset), Padding(|data|);
    HoldsParts(m, p, a + b + c + data, d);
    HoldsParts(m, p, a + b + c, data);
    HoldsParts(m, p, a + b, c);
    HoldsParts(m, p, a, b);
    CellReads(m, p, 3);
    CellReads(m, p + 4, |data|);
    CellReads(m, p + 8, offset);
    RegReads(m, strings, p + 12, offset, data);
    AlignedIs(|data|);
  }

  /** The beginning of a node. */
  lemma WalkBegin(m: Memory, strings: nat, p: nat, end: nat, depth: nat, inMemory: bool, name: seq<byte>)
    requires 0 !in name && end < p + 0x1_0000_0000
    requires Holds(m, p, Cell32(1) + name + [0] + Padding(|name| + 1))
    requires p + 4 + |name| + 1 + |Padding(|name| + 1)| <= end
    ensures Walk(m, strings, p, end, depth, inMemory)
         == Walk(m, strings, p + 4 + |name| + 1 + |Padding(|name| + 1)|, end, depth + 1,
                 inMemory || (depth == 1 && IsMemory(name)))
  {
    hide Holds, Cell32, Be32, Padding, Aligned, IsMemory;
    var a, d := Cell32(1), Padding(|name| + 1);
    assert a + name + [0] + d == a + (name + [0]) + d;
    HoldsParts(m, p, a + (name + [0]), d);
    HoldsParts(m, p, a, name + [0]);
    CellReads(m, p, 1);
    NameEnds(m, p + 4, end, name);
    NameStarts(m, p + 4, name);
    AlignedIs(|name| + 1);
  }

  /** A token without contents. */
  lemma WalkToken(m: Memory, strings: nat, p: nat, end: nat, depth: nat, inMemory: bool, token: u32)
    requires token == 2 || token == 4 || token == 9
    requires Holds(m, p, Cell32(token)) && p + 4 <= end
    ensures Walk(m, strings, p, end, depth, inMemory)
         == if token == 9 then None
            else if token == 4 then Walk(m, strings, p + 4, end, depth, inMemory)
            else Walk(m, strings, p + 4, end, if depth > 0 then depth - 1 else 0, inMemory && depth != 2)
  {
    hide Holds, Cell32, Be32, RegAt, Aligned;
    CellReads(m, p, token);
  }

  /** Walking over items reports the first wanted range among them, or goes on behind them as before. */
  lemma {:induction false} WalkItems(m: Memory, strings: nat, p: nat, end: nat, depth: nat, inMemory: bool, t: Items)
    requires WellFormed(t) && Holds(m, p, Serialized(t)) && p + |Serialized(t)| <= end < p + 0x1_0000_0000
    requires inMemory ==> depth >= 2
    ensures
      var found := Wanted(m, strings, t, depth, inMemory);
      Walk(m, strings, p, end, depth, inMemory)
      == if found != [] then Some(found[0]) else Walk(m, strings, p + |Serialized(t)|, end, depth, inMemory)
    decreases t
  {
    hide Walk, Holds, Wanted, Cell32, Padding, Reg, IsMemory;
    WantedParts(m, strings, t, depth, inMemory);
    match t
    case Done =>
    case Nop(rest) =>
      HoldsParts(m, p, Cell32(4), Serialized(rest));
      WalkToken(m, strings, p, end, depth, inMemory, 4);
      WalkItems(m, strings, p + 4, end, depth, inMemory, rest);
    case Property(offset, data, rest) =>
      PropertyParts(m, p, t);
      WalkProperty(m, strings, p, end, depth, inMemory, offset, data);
      WalkItems(m, strings, p + 12 + |data| + |Padding(|data|)|, end, depth, inMemory, rest);
    case Node(name, items, rest) =>
      var q := p + 4 + |name| + 1 + |Padding(|name| + 1)|;
      var r := q + |Serialized(items)|;
      var within := inMemory || (depth == 1 && IsMemory(name));
      NodeParts(m, p, t);
      WalkBegin(m, strings, p, end, depth, inMemory, name);
      WalkItems(m, strings, q, end, depth + 1, within, items);
      WalkToken(m, strings, r, end, depth + 1, within, 2);
      WalkItems(m, strings, r + 4, end, depth, inMemory, rest);
  }

  /** A blob whose header is valid and whose structure block is the given tree. */
  ghost predicate IsTree(m: Memory, t: Items) {
    && WellFormed(t) && Be32(m, 0) == 0xD00DFEED
    && Holds(m, Be32(m, 8), Serialized(t) + Cell32(9))
    && |Serialized(t)| + 4 <= Be32(m, 36)
  }

  /**
   * For every well-formed tree the code reports the first usable `reg` in preorder inside a memory
   * node at depth one, with its size clamped, and nothing if there is none.
   */
  lemma FindsMemory(m: Memory, t: Items)
    requires IsTree(m, t)
    ensures Configured(Some(m)) == First(TreeRegs(m, Be32(m, 12), t))
  {
    hide Holds, Cell32, Walk, Be32;
    var p, end := Be32(m, 8), Be32(m, 8) + Be32(m, 36);
    HoldsParts(m, p, Serialized(t), Cell32(9));
    WalkItems(m, Be32(m, 12), p, end, 0, false, t);
    WalkToken(m, Be32(m, 12), p + |Serialized(t)|, end, 0, false, 9);
  }

  // The code's loops

  /** `str_starts_with_local` */
  method HasPrefix(m: Memory, at: nat, prefix: seq<byte>) returns (r: bool)
    ensures r <==> StartsWith(m, at, prefix)
  {
    var i := 0;
    while i < |prefix|
      invariant i <= |prefix| && forall j :: 0 <= j < i ==> m(at + j) == prefix[j]
    {
      if m(at + i) != prefix[i] {
        return false;
      }
      i := i + 1;
    }
    return true;
  }

  method ScanName(m: Memory, p: nat, end: nat) returns (len: nat)
    ensures len == NameLength(m, p, end)
  {
    len := 0;
    while p + len < end && m(p + len) != 0
      invariant len + NameLength(m, p + len, end) == NameLength(m, p, end)
      decreases end - len
    {
      len := len + 1;
    }
  }

  /** The check of one property. */
  method ReadReg(m: Memory, name: nat, p: nat, len: nat, inMemory: bool) returns (r: Option<Range>)
    ensures r == if inMemory && Holds(m, name, REG) then RegAt(m, p, len) else None
  {
    var isReg := HasPrefix(m, name, REG);
    if inMemory && len >= 16 && isReg {
      var base, size := Be64(m, p), Be64(m, p + 8);
      if base != 0 && size != 0 {
        return Some(Range(base, if size > LIMIT then LIMIT else size));
      }
    }
    return None;
  }

  /** A node begins: its name is skipped, and a memory node at depth one is entered. */
  method BeginNode(m: Memory, p: nat, end: nat, depth: nat, inMemory: bool) returns (q: nat, within: bool)
    ensures q == p + Aligned(NameLength(m, p, end) + 1)
    ensures within == (inMemory || (depth == 1 && StartsWith(m, p, MEMORY)))
  {
    hide Aligned, NameLength, Holds;
    within := inMemory;
    var len := ScanName(m, p, end);
    if depth == 1 {
      var memory := HasPrefix(m, p, MEMORY);
      if memory { within := true; }
    }
    len := len + 1;
    q := p + Aligned(len);
  }

  /** A property: the range it gives, or the place behind its data; nothing if the block ends here. */
  method TakeProperty(m: Memory, strings: nat, p: nat, inMemory: bool) returns (reg: Option<Range>, q: nat)
    ensures reg == if inMemory && Holds(m, strings + Be32(m, p + 4), REG) then RegAt(m, p + 8, Be32(m, p)) else None
    ensures q == p + 8 + Aligned(Be32(m, p))
  {
    hide Aligned, Be32, RegAt, Holds;
    var len, offset := Be32(m, p), Be32(m, p + 4);
    reg := ReadReg(m, strings + offset, p + 8, len, inMemory);
    q := p + 8 + Aligned(len);
  }

  /** The token loop: whatever the memory holds, it ends. */
  method WalkTokens(m: Memory, strings: nat, start: nat, end: nat) returns (r: Option<Range>)
    ensures r == Walk(m, strings, start, end, 0, false)
  {
    hide Be32, RegAt, Aligned, NameLength, Holds;
    var p, inMemory, depth: nat := start, false, 0;
    while p + 4 <= end
      invariant Walk(m, strings, p, end, depth, inMemory) == Walk(m, strings, start, end, 0, false)
      decreases end - p
    {
      var token := Be32(m, p);
      if token == 1 {
        p, inMemory := BeginNode(m, p + 4, end, depth, inMemory);
        depth := depth + 1;
      } else if token == 2 {
        p := p + 4;
        if inMemory && depth == 2 { inMemory := false; }
        if depth > 0 { depth := depth - 1; }
      } else if token == 3 {
        if p + 4 + 8 > end { return None; }
        var reg, q := TakeProperty(m, strings, p + 4, inMemory);
        if reg.Some? { return reg; }
        p := q;
      } else if token == 9 {
        return None;
      } else {
        p := p + 4;
      }
    }
    return None;
  }

  /** `dtb_configure_memory` */
  method ConfigureMemory(dtb: Option<Memory>) returns (r: Option<Range>)
    ensures r == Configured(dtb)
    ensures forall t :: dtb.Some? && IsTree(dtb.value, t) ==> r == First(TreeRegs(dtb.value, Be32(dtb.value, 12), t))
  {
    hide IsTree, TreeRegs, First, Be32, Walk;
    forall t | dtb.Some? && IsTree(dtb.value, t)
      ensures Configured(dtb) == First(TreeRegs(dtb.value, Be32(dtb.value, 12), t))
    {
      FindsMemory(dtb.value, t);
    }
    if dtb.None? { return None; }
    var m := dtb.value;
    if Be32(m, 0) != 0xD00DFEED { return None; }
    r := WalkTokens(m, Be32(m, 12), Be32(m, 8), Be32(m, 8) + Be32(m, 36));
  }
}
