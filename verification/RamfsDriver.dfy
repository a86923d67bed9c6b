/** The RAM file system's own code: pointer loops and stores, and file data in growing buffers. */
module RamfsDriver {
  import opened Bytes
  import opened Ramfs

  /** The comparison loop of `ramfs_lookup_child`. */
  method SameName(a: Name, b: Name) returns (r: bool)
    ensures r <==> a == b
  {
    var i := 0;
    while i < |a| && i < |b| && a[i] == b[i]
      invariant i <= |a| && i <= |b| && a[..i] == b[..i]
    {
      i := i + 1;
    }
    r := i == |a| && i == |b|;
  }

  /** A pointer field of an inode, as `unlink` and `rmdir` address it. */
  datatype Field = ChildrenOf(d: Ptr) | SiblingOf(p: Ptr)

  class Superblock {
    var heap: Heap
    const root: Ptr
    var count: nat
    ghost var kids: map<Ptr, seq<Ptr>>
    ghost var depth: map<Ptr, nat>

    ghost function X(): State
      reads this
    {
      State(Tree(heap, root, kids, depth), count)
    }

    ghost predicate Valid()
      reads this
    {
      StateInv(X())
    }

    /** `ramfs_mount` */
    constructor (root: Ptr)
      requires root != 0
      ensures Valid() && X() == Mounted(root)
    {
      this.root := root;
      heap := map[root := Inode(true, [], 0, 0, 0)];
      count := 1;
      kids, depth := map[root := []], map[root := 0];
      new;
      MountedInv(root);
    }

    /** `ramfs_lookup_child` */
    method LookupChild(d: Ptr, name: Name) returns (child: Ptr)
      requires Valid() && d in heap
      ensures child == At(kids[d], Find(heap, kids[d], name))
      ensures child != 0 <==> HasName(heap, kids[d], name)
    {
      KidsApart(X().f, d);
      FindIs(heap, kids[d], name);
      if !heap[d].dir {
        FileHasNone(X().f, d);
        return 0;
      }
      child := heap[d].children;
      ghost var i := 0;
      while child != 0
        invariant i <= |kids[d]| && child == At(kids[d], i)
        invariant forall j :: 0 <= j < i ==> heap[kids[d][j]].name != name
        decreases |kids[d]| - i
      {
        var same := SameName(heap[child].name, name);
        if same {
          return;
        }
        child := heap[child].sibling;
        i := i + 1;
      }
    }

    /** `ramfs_alloc_inode` followed by `ramfs_add_child` */
    method AddInode(d: Ptr, p: Ptr, name: Name, dir: bool)
      requires d in heap && p !in heap
      modifies this`heap, this`count
      ensures heap == CreateIn(old(heap), d, p, name, dir) && count == old(count) + 1
    {
      ghost var h := heap;
      heap := heap[p := Inode(dir, name, 0, 0, 0)];
      count := count + 1;
      if heap[d].dir {
        heap := heap[p := heap[p].(parent := d)];
        heap := heap[p := heap[p].(sibling := heap[d].children)];
        heap := heap[d := heap[d].(children := p)];
      }
      assert heap == CreateIn(h, d, p, name, dir);
    }

    /** `ramfs_create` and `ramfs_mkdir` */
    method CreateChild(d: Ptr, p: Ptr, name: Name, dir: bool)
      requires Valid() && d in heap && p != 0 && p !in heap
      modifies this
      ensures heap == CreateIn(old(heap), d, p, name, dir) && count == old(count) + 1
      ensures IsTree(heap, root) <==> old(heap[d].dir && !HasName(heap, kids[d], name))
      ensures old(heap[d].dir && !HasName(heap, kids[d], name)) ==>
        Valid() && X() == old(Step(X(), CreateOp(d, p, name, dir)).0)
    {
      hide Rooted, Links, Depths, IsTree, HasName, CreateIn;
      ghost var x := X();
      CreateExactly(x.f, d, p, name, dir);
      if x.f.h[d].dir && !HasName(heap, kids[d], name) {
        StepKeepsInv(x, CreateOp(d, p, name, dir));
      }
      AddInode(d, p, name, dir);
      kids := kids[p := []][d := [p] + kids[d]];
      depth := depth[p := depth[d] + 1];
    }

    /** The first step of `ramfs_rename`: the list is walked up to the target's predecessor. */
    method DetachTarget(d: Ptr, t: Ptr, ghost i: nat)
      requires Valid() && d in heap && i < |kids[d]| && kids[d][i] == t
      requires forall j :: 0 <= j < |kids[d]| ==> kids[d][j] in heap
      modifies this`heap
      ensures heap == Detach(old(heap), d, old(kids[d]), i)
    {
      KidsApart(X().f, d);
      if heap[d].children == t {
        assert i == 0;
        heap := heap[d := heap[d].(children := heap[t].sibling)];
      } else {
        var curr := heap[d].children;
        ghost var j := 0;
        while curr != 0 && heap[curr].sibling != t
          invariant j < i && curr == kids[d][j]
          decreases i - j
        {
          curr := heap[curr].sibling;
          j := j + 1;
        }
        assert j == i - 1;
        if curr != 0 {
          heap := heap[curr := heap[curr].(sibling := heap[t].sibling)];
        }
      }
    }

    function Load(q: Field): Ptr
      requires (if q.ChildrenOf? then q.d else q.p) in heap
      reads this
    {
      if q.ChildrenOf? then heap[q.d].children else heap[q.p].sibling
    }

    /** The removal loop of `ramfs_unlink` and `ramfs_rmdir`, over addresses of pointer fields. */
    method UnlinkTarget(d: Ptr, t: Ptr, ghost i: nat)
      requires Valid() && d in heap && i < |kids[d]| && kids[d][i] == t
      requires forall j :: 0 <= j < |kids[d]| ==> kids[d][j] in heap
      modifies this`heap
      ensures heap == Detach(old(heap), d, old(kids[d]), i)
    {
      KidsApart(X().f, d);
      ghost var h := heap;
      var prev := ChildrenOf(d);
      ghost var j := 0;
      while Load(prev) != 0
        invariant heap == h && j <= i
        invariant prev == if j == 0 then ChildrenOf(d) else SiblingOf(kids[d][j - 1])
        invariant Load(prev) == kids[d][j]
        decreases i - j
      {
        var cur := Load(prev);
        assert cur == kids[d][j] && heap[cur].sibling == At(kids[d], j + 1);
        if cur == t {
          var next := heap[t].sibling;
          match prev {
            case ChildrenOf(q) => heap := heap[q := heap[q].(children := next)];
            case SiblingOf(q) => heap := heap[q := heap[q].(sibling := next)];
          }
          return;
        }
        prev := SiblingOf(cur);
        j := j + 1;
      }
    }

    /** `ramfs_free_inode`, with the unlinking before it. */
    method RemoveTarget(d: Ptr, t: Ptr, ghost i: nat)
      requires Valid() && d in heap && i < |kids[d]| && kids[d][i] == t && t in kids && kids[t] == []
      requires forall j :: 0 <= j < |kids[d]| ==> kids[d][j] in heap
      modifies this
      ensures Valid() && old(count) > 0 && X() == old(RemoveAt(X(), d, i))
    {
      hide Detach, Rooted, Links, Depths;
      ghost var x := X();
      StateFacts(x, d);
      RemoveKeepsInv(x.f, d, i);
      UnlinkTarget(d, t, i);
      count := count - 1;
      heap := heap - {t};
      kids := kids[d := Without(kids[d], i)] - {t};
      depth := depth - {t};
    }

    /** `ramfs_unlink` */
    method Unlink(d: Ptr, name: Name) returns (r: Status)
      requires Valid() && d in heap
      modifies this
      ensures Valid() && (X(), r) == old(Step(X(), UnlinkOp(d, name)))
    {
      hide Rooted, Links, Depths, Remove;
      StateFacts(X(), d);
      KidsAlive(X().f, d);
      ghost var i := Find(heap, kids[d], name);
      var t := LookupChild(d, name);
      if t == 0 { return NoEntry; }
      if heap[t].dir { return IsDirectory; }
      FileHasNone(X().f, t);
      RemoveTarget(d, t, i);
      return Success;
    }

    /** `ramfs_rmdir` */
    method Rmdir(d: Ptr, name: Name) returns (r: Status)
      requires Valid() && d in heap
      modifies this
      ensures Valid() && (X(), r) == old(Step(X(), RmdirOp(d, name)))
    {
      hide Rooted, Links, Depths, Remove;
      StateFacts(X(), d);
      KidsAlive(X().f, d);
      ghost var i := Find(heap, kids[d], name);
      var t := LookupChild(d, name);
      if t == 0 { return NoEntry; }
      if !heap[t].dir { return NotDirectory; }
      if heap[t].children != 0 { return NotEmpty; }
      NoChildren(X().f, t);
      RemoveTarget(d, t, i);
      return Success;
    }

    /** The second and third step of `ramfs_rename`. */
    method AttachTarget(from: Ptr, t: Ptr, to: Ptr, name: Name)
      requires t in heap && from in heap && to in heap && t != from && heap[t].parent == from
      modifies this`heap
      ensures heap == Attach(old(heap), t, to, name)
    {
      ghost var h := heap;
      if from != to {
        heap := heap[t := heap[t].(sibling := heap[to].children)];
        heap := heap[to := heap[to].(children := t)];
        heap := heap[t := heap[t].(parent := to)];
      } else {
        heap := heap[t := heap[t].(sibling := heap[from].children)];
        heap := heap[from := heap[from].(children := t)];
      }
      heap := heap[t := heap[t].(name := name)];
      assert heap == Attach(h, t, to, name);
    }

    /** The three steps of `ramfs_rename` once the name is known to be free. */
    method MoveChild(from: Ptr, t: Ptr, to: Ptr, name: Name, ghost i: nat)
      requires Valid() && from in heap && to in heap && i < |kids[from]| && kids[from][i] == t
      requires forall j :: 0 <= j < |kids[from]| ==> kids[from][j] in heap
      modifies this`heap
      ensures heap == Rename(old(X().f), from, i, to, name).h
    {
      hide Rooted, Links, Depths, Detach, Attach, Shifted, Below;
      ghost var f := X().f;
      KidsApart(f, from);
      KidsParent(f, from);
      DetachTarget(from, t, i);
      DetachKeeps(f.h, from, f.kids[from], i);
      AttachTarget(from, t, to, name);
    }

    /**
     * `ramfs_rename` of a member of `from`: refused if the name exists in `to`; otherwise the inode is
     * moved whatever `to` is, and the heap is still a tree exactly when the guard holds.
     */
    method RenameChild(from: Ptr, t: Ptr, to: Ptr, name: Name) returns (r: Status)
      requires Valid() && from in heap && t in kids[from] && to in heap
      modifies this
      ensures count == old(count) && (r == Exists || r == Success)
      ensures r == Exists <==> old(HasName(heap, kids[to], name))
      ensures r == Exists ==> Valid() && X() == old(X())
      ensures old(forall j :: 0 <= j < |kids[from]| ==> kids[from][j] in heap)
      ensures r == Success ==> heap == old(Rename(X().f, from, IndexOf(kids[from], t), to, name).h)
      ensures r == Success ==>
        && (IsTree(heap, root) <==> old(heap[to].dir && !Below(X().f, t, to)))
        && (old(heap[to].dir && !Below(X().f, t, to)) ==> Valid())
      ensures old(t in heap && heap[to].dir && !Below(X().f, t, to)) ==>
        (X(), r) == old(Step(X(), RenameOp(from, t, to, name)))
    {
      hide Rooted, Links, Depths, Detach, Attach, Shifted, Below, IsTree, HasName, Without;
      ghost var x := X();
      StateFacts(x, from);
      KidsAlive(x.f, to);
      var found := LookupChild(to, name);
      FindIs(heap, kids[to], name);
      if found != 0 { return Exists; }
      ghost var i := IndexOf(kids[from], t);
      RenameExactly(x.f, from, i, to, name);
      RenameCounts(x.f, from, i, to, name);
      MoveChild(from, t, to, name, i);
      ghost var left := kids[from := Without(kids[from], i)];
      kids := left[to := [t] + left[to]];
      depth := Shifted(x.f, t, to);
      return Success;
    }
  }

  lemma KidsAlive(f: Tree, d: Ptr)
    requires Inv(f) && d in f.h
    ensures forall i :: 0 <= i < |f.kids[d]| ==> f.kids[d][i] in f.h && f.kids[d][i] != 0
  {
  }

  lemma FindIs(h: Heap, s: seq<Ptr>, name: Name)
    requires forall i :: 0 <= i < |s| ==> s[i] in h
    ensures HasName(h, s, name) <==> Find(h, s, name) < |s|
    ensures forall k :: 0 <= k < |s| && h[s[k]].name == name && (forall j :: 0 <= j < k ==> h[s[j]].name != name) ==>
      Find(h, s, name) == k
  {
  }

  /** A regular file's contents. Bytes of the buffer that no write has reached may be anything. */
  class FileData {
    var data: array?<byte>
    var size: nat

    ghost predicate Valid()
      reads this
    {
      if data == null then size == 0 else size <= data.Length
    }

    function Capacity(): nat
      reads this
    {
      if data == null then 0 else data.Length
    }

    /** What can be read. */
    function Contents(): seq<byte>
      requires Valid()
      reads this, data
    {
      if data == null then [] else data[..size]
    }

    constructor ()
      ensures Valid() && Contents() == [] && data == null
    {
      data, size := null, 0;
    }

    /** `ramfs_read` */
    method Read(buf: array<byte>, count: nat, pos: nat) returns (n: nat)
      requires Valid() && buf.Length >= count && buf != data
      modifies buf
      ensures n == if pos >= size then 0 else if count < size - pos then count else size - pos
      ensures buf[..n] == if pos >= size then [] else Contents()[pos..pos + n]
      ensures buf[n..] == old(buf[n..])
    {
      if data == null || pos >= size {
        return 0;
      }
      var available := size - pos;
      n := if count < available then count else available;
      for i := 0 to n
        invariant buf[..i] == data[pos..pos + i]
        invariant buf[n..] == old(buf[n..])
        invariant data[..] == old(data[..])
      {
        ghost var before := buf[..i];
        buf[i] := data[pos + i];
        assert buf[..i + 1] == before + [data[pos + i]];
      }
      assert data[..size][pos..pos + n] == data[pos..pos + n];
    }

    /** The larger buffer: the contents move, whatever else the new memory holds. */
    method Enlarge(capacity: nat, memory: array<byte>)
      requires Valid() && memory.Length == capacity && capacity > Capacity() && memory != data
      modifies this`data, memory
      ensures Valid() && Contents() == old(Contents()) && data == memory && size == old(size)
    {
      if data != null {
        for i := 0 to size
          invariant data == old(data) && data != null && Valid() && data[..] == old(data[..])
          invariant forall j :: 0 <= j < i ==> memory[j] == data[j]
        {
          memory[i] := data[i];
        }
      }
      data := memory;
    }

    /** The copying loop of `ramfs_write`. */
    method Store(buf: array<byte>, count: nat, pos: nat)
      requires data != null && pos + count <= data.Length && buf.Length >= count && buf != data
      modifies data
      ensures data[..] == Splice(old(data[..]), pos, buf[..count])
    {
      for i := 0 to count
        invariant buf[..] == old(buf[..])
        invariant forall j :: 0 <= j < data.Length ==> data[j] == if pos <= j < pos + i then buf[j - pos] else old(data[j])
      {
        data[pos + i] := buf[i];
      }
    }

    /** `ramfs_write`; `memory` is what the allocator hands out, if it is asked. */
    method Write(buf: array<byte>, count: nat, pos: nat, memory: array<byte>) returns (n: nat)
      requires Valid() && buf.Length >= count && buf != data && memory != data && memory != buf
      requires memory.Length == (pos + count + 4095) / 4096 * 4096
      modifies this, data, memory
      ensures Valid() && n == count && size == if pos + count > old(size) then pos + count else old(size)
      ensures Contents()[pos..pos + count] == buf[..count] == old(buf[..count])
      ensures forall j :: 0 <= j < old(size) && !(pos <= j < pos + count) ==> Contents()[j] == old(Contents())[j]
    {
      ghost var was := Contents();
      if pos + count > Capacity() {
        Enlarge((pos + count + 4095) / 4096 * 4096, memory);
      }
      assert Contents() == was;
      if data != null {
        ghost var before := data[..];
        assert forall j :: 0 <= j < size ==> before[j] == was[j];
        Store(buf, count, pos);
        assert data[..][pos..pos + count] == buf[..count];
      }
      n := count;
      if pos + count > size {
        size := pos + count;
      }
      assert data != null ==> data[..size][pos..pos + count] == data[..][pos..pos + count];
    }
  }
}
