/**
 * The RAM file system's tree: inodes linked in first-child, next-sibling lists with parent pointers.
 * Memory is a map from addresses to inodes, so that each pointer store of the code is a map update.
 */
module Ramfs {
  import opened Bytes

  type Ptr = nat

  /** A C string of at most 255 characters, so that copying it never cuts it. */
  type Name = s: seq<byte> | |s| <= 255 && 0 !in s

  datatype Inode = Inode(dir: bool, name: Name, parent: Ptr, children: Ptr, sibling: Ptr)

  type Heap = map<Ptr, Inode>

  /** A heap with what the proofs know of it: every child list, and every inode's distance from the root. */
  datatype Tree = Tree(h: Heap, root: Ptr, kids: map<Ptr, seq<Ptr>>, depth: map<Ptr, nat>)

  // The invariant

  /** The element at `i`, or the null pointer behind the end. */
  function At(s: seq<Ptr>, i: nat): Ptr { if i < |s| then s[i] else 0 }

  /** The list of children of `d` is `s`. */
  predicate Linked(h: Heap, d: Ptr, s: seq<Ptr>) {
    && d in h && h[d].children == At(s, 0)
    && (forall i :: 0 <= i < |s| ==> s[i] in h)
    && forall i {:trigger h[s[i]].sibling} :: 0 <= i < |s| ==> h[s[i]].sibling == At(s, i + 1)
  }

  ghost predicate Keyed(f: Tree) {
    f.kids.Keys == f.h.Keys && f.depth.Keys == f.h.Keys && f.root in f.h && 0 !in f.h
  }

  ghost predicate Rooted(f: Tree)
    requires Keyed(f)
  {
    f.h[f.root].dir && f.h[f.root].parent == 0 && f.h[f.root].sibling == 0 && f.depth[f.root] == 0
  }

  ghost predicate Lists(f: Tree)
    requires Keyed(f)
  {
    forall d {:trigger Linked(f.h, d, f.kids[d])} :: d in f.h ==> Linked(f.h, d, f.kids[d])
  }

  /** The members of a list name its directory as their parent. */
  ghost predicate Parents(f: Tree)
    requires Keyed(f)
  {
    forall d, i {:trigger f.kids[d][i]} :: d in f.h && 0 <= i < |f.kids[d]| ==>
      f.kids[d][i] in f.h && f.h[f.kids[d][i]].parent == d
  }

  /** Every inode but the root is in the list of its parent. */
  ghost predicate Listed(f: Tree)
    requires Keyed(f)
  {
    forall n {:trigger f.h[n].parent} :: n in f.h && n != f.root ==> f.h[n].parent in f.h && n in f.kids[f.h[n].parent]
  }

  ghost predicate Files(f: Tree)
    requires Keyed(f)
  {
    forall d {:trigger f.h[d].dir} :: d in f.h && !f.h[d].dir ==> f.kids[d] == []
  }

  predicate NamesDiffer(h: Heap, s: seq<Ptr>) {
    forall i, j :: 0 <= i < j < |s| && s[i] in h && s[j] in h ==> h[s[i]].name != h[s[j]].name
  }

  ghost predicate Unique(f: Tree)
    requires Keyed(f)
  {
    forall d {:trigger NamesDiffer(f.h, f.kids[d])} :: d in f.h ==> NamesDiffer(f.h, f.kids[d])
  }

  ghost predicate Depths(f: Tree)
    requires Keyed(f)
  {
    forall n {:trigger f.h[n].parent} :: n in f.h && n != f.root ==>
      f.h[n].parent in f.h && f.depth[n] == f.depth[f.h[n].parent] + 1
  }

  ghost predicate Links(f: Tree)
    requires Keyed(f)
  {
    Lists(f) && Parents(f) && Listed(f) && Files(f) && Unique(f)
  }

  /** A finite tree: acyclic, each inode in one list, siblings' names unique. */
  ghost predicate Inv(f: Tree) { Keyed(f) && Rooted(f) && Links(f) && Depths(f) }

  // What it means

  /** An inode is in exactly one child list, once: the one its parent pointer names. */
  lemma InOneList(f: Tree, n: Ptr, d: Ptr)
    requires Inv(f) && n in f.h && d in f.h
    ensures n in f.kids[d] <==> n != f.root && f.h[n].parent == d
    ensures forall i, j :: 0 <= i < j < |f.kids[d]| ==> f.kids[d][i] != f.kids[d][j]
  {
    if n in f.kids[d] {
      var i :| 0 <= i < |f.kids[d]| && f.kids[d][i] == n;
    }
    assert NamesDiffer(f.h, f.kids[d]);
  }

  predicate Next(h: Heap, m: Ptr, n: Ptr) { m in h && n != 0 && (h[m].children == n || h[m].sibling == n) }

  /** The path follows child and sibling pointers from the root to `n`. */
  predicate Path(h: Heap, root: Ptr, n: Ptr, path: seq<Ptr>) {
    && path != [] && path[0] == root && path[|path| - 1] == n
    && forall i :: 0 <= i < |path| - 1 ==> Next(h, path[i], path[i + 1])
  }

  ghost predicate Reachable(h: Heap, root: Ptr, n: Ptr) { exists path :: Path(h, root, n, path) }

  /** Pointers never leave the allocated inodes. */
  lemma NextIsThere(f: Tree, m: Ptr, n: Ptr)
    requires Inv(f) && Next(f.h, m, n)
    ensures n in f.h
  {
    if f.h[m].children == n {
      assert Linked(f.h, m, f.kids[m]);
    } else {
      var d := f.h[m].parent;
      var i :| 0 <= i < |f.kids[d]| && f.kids[d][i] == m;
      assert Linked(f.h, d, f.kids[d]);
    }
  }

  lemma {:induction false} PathIsThere(f: Tree, n: Ptr, path: seq<Ptr>)
    requires Inv(f) && Path(f.h, f.root, n, path)
    ensures n in f.h
    decreases |path|
  {
    var k := |path| - 1;
    if k > 0 {
      PathIsThere(f, path[k - 1], path[..k]);
      NextIsThere(f, path[k - 1], path[k]);
    }
  }

  lemma Extend(h: Heap, root: Ptr, m: Ptr, n: Ptr)
    requires Reachable(h, root, m) && Next(h, m, n)
    ensures Reachable(h, root, n)
  {
    var path :| Path(h, root, m, path);
    assert Path(h, root, n, path + [n]);
  }

  /** A directory's list is reached element by element. */
  lemma {:induction false} ListIsReached(f: Tree, d: Ptr, i: nat)
    requires Inv(f) && d in f.h && Reachable(f.h, f.root, d) && i < |f.kids[d]|
    ensures Reachable(f.h, f.root, f.kids[d][i])
    decreases i
  {
    assert Linked(f.h, d, f.kids[d]);
    var n := f.kids[d][i];
    if i == 0 {
      Extend(f.h, f.root, d, n);
    } else {
      ListIsReached(f, d, i - 1);
      Extend(f.h, f.root, f.kids[d][i - 1], n);
    }
  }

  lemma {:induction false} InodeIsReached(f: Tree, n: Ptr)
    requires Inv(f) && n in f.h
    ensures Reachable(f.h, f.root, n)
    decreases f.depth[n]
  {
    if n == f.root {
      assert Path(f.h, f.root, n, [n]);
    } else {
      var d := f.h[n].parent;
      InodeIsReached(f, d);
      var i :| 0 <= i < |f.kids[d]| && f.kids[d][i] == n;
      ListIsReached(f, d, i);
    }
  }

  /** Exactly the allocated inodes are reachable: nothing leaks and nothing dangles. */
  lemma ReachableIsAllocated(f: Tree)
    requires Inv(f)
    ensures forall n :: Reachable(f.h, f.root, n) <==> n in f.h
  {
    forall n ensures Reachable(f.h, f.root, n) <==> n in f.h {
      if n in f.h {
        InodeIsReached(f, n);
      } else if Reachable(f.h, f.root, n) {
        var path :| Path(f.h, f.root, n, path);
        PathIsThere(f, n, path);
      }
    }
  }

  /** `n` is `t`, or comes to `t` by at most `k` parent pointers. */
  predicate Under(h: Heap, t: Ptr, n: Ptr, k: nat)
    decreases k
  {
    n == t || (k > 0 && n in h && Under(h, t, h[n].parent, k - 1))
  }

  /** `n` is in the subtree of `t`. */
  predicate Below(f: Tree, t: Ptr, n: Ptr)
    requires n in f.depth
  {
    Under(f.h, t, n, f.depth[n])
  }

  // The operations on the heap

  /** The index of the first inode of that name, or the length. */
  function Find(h: Heap, s: seq<Ptr>, name: Name): (i: nat)
    ensures i <= |s|
    ensures i < |s| ==> s[i] in h && h[s[i]].name == name
    ensures forall j :: 0 <= j < i && s[j] in h ==> h[s[j]].name != name
  {
    if s == [] then 0
    else if s[0] in h && h[s[0]].name == name then 0
    else
      var r := Find(h, s[1..], name);
      assert forall j :: 0 < j <= r && j < |s| ==> s[j] == s[1..][j - 1];
      r + 1
  }

  predicate HasName(h: Heap, s: seq<Ptr>, name: Name) {
    exists i :: 0 <= i < |s| && s[i] in h && h[s[i]].name == name
  }

  function Without(s: seq<Ptr>, i: nat): (r: seq<Ptr>)
    requires i < |s|
    ensures |r| == |s| - 1
    ensures forall j :: 0 <= j < |r| ==> r[j] == if j < i then s[j] else s[j + 1]
  {
    s[..i] + s[i + 1..]
  }

  /** The inode that `ramfs_alloc_inode` and, in a directory, `ramfs_add_child` leave. */
  function CreateIn(h: Heap, d: Ptr, p: Ptr, name: Name, dir: bool): Heap
    requires d in h
  {
    if !h[d].dir then h[p := Inode(dir, name, 0, 0, 0)]
    else h[p := Inode(dir, name, d, 0, h[d].children)][d := h[d].(children := p)]
  }

  function Create(f: Tree, d: Ptr, p: Ptr, name: Name, dir: bool): Tree
    requires d in f.h && d in f.kids && d in f.depth
  {
    Tree(CreateIn(f.h, d, p, name, dir), f.root,
         f.kids[p := []][d := [p] + f.kids[d]],
         f.depth[p := f.depth[d] + 1])
  }

  /** Taking member `i` out of a list: its predecessor, or the directory, is linked to its successor. */
  function Detach(h: Heap, d: Ptr, s: seq<Ptr>, i: nat): Heap
    requires d in h && i < |s| && forall j :: 0 <= j < |s| ==> s[j] in h
  {
    var next := h[s[i]].sibling;
    if i == 0 then h[d := h[d].(children := next)] else h[s[i - 1] := h[s[i - 1]].(sibling := next)]
  }

  function RemoveIn(h: Heap, d: Ptr, s: seq<Ptr>, i: nat): Heap
    requires d in h && i < |s| && forall j :: 0 <= j < |s| ==> s[j] in h
  {
    Detach(h, d, s, i) - {s[i]}
  }

  function Remove(f: Tree, d: Ptr, i: nat): Tree
    requires d in f.h && d in f.kids && i < |f.kids[d]| && forall j :: 0 <= j < |f.kids[d]| ==> f.kids[d][j] in f.h
  {
    var t := f.kids[d][i];
    Tree(RemoveIn(f.h, d, f.kids[d], i), f.root, f.kids[d := Without(f.kids[d], i)] - {t}, f.depth - {t})
  }

  /** Linking a detached inode at the head of a directory's list, under a new name. */
  function Attach(h: Heap, t: Ptr, d: Ptr, name: Name): Heap
    requires t in h && d in h
  {
    var g := h[t := h[t].(sibling := h[d].children, parent := d, name := name)];
    g[d := g[d].(children := t)]
  }

  /** The depths after moving the subtree of `t` below `d`. */
  function Shifted(f: Tree, t: Ptr, d: Ptr): map<Ptr, nat>
    requires t in f.depth && d in f.depth
  {
    map n | n in f.depth ::
      if Below(f, t, n) && f.depth[n] >= f.depth[t] then f.depth[n] - f.depth[t] + f.depth[d] + 1 else f.depth[n]
  }

  function Rename(f: Tree, from: Ptr, i: nat, to: Ptr, name: Name): Tree
    requires f.kids.Keys == f.h.Keys == f.depth.Keys && from in f.h && to in f.h
    requires i < |f.kids[from]| && forall j :: 0 <= j < |f.kids[from]| ==> f.kids[from][j] in f.h
  {
    var t := f.kids[from][i];
    var left := f.kids[from := Without(f.kids[from], i)];
    Tree(Attach(Detach(f.h, from, f.kids[from], i), t, to, name), f.root, left[to := [t] + left[to]], Shifted(f, t, to))
  }

  // Lists under pointer stores

  /** A list stays as long as its own pointers do. */
  lemma LinkedFrame(h: Heap, g: Heap, d: Ptr, s: seq<Ptr>)
    requires Linked(h, d, s) && d in g && g[d].children == h[d].children
    requires forall i :: 0 <= i < |s| ==> s[i] in g && g[s[i]].sibling == h[s[i]].sibling
    ensures Linked(g, d, s)
  {
  }

  lemma LinkedPush(h: Heap, g: Heap, d: Ptr, p: Ptr, s: seq<Ptr>)
    requires Linked(h, d, s) && d in g && p in g && g[d].children == p && g[p].sibling == h[d].children
    requires forall i :: 0 <= i < |s| ==> s[i] in g && g[s[i]].sibling == h[s[i]].sibling
    ensures Linked(g, d, [p] + s)
  {
    var r := [p] + s;
    forall i | 0 <= i < |r| ensures r[i] in g && g[r[i]].sibling == At(r, i + 1) {
      assert i > 0 ==> r[i] == s[i - 1];
    }
  }

  lemma LinkedDetach(h: Heap, d: Ptr, s: seq<Ptr>, i: nat)
    requires Linked(h, d, s) && i < |s| && d !in s
    requires forall j, k :: 0 <= j < k < |s| ==> s[j] != s[k]
    ensures Linked(Detach(h, d, s, i), d, Without(s, i))
  {
    var g, r := Detach(h, d, s, i), Without(s, i);
    forall j | 0 <= j < |r| ensures r[j] in g && g[r[j]].sibling == At(r, j + 1) {
      var k := if j < i then j else j + 1;
      assert r[j] == s[k] && h[s[k]].sibling == At(s, k + 1);
      assert h[s[i]].sibling == At(s, i + 1);
    }
  }

  lemma KidsParent(f: Tree, d: Ptr)
    requires Inv(f) && d in f.h
    ensures forall n :: n in f.kids[d] ==> n in f.h && n != f.root && f.h[n].parent == d
  {
    hide Linked, NamesDiffer, Lists, Unique, Files, Listed, Depths;
    forall n | n in f.kids[d] ensures n in f.h && n != f.root && f.h[n].parent == d {
      var i :| 0 <= i < |f.kids[d]| && f.kids[d][i] == n;
    }
  }

  lemma KidsApart(f: Tree, d: Ptr)
    requires Inv(f) && d in f.h
    ensures Linked(f.h, d, f.kids[d]) && d !in f.kids[d] && f.root !in f.kids[d]
    ensures forall i, j :: 0 <= i < j < |f.kids[d]| ==> f.kids[d][i] != f.kids[d][j]
    ensures forall e, i :: e in f.h && e != d && 0 <= i < |f.kids[e]| ==> f.kids[e][i] !in f.kids[d]
  {
    hide Files, Listed;
    KidsParent(f, d);
    assert NamesDiffer(f.h, f.kids[d]);
  }

  /** The child lists with member `i` of the list of `d` taken out. */
  function Left(f: Tree, d: Ptr, i: nat): map<Ptr, seq<Ptr>>
    requires d in f.kids && i < |f.kids[d]|
  {
    f.kids[d := Without(f.kids[d], i)]
  }

  lemma DetachOther(f: Tree, d: Ptr, i: nat, e: Ptr)
    requires Inv(f) && d in f.h && i < |f.kids[d]| && e in f.h && e != d
    requires forall j :: 0 <= j < |f.kids[d]| ==> f.kids[d][j] in f.h
    ensures Linked(Detach(f.h, d, f.kids[d], i), e, f.kids[e]) && f.kids[d][i] !in f.kids[e]
  {
    hide NamesDiffer, Linked;
    KidsApart(f, d);
    KidsApart(f, e);
    LinkedFrame(f.h, Detach(f.h, d, f.kids[d], i), e, f.kids[e]);
  }

  /** Detaching takes one inode out of one list and changes no other list. */
  lemma DetachLists(f: Tree, d: Ptr, i: nat)
    requires Inv(f) && d in f.h && i < |f.kids[d]|
    ensures forall j :: 0 <= j < |f.kids[d]| ==> f.kids[d][j] in f.h
    ensures
      var m, left, t := Detach(f.h, d, f.kids[d], i), Left(f, d, i), f.kids[d][i];
      && (forall e {:trigger Linked(m, e, left[e])} :: e in f.h ==> Linked(m, e, left[e]))
      && forall e {:trigger left[e]} :: e in f.h ==> t !in left[e]
  {
    hide Detach, NamesDiffer, Linked, Lists, Listed, Files, Unique, Depths, Rooted;
    KidsApart(f, d);
    var m, left, t := Detach(f.h, d, f.kids[d], i), Left(f, d, i), f.kids[d][i];
    forall e | e in f.h ensures Linked(m, e, left[e]) && t !in left[e] {
      if e == d {
        LinkedDetach(f.h, d, f.kids[d], i);
      } else {
        DetachOther(f, d, i, e);
      }
    }
  }

  /** Detaching stores to list pointers only. */
  lemma DetachKeeps(h: Heap, d: Ptr, s: seq<Ptr>, i: nat)
    requires d in h && i < |s| && forall j :: 0 <= j < |s| ==> s[j] in h
    ensures
      var m := Detach(h, d, s, i);
      m.Keys == h.Keys && forall e :: e in h ==> m[e] == h[e].(children := m[e].children, sibling := m[e].sibling)
  {
  }

  // Creation

  lemma CreateLinks(f: Tree, d: Ptr, p: Ptr, name: Name, dir: bool)
    requires Inv(f) && d in f.h && f.h[d].dir && p != 0 && p !in f.h
    ensures
      var g := Create(f, d, p, name, dir);
      Keyed(g) && Rooted(g) && Parents(g) && Files(g) && Depths(g)
  {
  }

  lemma CreateLists(f: Tree, d: Ptr, p: Ptr, name: Name, dir: bool)
    requires Inv(f) && d in f.h && f.h[d].dir && p != 0 && p !in f.h
    ensures
      var g := Create(f, d, p, name, dir);
      Keyed(g) && Lists(g)
  {
    hide Linked, NamesDiffer, Listed, Unique, Depths, Files, CreateIn;
    var g := Create(f, d, p, name, dir);
    CreateStores(f.h, d, p, name, dir);
    assert Linked(g.h, p, []) by { EmptyLinked(g.h, p); }
    forall e | e in f.h ensures Linked(g.h, e, g.kids[e]) {
      KidsApart(f, e);
      if e == d {
        LinkedPush(f.h, g.h, d, p, f.kids[d]);
      } else {
        LinkedFrame(f.h, g.h, e, f.kids[e]);
      }
    }
  }

  lemma EmptyLinked(h: Heap, p: Ptr)
    requires p in h && h[p].children == 0
    ensures Linked(h, p, [])
  {
  }

  lemma CreateStores(h: Heap, d: Ptr, p: Ptr, name: Name, dir: bool)
    requires d in h && h[d].dir && p !in h
    ensures
      var g := CreateIn(h, d, p, name, dir);
      && g.Keys == h.Keys + {p} && g[p] == Inode(dir, name, d, 0, h[d].children)
      && forall e :: e in h ==> g[e] == if e == d then h[d].(children := p) else h[e]
  {
  }

  lemma CreateListed(f: Tree, d: Ptr, p: Ptr, name: Name, dir: bool)
    requires Inv(f) && d in f.h && f.h[d].dir && p != 0 && p !in f.h
    ensures
      var g := Create(f, d, p, name, dir);
      Keyed(g) && Listed(g)
  {
    hide Linked, NamesDiffer, Lists, Unique, Depths, Files;
    var g := Create(f, d, p, name, dir);
    forall n | n in g.h && n != g.root ensures g.h[n].parent in g.h && n in g.kids[g.h[n].parent] {
      if n != p {
        assert n in f.kids[f.h[n].parent];
      }
    }
  }

  lemma CreateUnique(f: Tree, d: Ptr, p: Ptr, name: Name, dir: bool)
    requires Inv(f) && d in f.h && f.h[d].dir && p != 0 && p !in f.h && !HasName(f.h, f.kids[d], name)
    ensures
      var g := Create(f, d, p, name, dir);
      Keyed(g) && Unique(g)
  {
    hide Linked, Lists, Listed, Depths, Files;
    var g := Create(f, d, p, name, dir);
    forall e | e in g.h ensures NamesDiffer(g.h, g.kids[e]) {
      if e != p {
        assert NamesDiffer(f.h, f.kids[e]);
      }
    }
  }

  /** The heap is a tree for some child lists and depths. */
  ghost predicate IsTree(h: Heap, root: Ptr) {
    exists kids, depth :: Inv(Tree(h, root, kids, depth))
  }

  lemma TreeOf(f: Tree)
    requires Inv(f)
    ensures IsTree(f.h, f.root)
  {
    assert f == Tree(f.h, f.root, f.kids, f.depth);
  }

  /** Creation leaves a tree if and only if the parent is a directory and has no child of that name. */
  lemma CreateExactly(f: Tree, d: Ptr, p: Ptr, name: Name, dir: bool)
    requires Inv(f) && d in f.h && p != 0 && p !in f.h
    ensures IsTree(CreateIn(f.h, d, p, name, dir), f.root) <==> f.h[d].dir && !HasName(f.h, f.kids[d], name)
    ensures f.h[d].dir && !HasName(f.h, f.kids[d], name) ==> Inv(Create(f, d, p, name, dir))
  {
    var h := CreateIn(f.h, d, p, name, dir);
    if f.h[d].dir && !HasName(f.h, f.kids[d], name) {
      CreateLinks(f, d, p, name, dir);
      CreateLists(f, d, p, name, dir);
      CreateListed(f, d, p, name, dir);
      CreateUnique(f, d, p, name, dir);
      TreeOf(Create(f, d, p, name, dir));
    } else if IsTree(h, f.root) {
      var kids, depth :| Inv(Tree(h, f.root, kids, depth));
      CreateSpoils(f, d, p, name, dir, Tree(h, f.root, kids, depth));
    }
  }

  lemma CreateSpoils(f: Tree, d: Ptr, p: Ptr, name: Name, dir: bool, g: Tree)
    requires Inv(f) && d in f.h && p != 0 && p !in f.h && Inv(g)
    requires g.h == CreateIn(f.h, d, p, name, dir) && g.root == f.root
    ensures f.h[d].dir && !HasName(f.h, f.kids[d], name)
  {
    assert g.h[p].parent in g.h;
    if i :| 0 <= i < |f.kids[d]| && f.kids[d][i] in f.h && f.h[f.kids[d][i]].name == name {
      KidsApart(f, d);
      SameNameSame(g, d, f.kids[d][i], p);
    }
  }

  /** Two inodes of one parent with one name are one inode. */
  lemma SameNameSame(f: Tree, d: Ptr, a: Ptr, b: Ptr)
    requires Inv(f) && a in f.h && b in f.h && a != f.root && b != f.root && f.h[a].parent == f.h[b].parent == d
    requires f.h[a].name == f.h[b].name
    ensures a == b
  {
    var i :| 0 <= i < |f.kids[d]| && f.kids[d][i] == a;
    var j :| 0 <= j < |f.kids[d]| && f.kids[d][j] == b;
    assert NamesDiffer(f.h, f.kids[d]);
  }

  // Removal

  lemma RemoveShape(f: Tree, d: Ptr, i: nat)
    requires Inv(f) && d in f.h && i < |f.kids[d]| && f.kids[f.kids[d][i]] == []
    requires forall j :: 0 <= j < |f.kids[d]| ==> f.kids[d][j] in f.h
    ensures
      var g := Remove(f, d, i);
      Keyed(g) && Rooted(g) && Files(g)
  {
    hide Detach, Linked, NamesDiffer, Unique, Lists, Listed, Depths;
    KidsApart(f, d);
    DetachKeeps(f.h, d, f.kids[d], i);
    RemoveRooted(f, d, i);
  }

  lemma RemoveLinks(f: Tree, d: Ptr, i: nat)
    requires Inv(f) && d in f.h && i < |f.kids[d]| && f.kids[f.kids[d][i]] == []
    requires forall j :: 0 <= j < |f.kids[d]| ==> f.kids[d][j] in f.h
    ensures
      var g := Remove(f, d, i);
      Keyed(g) && Parents(g) && Depths(g)
  {
    hide Detach, Linked, NamesDiffer, Unique, Lists, Files, Rooted;
    RemoveShape(f, d, i);
    var g, t := Remove(f, d, i), f.kids[d][i];
    DetachKeeps(f.h, d, f.kids[d], i);
    DetachLists(f, d, i);
    forall e, j | e in g.h && 0 <= j < |g.kids[e]| ensures g.kids[e][j] in g.h && g.h[g.kids[e][j]].parent == e {
      assert g.kids[e] == Left(f, d, i)[e];
    }
    forall n | n in g.h && n != g.root ensures g.h[n].parent in g.h && g.depth[n] == g.depth[g.h[n].parent] + 1 {
      assert n in f.kids[f.h[n].parent];
    }
  }

  /** No list operation stores to the root's own place. */
  lemma RemoveRooted(f: Tree, d: Ptr, i: nat)
    requires Inv(f) && d in f.h && i < |f.kids[d]|
    requires forall j :: 0 <= j < |f.kids[d]| ==> f.kids[d][j] in f.h
    ensures f.root in Detach(f.h, d, f.kids[d], i) && Detach(f.h, d, f.kids[d], i)[f.root].sibling == 0
  {
    KidsApart(f, d);
  }

  lemma RemoveLists(f: Tree, d: Ptr, i: nat)
    requires Inv(f) && d in f.h && i < |f.kids[d]| && f.kids[f.kids[d][i]] == []
    requires forall j :: 0 <= j < |f.kids[d]| ==> f.kids[d][j] in f.h
    ensures
      var g := Remove(f, d, i);
      Keyed(g) && Lists(g) && Listed(g)
  {
    hide Detach, Linked, NamesDiffer, Unique;
    var g, t, m := Remove(f, d, i), f.kids[d][i], Detach(f.h, d, f.kids[d], i);
    RemoveLinks(f, d, i);
    DetachKeeps(f.h, d, f.kids[d], i);
    DetachLists(f, d, i);
    forall e | e in g.h ensures Linked(g.h, e, g.kids[e]) {
      assert g.kids[e] == Left(f, d, i)[e];
      LinkedFrame(m, g.h, e, g.kids[e]);
    }
    forall n | n in g.h && n != g.root ensures g.h[n].parent in g.h && n in g.kids[g.h[n].parent] {
      StillListed(f, d, i, n);
    }
  }

  /** The other members stay listed. */
  lemma StillListed(f: Tree, d: Ptr, i: nat, n: Ptr)
    requires Inv(f) && d in f.h && i < |f.kids[d]| && n in f.h && n != f.root && n != f.kids[d][i]
    ensures n in Left(f, d, i)[f.h[n].parent]
  {
    var e := f.h[n].parent;
    assert n in f.kids[e];
    if e == d {
      var j :| 0 <= j < |f.kids[d]| && f.kids[d][j] == n;
      assert Without(f.kids[d], i)[if j < i then j else j - 1] == n;
    }
  }

  lemma LeftUnique(f: Tree, d: Ptr, i: nat, e: Ptr)
    requires Inv(f) && d in f.h && i < |f.kids[d]| && e in f.h
    ensures NamesDiffer(f.h, Left(f, d, i)[e])
  {
    hide Linked;
    assert NamesDiffer(f.h, f.kids[e]);
  }

  lemma NamesFrame(h: Heap, g: Heap, s: seq<Ptr>)
    requires NamesDiffer(h, s)
    requires forall i :: 0 <= i < |s| ==> s[i] in h && (s[i] in g ==> g[s[i]].name == h[s[i]].name)
    ensures NamesDiffer(g, s)
  {
  }

  lemma RemoveUnique(f: Tree, d: Ptr, i: nat)
    requires Inv(f) && d in f.h && i < |f.kids[d]| && f.kids[f.kids[d][i]] == []
    requires forall j :: 0 <= j < |f.kids[d]| ==> f.kids[d][j] in f.h
    ensures
      var g := Remove(f, d, i);
      Keyed(g) && Unique(g)
  {
    hide Detach, Linked, NamesDiffer;
    RemoveLinks(f, d, i);
    DetachKeeps(f.h, d, f.kids[d], i);
    var g := Remove(f, d, i);
    forall e | e in g.h ensures NamesDiffer(g.h, g.kids[e]) {
      LeftUnique(f, d, i, e);
      assert g.kids[e] == Left(f, d, i)[e];
      NamesFrame(f.h, g.h, g.kids[e]);
    }
  }

  /** Removing an inode without children leaves a tree. */
  lemma RemoveKeepsInv(f: Tree, d: Ptr, i: nat)
    requires Inv(f) && d in f.h && i < |f.kids[d]| && f.kids[f.kids[d][i]] == []
    ensures forall j :: 0 <= j < |f.kids[d]| ==> f.kids[d][j] in f.h
    ensures Inv(Remove(f, d, i)) && |Remove(f, d, i).h| == |f.h| - 1
  {
    hide Detach, Linked, NamesDiffer;
    RemoveShape(f, d, i);
    RemoveLinks(f, d, i);
    RemoveLists(f, d, i);
    RemoveUnique(f, d, i);
    DetachKeeps(f.h, d, f.kids[d], i);
    var g := Remove(f, d, i);
    assert g.h.Keys == f.h.Keys - {f.kids[d][i]};
    assert |g.h| == |g.h.Keys| && |f.h| == |f.h.Keys|;
  }

  // Renaming

  /** What the code asks of a rename: the target is in its directory, and the new name is not taken. */
  ghost predicate Renamable(f: Tree, from: Ptr, i: nat, to: Ptr, name: Name) {
    && Inv(f) && from in f.h && to in f.h && i < |f.kids[from]|
    && (forall j :: 0 <= j < |f.kids[from]| ==> f.kids[from][j] in f.h)
    && !HasName(f.h, f.kids[to], name)
  }

  lemma BelowStep(f: Tree, t: Ptr, n: Ptr)
    requires Inv(f) && n in f.h && n != f.root
    ensures f.h[n].parent in f.h && (Below(f, t, n) <==> n == t || Below(f, t, f.h[n].parent))
  {
  }

  lemma {:induction false} BelowIsDeeper(f: Tree, t: Ptr, n: Ptr)
    requires Inv(f) && t in f.h && n in f.h && Below(f, t, n)
    ensures f.depth[n] >= f.depth[t]
    decreases f.depth[n]
  {
    if n != t {
      BelowStep(f, t, n);
      BelowIsDeeper(f, t, f.h[n].parent);
    }
  }

  lemma RenameShape(f: Tree, from: Ptr, i: nat, to: Ptr, name: Name)
    requires Renamable(f, from, i, to, name) && f.h[to].dir
    ensures
      var g := Rename(f, from, i, to, name);
      Keyed(g) && Rooted(g) && Files(g)
  {
    hide Detach, Linked, NamesDiffer, Unique, Lists, Listed, Depths, HasName, Below;
    KidsApart(f, from);
    DetachKeeps(f.h, from, f.kids[from], i);
    RemoveRooted(f, from, i);
    ShiftedRoot(f, f.kids[from][i], to);
  }

  lemma ShiftedRoot(f: Tree, t: Ptr, d: Ptr)
    requires Inv(f) && t in f.h && d in f.h && t != f.root
    ensures Shifted(f, t, d).Keys == f.h.Keys && Shifted(f, t, d)[f.root] == 0
  {
  }

  /** The lists after the rename. */
  lemma RenameLists(f: Tree, from: Ptr, i: nat, to: Ptr, name: Name)
    requires Renamable(f, from, i, to, name) && f.h[to].dir
    ensures
      var g := Rename(f, from, i, to, name);
      Keyed(g) && Lists(g)
  {
    hide Detach, Linked, NamesDiffer, Unique, Listed, Depths, HasName, Below, Shifted;
    RenameShape(f, from, i, to, name);
    DetachKeeps(f.h, from, f.kids[from], i);
    DetachLists(f, from, i);
    var g, t, m, left := Rename(f, from, i, to, name), f.kids[from][i], Detach(f.h, from, f.kids[from], i), Left(f, from, i);
    forall e | e in g.h ensures Linked(g.h, e, g.kids[e]) {
      assert Linked(m, e, left[e]);
      LinkedIn(m, e, left[e]);
      if e == to {
        LinkedPush(m, g.h, to, t, left[to]);
      } else {
        LinkedFrame(m, g.h, e, left[e]);
      }
    }
  }

  lemma LinkedIn(h: Heap, d: Ptr, s: seq<Ptr>)
    requires Linked(h, d, s)
    ensures d in h && forall i :: 0 <= i < |s| ==> s[i] in h
  {
  }

  /** Of parents and names, only the target's change. */
  lemma RenameFields(f: Tree, from: Ptr, i: nat, to: Ptr, name: Name)
    requires Renamable(f, from, i, to, name)
    ensures
      var g, t := Rename(f, from, i, to, name).h, f.kids[from][i];
      && g.Keys == f.h.Keys && t in f.h && t != f.root && g[t].parent == to && g[t].name == name
      && forall e {:trigger g[e].parent} {:trigger g[e].name} :: e in f.h && e != t ==>
           g[e].parent == f.h[e].parent && g[e].name == f.h[e].name
  {
    hide Detach, Linked, NamesDiffer, Unique, Lists, Depths, HasName, Shifted;
    KidsApart(f, from);
    DetachKeeps(f.h, from, f.kids[from], i);
  }

  lemma RenameKinds(f: Tree, from: Ptr, i: nat, to: Ptr, name: Name)
    requires Renamable(f, from, i, to, name)
    ensures
      var g := Rename(f, from, i, to, name).h;
      forall e {:trigger g[e].dir} :: e in f.h ==> e in g && g[e].dir == f.h[e].dir
  {
    hide Detach, Rooted, Links, Depths, HasName, Shifted;
    DetachKeeps(f.h, from, f.kids[from], i);
  }

  lemma RenameParents(f: Tree, from: Ptr, i: nat, to: Ptr, name: Name)
    requires Renamable(f, from, i, to, name) && f.h[to].dir
    ensures
      var g := Rename(f, from, i, to, name);
      Keyed(g) && Parents(g)
  {
    hide Attach, Detach, Linked, NamesDiffer, Unique, Lists, Depths, HasName, Shifted;
    RenameShape(f, from, i, to, name);
    RenameFields(f, from, i, to, name);
    DetachLists(f, from, i);
    var g, t, left := Rename(f, from, i, to, name), f.kids[from][i], Left(f, from, i);
    forall e, j | e in g.h && 0 <= j < |g.kids[e]| ensures g.kids[e][j] in g.h && g.h[g.kids[e][j]].parent == e {
      assert t !in left[e];
      RenamedMember(f, from, i, to, e, j);
    }
  }

  lemma RenameListed(f: Tree, from: Ptr, i: nat, to: Ptr, name: Name)
    requires Renamable(f, from, i, to, name) && f.h[to].dir
    ensures
      var g := Rename(f, from, i, to, name);
      Keyed(g) && Listed(g)
  {
    hide Attach, Detach, Linked, NamesDiffer, Unique, Lists, Depths, HasName, Shifted;
    RenameShape(f, from, i, to, name);
    RenameFields(f, from, i, to, name);
    var g, t, left := Rename(f, from, i, to, name), f.kids[from][i], Left(f, from, i);
    forall n | n in g.h && n != g.root ensures g.h[n].parent in g.h && n in g.kids[g.h[n].parent] {
      if n != t {
        assert f.h[n].parent in f.h;
        StillListed(f, from, i, n);
      }
    }
  }

  /** A member of a new list is the target, or was a member before. */
  lemma RenamedMember(f: Tree, from: Ptr, i: nat, to: Ptr, e: Ptr, j: nat)
    requires Inv(f) && from in f.h && to in f.h && i < |f.kids[from]| && e in f.h
    requires
      var left := Left(f, from, i);
      j < |left[to := [f.kids[from][i]] + left[to]][e]|
    ensures
      var t, left := f.kids[from][i], Left(f, from, i);
      var n := left[to := [t] + left[to]][e][j];
      n in f.h && ((n == t && e == to) || (n in left[e] && f.h[n].parent == e))
  {
    var left := Left(f, from, i);
    var k := if e == to && j > 0 then j - 1 else j;
    assert (e != to || j > 0) ==> left[to := [f.kids[from][i]] + left[to]][e][j] == left[e][k];
    assert (e != to || j > 0) ==> left[e][k] == f.kids[e][if e == from && k >= i then k + 1 else k];
  }

  lemma RenameUnique(f: Tree, from: Ptr, i: nat, to: Ptr, name: Name)
    requires Renamable(f, from, i, to, name) && f.h[to].dir
    ensures
      var g := Rename(f, from, i, to, name);
      Keyed(g) && Unique(g)
  {
    hide Detach, Linked, NamesDiffer, Lists, Listed, Depths, HasName, Below, Shifted;
    RenameShape(f, from, i, to, name);
    DetachKeeps(f.h, from, f.kids[from], i);
    DetachLists(f, from, i);
    var g, t, left := Rename(f, from, i, to, name), f.kids[from][i], Left(f, from, i);
    forall e | e in g.h ensures NamesDiffer(g.h, g.kids[e]) {
      LeftUnique(f, from, i, e);
      LeftIn(f, from, i, e);
      assert t !in left[e];
      NamesFrame(f.h, g.h, left[e]);
      if e == to {
        LeftNames(f, from, i, to, name);
        NamesPush(g.h, t, left[to], name);
      }
    }
  }

  lemma LeftIn(f: Tree, d: Ptr, i: nat, e: Ptr)
    requires Inv(f) && d in f.h && i < |f.kids[d]| && e in f.h
    ensures forall j :: 0 <= j < |Left(f, d, i)[e]| ==> Left(f, d, i)[e][j] in f.h && Left(f, d, i)[e][j] in f.kids[e]
  {
  }

  lemma LeftNames(f: Tree, d: Ptr, i: nat, e: Ptr, name: Name)
    requires Inv(f) && d in f.h && i < |f.kids[d]| && e in f.h && !HasName(f.h, f.kids[e], name)
    ensures forall j :: 0 <= j < |Left(f, d, i)[e]| ==> Left(f, d, i)[e][j] in f.h && f.h[Left(f, d, i)[e][j]].name != name
  {
    LeftIn(f, d, i, e);
  }

  lemma NamesPush(h: Heap, p: Ptr, s: seq<Ptr>, name: Name)
    requires NamesDiffer(h, s) && p in h && h[p].name == name
    requires forall i :: 0 <= i < |s| ==> s[i] in h && h[s[i]].name != name
    ensures NamesDiffer(h, [p] + s)
  {
  }

  lemma RenameDepths(f: Tree, from: Ptr, i: nat, to: Ptr, name: Name)
    requires Renamable(f, from, i, to, name) && f.h[to].dir && !Below(f, f.kids[from][i], to)
    ensures
      var g := Rename(f, from, i, to, name);
      Keyed(g) && Depths(g)
  {
    hide Attach, Detach, Linked, NamesDiffer, Unique, Lists, Listed, HasName, Below;
    RenameShape(f, from, i, to, name);
    RenameFields(f, from, i, to, name);
    var g, t := Rename(f, from, i, to, name), f.kids[from][i];
    assert Below(f, t, t) by { BelowStep(f, t, t); }
    forall n | n in g.h && n != g.root ensures g.h[n].parent in g.h && g.depth[n] == g.depth[g.h[n].parent] + 1 {
      if n != t {
        BelowStep(f, t, n);
        if Below(f, t, n) {
          BelowIsDeeper(f, t, f.h[n].parent);
        }
      }
    }
  }

  /** Renaming leaves a tree if and only if the new parent is a directory outside the target's subtree. */
  lemma RenameExactly(f: Tree, from: Ptr, i: nat, to: Ptr, name: Name)
    requires Renamable(f, from, i, to, name)
    ensures
      var t, g := f.kids[from][i], Rename(f, from, i, to, name);
      && (IsTree(g.h, f.root) <==> f.h[to].dir && !Below(f, t, to))
      && (f.h[to].dir && !Below(f, t, to) ==> Inv(g) && g.h.Keys == f.h.Keys)
  {
    hide Detach, Linked, NamesDiffer, HasName, Below, Shifted;
    var t, g := f.kids[from][i], Rename(f, from, i, to, name);
    if f.h[to].dir && !Below(f, t, to) {
      RenameShape(f, from, i, to, name);
      RenameLists(f, from, i, to, name);
      RenameParents(f, from, i, to, name);
      RenameListed(f, from, i, to, name);
      RenameUnique(f, from, i, to, name);
      RenameDepths(f, from, i, to, name);
      TreeOf(g);
    } else if IsTree(g.h, f.root) {
      var kids, depth :| Inv(Tree(g.h, f.root, kids, depth));
      RenameSpoils(f, from, i, to, name, Tree(g.h, f.root, kids, depth));
    }
  }

  lemma RenameSpoils(f: Tree, from: Ptr, i: nat, to: Ptr, name: Name, g: Tree)
    requires Renamable(f, from, i, to, name) && Inv(g)
    requires g.h == Rename(f, from, i, to, name).h && g.root == f.root
    ensures f.h[to].dir && !Below(f, f.kids[from][i], to)
  {
    hide Attach, Detach, Linked, NamesDiffer, Lists, Unique, HasName, Shifted;
    var t := f.kids[from][i];
    RenameFields(f, from, i, to, name);
    RenameDirs(f, from, i, to, name);
    assert g.h[t].parent == to && t in g.kids[to];
    if Below(f, t, to) {
      ClimbsTo(f, g, t, to, f.depth[to]);
    }
  }

  lemma RenameDirs(f: Tree, from: Ptr, i: nat, to: Ptr, name: Name)
    requires Renamable(f, from, i, to, name)
    ensures to in Rename(f, from, i, to, name).h && Rename(f, from, i, to, name).h[to].dir == f.h[to].dir
  {
    hide Detach;
    DetachKeeps(f.h, from, f.kids[from], i);
  }

  /** Where parent pointers other than the target's are the same, climbing to the target is climbing. */
  lemma {:induction false} ClimbsTo(f: Tree, g: Tree, t: Ptr, n: Ptr, k: nat)
    requires Inv(f) && Inv(g) && g.h.Keys == f.h.Keys && g.root == f.root && t in f.h
    requires forall e :: e in f.h && e != t ==> g.h[e].parent == f.h[e].parent
    requires n in f.h && Under(f.h, t, n, k)
    ensures g.depth[n] >= g.depth[t]
    decreases k
  {
    hide Linked, NamesDiffer, Lists, Unique, Listed, Parents, Files;
    RootUnder(f, t, k);
    if n != t {
      assert g.h[n].parent in f.h;
      ClimbsTo(f, g, t, f.h[n].parent, k - 1);
    }
  }

  /** The root is in no subtree but its own. */
  lemma RootUnder(f: Tree, t: Ptr, k: nat)
    requires Inv(f) && t in f.h
    ensures Under(f.h, t, f.root, k) ==> t == f.root
  {
    assert k > 0 ==> !Under(f.h, t, 0, k - 1);
  }

  // Whole runs

  datatype Status = Success | NoEntry | Exists | IsDirectory | NotDirectory | NotEmpty

  /** The tree and the superblock's inode counter. */
  datatype State = State(f: Tree, count: nat)

  /** `p` is the address of the new inode, `t` the inode that the old directory entry names. */
  datatype Op =
    | CreateOp(d: Ptr, p: Ptr, name: Name, dir: bool)
    | RenameOp(from: Ptr, t: Ptr, to: Ptr, name: Name)
    | UnlinkOp(d: Ptr, name: Name)
    | RmdirOp(d: Ptr, name: Name)

  /** What callers must see to: directories, no name created twice, nothing moved below itself. */
  ghost predicate Allowed(f: Tree, op: Op)
    requires Inv(f)
  {
    match op
    case CreateOp(d, p, name, _) => d in f.h && f.h[d].dir && p != 0 && p !in f.h && !HasName(f.h, f.kids[d], name)
    case RenameOp(from, t, to, _) =>
      from in f.h && t in f.kids[from] && t in f.h && to in f.h && f.h[to].dir && !Below(f, t, to)
    case UnlinkOp(d, _) => d in f.h
    case RmdirOp(d, _) => d in f.h
  }

  function IndexOf(s: seq<Ptr>, t: Ptr): (i: nat)
    ensures i <= |s| && (i < |s| ==> s[i] == t) && (t in s ==> i < |s|)
  {
    if s == [] || s[0] == t then 0 else 1 + IndexOf(s[1..], t)
  }

  /** Taking an entry away, as `unlink` and `rmdir` do once they have found it. */
  function RemoveAt(x: State, d: Ptr, i: nat): State
    requires x.count > 0 && d in x.f.h && d in x.f.kids && i < |x.f.kids[d]|
    requires forall j :: 0 <= j < |x.f.kids[d]| ==> x.f.kids[d][j] in x.f.h
  {
    State(Remove(x.f, d, i), x.count - 1)
  }

  ghost predicate StateInv(x: State) { Inv(x.f) && x.count == |x.f.h| }

  lemma StateFacts(x: State, d: Ptr)
    requires StateInv(x) && d in x.f.h
    ensures x.count > 0 && forall j :: 0 <= j < |x.f.kids[d]| ==> x.f.kids[d][j] in x.f.h
  {
    assert x.f.h.Keys != {} && |x.f.h| == |x.f.h.Keys|;
  }

  ghost function Step(x: State, op: Op): (State, Status)
    requires StateInv(x) && Allowed(x.f, op)
  {
    var f := x.f;
    match op
    case CreateOp(d, p, name, dir) => (State(Create(f, d, p, name, dir), x.count + 1), Success)
    case RenameOp(from, t, to, name) =>
      StateFacts(x, from);
      if Find(f.h, f.kids[to], name) < |f.kids[to]| then (x, Exists)
      else (State(Rename(f, from, IndexOf(f.kids[from], t), to, name), x.count), Success)
    case UnlinkOp(d, name) =>
      StateFacts(x, d);
      var i := Find(f.h, f.kids[d], name);
      if i == |f.kids[d]| then (x, NoEntry)
      else if f.h[f.kids[d][i]].dir then (x, IsDirectory)
      else (RemoveAt(x, d, i), Success)
    case RmdirOp(d, name) =>
      StateFacts(x, d);
      var i := Find(f.h, f.kids[d], name);
      if i == |f.kids[d]| then (x, NoEntry)
      else if !f.h[f.kids[d][i]].dir then (x, NotDirectory)
      else if f.h[f.kids[d][i]].children != 0 then (x, NotEmpty)
      else (RemoveAt(x, d, i), Success)
  }

  /** An inode without a first child has no children. */
  lemma NoChildren(f: Tree, d: Ptr)
    requires Inv(f) && d in f.h
    ensures f.h[d].children == 0 <==> f.kids[d] == []
  {
    assert Linked(f.h, d, f.kids[d]);
  }

  lemma StepKeepsInv(x: State, op: Op)
    requires StateInv(x) && Allowed(x.f, op)
    ensures StateInv(Step(x, op).0) && Step(x, op).0.f.root == x.f.root
  {
    hide Rooted, Links, Depths, Create, Rename, Remove, Below;
    var f := x.f;
    match op
    case CreateOp(d, p, name, dir) =>
      CreateExactly(f, d, p, name, dir);
      CreateCounts(f, d, p, name, dir);
    case RenameOp(from, t, to, name) =>
      StateFacts(x, from);
      if Find(f.h, f.kids[to], name) == |f.kids[to]| {
        RenameExactly(f, from, IndexOf(f.kids[from], t), to, name);
        RenameCounts(f, from, IndexOf(f.kids[from], t), to, name);
      }
    case UnlinkOp(d, name) =>
      StateFacts(x, d);
      var i := Find(f.h, f.kids[d], name);
      if i < |f.kids[d]| && !f.h[f.kids[d][i]].dir {
        FileHasNone(f, f.kids[d][i]);
        RemoveKeepsInv(f, d, i);
        RemoveRoot(f, d, i);
      }
    case RmdirOp(d, name) =>
      StateFacts(x, d);
      var i := Find(f.h, f.kids[d], name);
      if i < |f.kids[d]| && f.h[f.kids[d][i]].children == 0 {
        NoChildren(f, f.kids[d][i]);
        RemoveKeepsInv(f, d, i);
        RemoveRoot(f, d, i);
      }
  }

  lemma FileHasNone(f: Tree, n: Ptr)
    requires Inv(f) && n in f.h && !f.h[n].dir
    ensures f.kids[n] == []
  {
  }

  lemma RemoveRoot(f: Tree, d: Ptr, i: nat)
    requires d in f.h && d in f.kids && i < |f.kids[d]| && forall j :: 0 <= j < |f.kids[d]| ==> f.kids[d][j] in f.h
    ensures Remove(f, d, i).root == f.root
  {
  }

  lemma CreateCounts(f: Tree, d: Ptr, p: Ptr, name: Name, dir: bool)
    requires Inv(f) && d in f.h && f.h[d].dir && p !in f.h
    ensures |Create(f, d, p, name, dir).h| == |f.h| + 1 && Create(f, d, p, name, dir).root == f.root
  {
    var h := Create(f, d, p, name, dir).h;
    assert h.Keys == f.h.Keys + {p};
    assert |h| == |h.Keys| && |f.h| == |f.h.Keys|;
  }

  lemma RenameCounts(f: Tree, from: Ptr, i: nat, to: Ptr, name: Name)
    requires Renamable(f, from, i, to, name)
    ensures |Rename(f, from, i, to, name).h| == |f.h| && Rename(f, from, i, to, name).root == f.root
  {
    hide Attach, Detach;
    RenameFields(f, from, i, to, name);
    var h := Rename(f, from, i, to, name).h;
    assert |h| == |h.Keys| && |f.h| == |f.h.Keys|;
  }

  // What the operations mean for directories

  /** Directory `d` has an entry of that name, and it is inode `n`. */
  predicate IsEntry(f: Tree, d: Ptr, name: Name, n: Ptr) {
    n in f.h && n != f.root && f.h[n].parent == d && f.h[n].name == name
  }

  /** The inode is where it was, under the same name, and is of the same kind. */
  predicate SameEntry(h: Heap, g: Heap, n: Ptr) {
    n in h && n in g && g[n].parent == h[n].parent && g[n].name == h[n].name && g[n].dir == h[n].dir
  }

  /** The lookup finds the one entry of that name, if there is one. */
  lemma FindMeans(f: Tree, d: Ptr, name: Name, n: Ptr)
    requires Inv(f) && d in f.h
    ensures
      var i := Find(f.h, f.kids[d], name);
      IsEntry(f, d, name, n) <==> i < |f.kids[d]| && f.kids[d][i] == n
  {
    var s := f.kids[d];
    var i := Find(f.h, s, name);
    if n in f.h {
      InOneList(f, n, d);
    }
    assert Linked(f.h, d, s);
    assert NamesDiffer(f.h, s);
    if IsEntry(f, d, name, n) {
      var j :| 0 <= j < |s| && s[j] == n;
      assert i <= j;
    }
  }

  /** The directory `n` is somebody's parent exactly if it has a first child. */
  lemma EmptyMeans(f: Tree, n: Ptr)
    requires Inv(f) && n in f.h
    ensures f.h[n].children == 0 <==> forall m :: !IsChild(f, n, m)
  {
    NoChildren(f, n);
    if f.kids[n] != [] {
      var m := f.kids[n][0];
      InOneList(f, m, n);
      assert IsChild(f, n, m);
    } else {
      forall m ensures !IsChild(f, n, m) {
        if IsChild(f, n, m) {
          InOneList(f, m, n);
          assert false;
        }
      }
    }
  }

  predicate IsChild(f: Tree, n: Ptr, m: Ptr) { m in f.h && m != f.root && f.h[m].parent == n }

  /** A creation adds one entry of the given name and kind and leaves the others alone. */
  lemma CreateMeans(x: State, d: Ptr, p: Ptr, name: Name, dir: bool)
    requires StateInv(x) && Allowed(x.f, CreateOp(d, p, name, dir))
    ensures
      var (y, status) := Step(x, CreateOp(d, p, name, dir));
      && status == Success && y.count == x.count + 1 && y.f.h.Keys == x.f.h.Keys + {p}
      && IsEntry(y.f, d, name, p) && y.f.h[p].dir == dir
      && forall n :: n in x.f.h ==> SameEntry(x.f.h, y.f.h, n)
  {
  }

  /** A rename is refused exactly if the new name is taken; otherwise it moves one entry, to that name. */
  lemma RenameMeans(x: State, from: Ptr, t: Ptr, to: Ptr, name: Name)
    requires StateInv(x) && Allowed(x.f, RenameOp(from, t, to, name))
    ensures
      var (y, status) := Step(x, RenameOp(from, t, to, name));
      && (status == Exists <==> exists n :: IsEntry(x.f, to, name, n)) && (status == Exists ==> y == x)
      && (status != Exists ==>
            && status == Success && y.count == x.count && y.f.h.Keys == x.f.h.Keys
            && IsEntry(y.f, to, name, t) && y.f.h[t].dir == x.f.h[t].dir
            && forall n :: n in x.f.h && n != t ==> SameEntry(x.f.h, y.f.h, n))
  {
    hide Rooted, Links, Depths, Rename, Below, Find;
    var f := x.f;
    StateFacts(x, from);
    var i, k := IndexOf(f.kids[from], t), Find(f.h, f.kids[to], name);
    if k < |f.kids[to]| {
      FindMeans(f, to, name, f.kids[to][k]);
    } else {
      forall n ensures !IsEntry(f, to, name, n) { FindMeans(f, to, name, n); }
      InOneList(f, t, from);
      assert Renamable(f, from, i, to, name);
      RenameFields(f, from, i, to, name);
      RenameKinds(f, from, i, to, name);
      RenameCounts(f, from, i, to, name);
    }
  }

  /** What removing an entry does, and which inode goes. */
  ghost predicate Removed(x: State, d: Ptr, name: Name, y: State) {
    && y.count == x.count - 1
    && exists n :: IsEntry(x.f, d, name, n) && y.f.h.Keys == x.f.h.Keys - {n}
                   && forall m :: m in x.f.h && m != n ==> SameEntry(x.f.h, y.f.h, m)
  }

  lemma RemoveMeans(x: State, d: Ptr, name: Name)
    requires StateInv(x) && d in x.f.h && Find(x.f.h, x.f.kids[d], name) < |x.f.kids[d]|
    ensures x.count > 0 && forall j :: 0 <= j < |x.f.kids[d]| ==> x.f.kids[d][j] in x.f.h
    ensures Removed(x, d, name, RemoveAt(x, d, Find(x.f.h, x.f.kids[d], name)))
  {
    StateFacts(x, d);
    var i := Find(x.f.h, x.f.kids[d], name);
    var n := x.f.kids[d][i];
    FindMeans(x.f, d, name, n);
    var y := RemoveAt(x, d, i);
    assert y.f.h.Keys == x.f.h.Keys - {n};
    assert forall m :: m in x.f.h && m != n ==> SameEntry(x.f.h, y.f.h, m);
  }

  /** Unlinking removes a file, and tells a missing entry and a directory apart. */
  lemma UnlinkMeans(x: State, d: Ptr, name: Name)
    requires StateInv(x) && Allowed(x.f, UnlinkOp(d, name))
    ensures
      var (y, status) := Step(x, UnlinkOp(d, name));
      && (status == NoEntry <==> forall n :: !IsEntry(x.f, d, name, n))
      && (status == IsDirectory <==> exists n :: IsEntry(x.f, d, name, n) && x.f.h[n].dir)
      && (status == Success <==> exists n :: IsEntry(x.f, d, name, n) && !x.f.h[n].dir)
      && if status == Success then Removed(x, d, name, y) else y == x
  {
    hide Rooted, Links, Depths, Find, RemoveAt, Removed;
    var s, i := x.f.kids[d], Find(x.f.h, x.f.kids[d], name);
    forall n ensures IsEntry(x.f, d, name, n) <==> i < |s| && s[i] == n { FindMeans(x.f, d, name, n); }
    if i < |s| {
      RemoveMeans(x, d, name);
      assert IsEntry(x.f, d, name, s[i]);
    }
  }

  /** Removing a directory likewise, if nothing is in it. */
  lemma RmdirMeans(x: State, d: Ptr, name: Name)
    requires StateInv(x) && Allowed(x.f, RmdirOp(d, name))
    ensures
      var (y, status) := Step(x, RmdirOp(d, name));
      && (status == NoEntry <==> forall n :: !IsEntry(x.f, d, name, n))
      && (status == NotDirectory <==> exists n :: IsEntry(x.f, d, name, n) && !x.f.h[n].dir)
      && (status == NotEmpty <==> exists n, m :: IsEntry(x.f, d, name, n) && x.f.h[n].dir && IsChild(x.f, n, m))
      && (status in {Success, NoEntry, NotDirectory, NotEmpty})
      && if status == Success then Removed(x, d, name, y) else y == x
  {
    hide Rooted, Links, Depths, Find, RemoveAt, Removed;
    var s, i := x.f.kids[d], Find(x.f.h, x.f.kids[d], name);
    forall n ensures IsEntry(x.f, d, name, n) <==> i < |s| && s[i] == n { FindMeans(x.f, d, name, n); }
    if i < |s| {
      RemoveMeans(x, d, name);
      assert IsEntry(x.f, d, name, s[i]);
      EmptyMeans(x.f, s[i]);
    }
  }

  /** What `ramfs_mount` leaves: an empty root directory. */
  function Mounted(root: Ptr): State
    requires root != 0
  {
    State(Tree(map[root := Inode(true, [], 0, 0, 0)], root, map[root := []], map[root := 0]), 1)
  }

  ghost predicate Follows(x: State, op: Op, y: State) {
    StateInv(x) ==> Allowed(x.f, op) && y == Step(x, op).0
  }

  /** The states after each operation of a run. */
  ghost predicate IsRun(xs: seq<State>, ops: seq<Op>) {
    && |xs| == |ops| + 1 && xs[0].f.root != 0 && xs[0] == Mounted(xs[0].f.root)
    && forall i :: 0 <= i < |ops| ==> Follows(xs[i], ops[i], xs[i + 1])
  }

  /** Every run keeps a finite tree, and the counter is the number of reachable inodes. */
  lemma {:induction false} RunKeepsInv(xs: seq<State>, ops: seq<Op>, k: nat)
    requires IsRun(xs, ops) && k < |xs|
    ensures StateInv(xs[k])
    ensures forall s: set<Ptr> :: (forall n :: n in s <==> Reachable(xs[k].f.h, xs[k].f.root, n)) ==> xs[k].count == |s|
  {
    hide Reachable, Step, Allowed, Inv;
    if k == 0 {
      MountedInv(xs[0].f.root);
    } else {
      RunKeepsInv(xs, ops, k - 1);
      assert Follows(xs[k - 1], ops[k - 1], xs[k - 1 + 1]);
      StepKeepsInv(xs[k - 1], ops[k - 1]);
    }
    CountReachable(xs[k]);
  }

  lemma MountedInv(root: Ptr)
    requires root != 0
    ensures StateInv(Mounted(root))
  {
    var f := Mounted(root).f;
    assert f.h.Keys == {root};
    assert |f.h| == |f.h.Keys|;
  }

  lemma CountReachable(x: State)
    requires StateInv(x)
    ensures forall s: set<Ptr> :: (forall n :: n in s <==> Reachable(x.f.h, x.f.root, n)) ==> x.count == |s|
  {
    hide Reachable, Inv;
    ReachableIsAllocated(x.f);
    forall s: set<Ptr> | forall n :: n in s <==> Reachable(x.f.h, x.f.root, n) ensures x.count == |s| {
      assert s == x.f.h.Keys;
    }
  }

  // What the code does not refuse

  /** The mounted root at address 1, with one entry at address 2. */
  function OneEntry(name: Name, dir: bool): Tree { Create(Mounted(1).f, 1, 2, name, dir) }

  lemma OneEntryInv(name: Name, dir: bool)
    ensures Inv(OneEntry(name, dir)) && OneEntry(name, dir).kids[1] == [2]
    ensures 2 in OneEntry(name, dir).h && OneEntry(name, dir).h[2].name == name && OneEntry(name, dir).h[2].dir == dir
  {
    MountedInv(1);
    CreateExactly(Mounted(1).f, 1, 2, name, dir);
  }

  /** Creating one name twice leaves no tree. */
  lemma CreatedTwice(name: Name)
    ensures !IsTree(CreateIn(OneEntry(name, false).h, 1, 3, name, false), 1)
  {
    var f := OneEntry(name, false);
    OneEntryInv(name, false);
    CreateExactly(f, 1, 3, name, false);
    assert f.kids[1][0] == 2;
    assert HasName(f.h, f.kids[1], name);
  }

  /** Creating something in a file leaves no tree: the new inode is linked nowhere. */
  lemma CreatedInFile(name: Name)
    ensures !IsTree(CreateIn(OneEntry(name, false).h, 2, 3, name, false), 1)
  {
    OneEntryInv(name, false);
    CreateExactly(OneEntry(name, false), 2, 3, name, false);
  }

  /** Moving a directory into itself leaves no tree. */
  lemma MovedIntoItself(name: Name)
    ensures Renamable(OneEntry(name, true), 1, 0, 2, name)
    ensures !IsTree(Rename(OneEntry(name, true), 1, 0, 2, name).h, 1)
  {
    var f := OneEntry(name, true);
    OneEntryInv(name, true);
    assert f.kids[2] == [];
    RenameExactly(f, 1, 0, 2, name);
  }
}
