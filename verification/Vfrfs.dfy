/** The RAM file system of fs/VFRFS.c over its pool of 128 nodes. */
module Vfrfs {
  import opened NodePool
  import opened Subtrees
  import opened Paths
  import opened TreeWalk
  import opened SiblingNames
  import PathResolver

  const MAX_PATH: nat := 256
  const TWO32: nat := 0x1_0000_0000

  /** The part of a name that fits a node: copying with limit 63 keeps 62 characters. */
  function Kept(name: string): (r: string)
    ensures |r| <= 62 && (|name| <= 62 ==> r == name) && (|name| > 62 ==> r == name[..62])
  {
    if |name| <= NAME_KEPT then name else name[..NAME_KEPT]
  }

  /** The slot tried k places after the hint. */
  function Probe(hint: nat, k: nat): (i: nat)
    ensures i < MAX_FS_NODES
  {
    (hint + k) % MAX_FS_NODES
  }

  class FileSystem {
    const nodes: array<Node>
    var root: int
    var hint: nat
    var nextId: nat
    /** The tree the links stand for. */
    ghost var shape: Shape

    ghost predicate Valid()
      reads this, nodes
    {
      && nodes.Length == MAX_FS_NODES && Tree(nodes[..], shape, root) && ShortNames(nodes[..])
      && nextId < TWO32
    }

    /** FsInit: an empty root directory. */
    constructor ()
      ensures Valid() && fresh(nodes) && nextId == 2
      ensures forall i :: Live(nodes[..], i) <==> i == root
      ensures nodes[root].name == "/" && nodes[root].kind.Directory? && shape.kids[root] == []
      ensures DistinctNames(nodes[..], shape.kids)
    {
      nodes := new Node[MAX_FS_NODES](_ => FREE);
      root, hint, nextId := 0, 1, 2;
      shape := Shape(seq(MAX_FS_NODES, _ => []), seq(MAX_FS_NODES, _ => 0), 1);
      new;
      nodes[0] := FREE.(id := 1, name := "/", kind := Directory);
    }

    /** The next free slot from the hint on, wrapping round. */
    method AllocNode() returns (c: int)
      requires nodes.Length == MAX_FS_NODES && nextId < TWO32
      modifies this`hint, this`nextId, nodes
      ensures c == NONE <==> forall i :: 0 <= i < MAX_FS_NODES ==> old(nodes[i].id) != 0
      ensures c == NONE ==> nodes[..] == old(nodes[..]) && nextId == old(nextId)
      ensures c != NONE ==> 0 <= c < MAX_FS_NODES && old(nodes[c].id) == 0
      ensures c != NONE ==> nodes[..] == old(nodes[..])[c := old(nodes[c]).(id := old(nextId))]
      ensures c != NONE ==> nextId == (old(nextId) + 1) % TWO32
    {
      for i := 0 to MAX_FS_NODES
        invariant forall k :: 0 <= k < i ==> nodes[Probe(hint, k)].id != 0
        invariant nodes[..] == old(nodes[..]) && nextId == old(nextId) && hint == old(hint)
      {
        c := Probe(hint, i);
        if nodes[c].id == 0 {
          nodes[c] := nodes[c].(id := nextId);
          nextId := (nextId + 1) % TWO32;
          hint := c + 1;
          return;
        }
      }
      forall i | 0 <= i < MAX_FS_NODES ensures nodes[i].id != 0 {
        var k := (i - hint) % MAX_FS_NODES;
        assert Probe(hint, k) == i;
      }
      c := NONE;
    }

    /** The child of a node with the name, following the sibling links. */
    method FindChild(p: int, name: CString) returns (c: int)
      requires Valid() && Live(nodes[..], p)
      ensures c == Child(nodes[..], shape.kids[p], name)
    {
      ghost var s, list := nodes[..], shape.kids[p];
      assert ListOk(s, list, p);
      ghost var j := 0;
      c := nodes[p].children;
      while c != NONE
        invariant 0 <= j <= |list| && c == At(list, j)
        invariant Child(s, list, name) == Child(s, list[j..], name)
        decreases |list| - j
      {
        assert Placed(s, list, p, j);
        if nodes[c].name == name { return; }
        assert list[j..][1..] == list[j + 1..];
        c, j := nodes[c].next, j + 1;
      }
    }

    /** FsCreateNode: refused for a missing or non-directory parent, an empty or taken name, or a full pool. */
    method CreateNode(name: CString, kind: Kind, p: int) returns (c: int)
      requires Valid() && nextId != 0 && (p == NONE || Live(nodes[..], p))
      modifies this`hint, this`nextId, this`shape, nodes
      ensures Valid() && root == old(root)
      ensures c == NONE <==> || p == NONE || old(nodes[..])[p].kind.File? || name == []
                             || HasName(old(nodes[..]), old(shape.kids)[p], name)
                             || (forall i :: 0 <= i < MAX_FS_NODES ==> old(nodes[i].id) != 0)
      ensures c == NONE ==> nodes[..] == old(nodes[..]) && shape == old(shape) && nextId == old(nextId)
      ensures c != NONE ==> CanLink(old(nodes[..]), old(shape), root, p, c, old(nextId))
      ensures c != NONE ==> nodes[..] == Linked(old(nodes[..]), p, c, Kept(name), kind, old(nextId))
      ensures c != NONE ==> shape == GrownShape(old(shape), p, c) && nextId == (old(nextId) + 1) % TWO32
      ensures c != NONE && old(DistinctNames(nodes[..], shape.kids)) ==>
                (DistinctNames(nodes[..], shape.kids)
                 <==> !HasName(old(nodes[..]), old(shape.kids)[p], Kept(name)))
    {
      hide Forest, Linked, DistinctNames, HasName, ShortNames, GrownShape;
      ghost var s := nodes[..];
      TreeParts(s, shape, root);
      if p == NONE || nodes[p].kind.File? || name == [] { return NONE; }
      var taken := FindChild(p, name);
      KidsInRange(s, shape.kids, p);
      ChildIsName(s, shape.kids[p], name);
      if taken != NONE { return NONE; }
      c := AllocNode();
      if c == NONE { return; }
      LinkNode(name, kind, p, c, s);
    }

    /** The fields and links of a node just allocated. */
    method LinkNode(name: CString, kind: Kind, p: int, c: int, ghost s: seq<Node>)
      requires nodes.Length == MAX_FS_NODES && 0 <= c < nodes.Length
      requires CanLink(s, shape, root, p, c, nodes[c].id) && ShortNames(s)
      requires |s| == MAX_FS_NODES && nodes[..] == s[c := s[c].(id := nodes[c].id)] && nextId < TWO32 && name != []
      modifies this`shape, nodes
      ensures Valid() && nodes[..] == Linked(s, p, c, Kept(name), kind, old(nodes[c].id))
      ensures shape == GrownShape(old(shape), p, c)
      ensures DistinctNames(s, old(shape).kids) ==>
                (DistinctNames(nodes[..], shape.kids) <==> !HasName(s, old(shape).kids[p], Kept(name)))
    {
      hide Forest, DistinctNames, HasName;
      ghost var id := nodes[c].id;
      TreeParts(s, shape, root);
      LinkBasics(s, shape, root, p, c, id);
      assert nodes[p] == s[p];
      nodes[c] := nodes[c].(name := Kept(name), kind := kind, parent := p);
      if nodes[p].lastChild == NONE {
        nodes[p] := nodes[p].(children := c, lastChild := c);
      } else {
        var last := nodes[p].lastChild;
        nodes[c] := nodes[c].(prev := last);
        nodes[last] := nodes[last].(next := c);
        nodes[p] := nodes[p].(lastChild := c);
      }
      assert nodes[..] == Linked(s, p, c, Kept(name), kind, id);
      LinkTree(s, shape, root, p, c, Kept(name), kind, id);
      if DistinctNames(s, shape.kids) { LinkDistinct(s, shape, root, p, c, Kept(name), kind, id); }
      shape := GrownShape(shape, p, c);
      forall i | 0 <= i < |s| ensures |nodes[..][i].name| <= NAME_KEPT {
        LinkedFields(s, p, c, Kept(name), kind, id, i);
      }
    }

    // ----- lookup

    /** FsFind. */
    method Find(path: CString) returns (current: int)
      requires Valid()
      ensures current == Walk(nodes[..], shape.kids, root, Chunks(path, []))
      ensures current != NONE ==> Live(nodes[..], current)
    {
      hide Forest, Lists, Chunks, Walk, Child;
      ghost var s, kids := nodes[..], shape.kids;
      TreeParts(s, shape, root);
      WholePath(s, kids, root, path);
      if path == "/" { return root; }
      current := root;
      var p := 0;
      while p < |path|
        invariant p <= |path| && Live(s, current)
        invariant Walk(s, kids, root, Chunks(path, [])) == Walk(s, kids, current, Chunks(path[p..], []))
      {
        p := SkipSlashes(path, p);
        if p == |path| { break; }
        var name, q := NextName(path, p);
        WalkStep(s, kids, current, name, Chunks(path[q..], []));
        MoveLive(s, shape, root, current, name);
        p := q;
        if name == "." { continue; }
        if name == ".." {
          if nodes[current].parent != NONE { current := nodes[current].parent; }
          continue;
        }
        current := FindChild(current, name);
        if current == NONE { return; }
      }
      PathOver(s, kids, current, path, p);
    }

    static method SkipSlashes(path: CString, p: nat) returns (q: nat)
      requires p <= |path|
      ensures p <= q <= |path| && (q < |path| ==> path[q] != '/')
      ensures Chunks(path[p..], []) == Chunks(path[q..], [])
    {
      hide Chunks;
      q := p;
      while q < |path| && path[q] == '/'
        invariant p <= q <= |path| && forall k :: p <= k < q ==> path[k] == '/'
      {
        q := q + 1;
      }
      ChunksSkip(path, p, q);
    }

    /** Copy the next component into a buffer of 64. */
    static method NextName(path: CString, p: nat) returns (name: CString, q: nat)
      requires p < |path| && path[p] != '/'
      ensures p < q <= |path| && name != []
      ensures Chunks(path[p..], []) == [name] + Chunks(path[q..], [])
    {
      hide Chunks;
      name, q := "", p;
      while q < |path| && path[q] != '/' && |name| < COMPONENT_MAX
        invariant p <= q <= |path| && name == path[p..q] && |name| <= COMPONENT_MAX && '/' !in name
        invariant q == p ==> path[q] != '/'
      {
        name := name + [path[q]];
        q := q + 1;
      }
      assert path[p..] == name + path[q..];
      ChunkEnds(name, path[q..]);
    }

    // ----- deletion

    /** UnlinkNode: join the neighbours around a node. */
    method UnlinkNode(n: int)
      requires Valid() && Live(nodes[..], n) && n != root
      modifies nodes
      ensures LinksInRange(old(nodes[..]), n) && nodes[..] == Unlinked(old(nodes[..]), n)
    {
      CutBasics(nodes[..], shape, root, n);
      hide Forest;
      var p, a, b := nodes[n].parent, nodes[n].prev, nodes[n].next;
      if a != NONE {
        nodes[a] := nodes[a].(next := b);
      } else {
        nodes[p] := nodes[p].(children := b);
      }
      if b != NONE {
        nodes[b] := nodes[b].(prev := a);
      } else {
        nodes[p] := nodes[p].(lastChild := a);
      }
    }

    /** FsDeleteRecursiveI on a pool s from which some nodes are gone already: it
        ends, and frees exactly the subtree. */
    method DeleteRecursiveI(n: int, ghost s: seq<Node>, ghost t: Shape, ghost loose: int, ghost gone: set<int>)
      requires nodes.Length == |s| && Hanging(s, t, loose) && NotBelow(s, t, loose, n)
      requires nodes[..] == Freed(s, gone) && gone !! Subtree(s, t.depth, n)
      modifies nodes
      ensures nodes[..] == Freed(s, gone + Subtree(s, t.depth, n))
      decreases t.bound - t.depth[n]
    {
      hide Subtree, SubtreeOf, Hanging, NotBelow;
      FirstKid(s, t, loose, n);
      ghost var list := t.kids[n];
      assert nodes[n] == s[n];
      ghost var freed := gone;
      if nodes[n].kind.Directory? {
        var child := nodes[n].children;
        ghost var j := 0;
        while child != NONE
          invariant 0 <= j <= |list| && child == At(list, j)
          invariant freed == gone + SubtreeOf(s, t.depth, list[..j]) && nodes[..] == Freed(s, freed)
          decreases |list| - j
        {
          KidsApart(s, t, loose, n, j);
          KidNotBelow(s, t, loose, n, j);
          SubtreeOfMore(s, t.depth, list, j);
          assert nodes[child] == s[child];
          var next := nodes[child].next;
          DeleteRecursiveI(child, s, t, loose, freed);
          freed := freed + Subtree(s, t.depth, child);
          child, j := next, j + 1;
        }
      }
      assert list[..|list|] == list;
      SubtreeSplits(s, t, loose, n);
      FreeOne(s, freed, n);
      nodes[n] := FREE;
    }

    /** Take on the shape of the pruned tree. */
    ghost method Prune(n: int, s: seq<Node>)
      requires CanCut(s, shape, root, n) && LinksInRange(s, n) && |shape.depth| == |s| == nodes.Length == MAX_FS_NODES
      requires nodes[..] == Pruned(s, shape, n) && ShortNames(s) && nextId < TWO32
      modifies this`shape
      ensures Valid() && |old(shape).kids| == |s| && n in old(shape).kids[s[n].parent]
      ensures shape == PrunedShape(s, old(shape), n)
      ensures DistinctNames(s, old(shape).kids) ==> DistinctNames(nodes[..], shape.kids)
    {
      hide Forest, LinksInRange, Pruned, PrunedShape, ShortNames, DistinctNames, CanCut;
      PruneTree(s, shape, root, n);
      PruneShort(s, shape, root, n);
      PruneDistinct(s, shape, root, n);
      shape := PrunedShape(s, shape, n);
    }

    /** FsDelete: a file or an empty directory, never the root. */
    method Delete(path: CString) returns (rc: int)
      requires Valid()
      modifies this`shape, nodes
      ensures Valid() && (rc == 0 || rc == -1)
      ensures var n := Walk(old(nodes[..]), old(shape.kids), root, Chunks(path, []));
              rc == 0 <==> n != NONE && n != root && Childless(old(nodes[..]), n)
      ensures rc == -1 ==> nodes[..] == old(nodes[..]) && shape == old(shape)
      ensures rc == 0 ==> Removed(old(nodes[..]), old(shape), nodes[..], shape, root,
                                  Walk(old(nodes[..]), old(shape.kids), root, Chunks(path, [])))
      ensures old(DistinctNames(nodes[..], shape.kids)) ==> DistinctNames(nodes[..], shape.kids)
    {
      hide Forest, ShortNames, DistinctNames, Walk, Chunks;
      TreeParts(nodes[..], shape, root);
      var n := Find(path);
      if n != NONE {
        OnlyRootIsTop(nodes[..], shape, root, n);
        ChildrenMean(nodes[..], shape, root, n);
      }
      if n == NONE || nodes[n].parent == NONE { return -1; }
      if nodes[n].kind.Directory? && nodes[n].children != NONE { return -1; }
      ghost var s := nodes[..];
      ChildlessIsLeaf(s, shape, root, n);
      UnlinkNode(n);
      FreeOne(nodes[..], {}, n);
      NothingFreed(nodes[..]);
      nodes[n] := FREE;
      Prune(n, s);
      rc := 0;
    }

    /** FsDeleteRecursive: any node but the root, with all below it. */
    method DeleteRecursive(path: CString) returns (rc: int)
      requires Valid()
      modifies this`shape, nodes
      ensures Valid() && (rc == 0 || rc == -1)
      ensures var n := Walk(old(nodes[..]), old(shape.kids), root, Chunks(path, []));
              rc == -1 <==> n == NONE || n == root
      ensures rc == -1 ==> nodes[..] == old(nodes[..]) && shape == old(shape)
      ensures rc == 0 ==> Removed(old(nodes[..]), old(shape), nodes[..], shape, root,
                                  Walk(old(nodes[..]), old(shape.kids), root, Chunks(path, [])))
      ensures old(DistinctNames(nodes[..], shape.kids)) ==> DistinctNames(nodes[..], shape.kids)
    {
      hide Forest, ShortNames, DistinctNames, Walk, Chunks;
      TreeParts(nodes[..], shape, root);
      var n := Find(path);
      if n == NONE { return -1; }
      OnlyRootIsTop(nodes[..], shape, root, n);
      if nodes[n].parent == NONE { return -1; }
      ghost var s := nodes[..];
      UnlinkNode(n);
      CutReady(s, shape, root, n);
      NothingFreed(nodes[..]);
      DeleteRecursiveI(n, nodes[..], CutShape(shape, s[n].parent, n), n, {});
      Prune(n, s);
      rc := 0;
    }

    // ----- making a directory

    /** FsFindParent: the directory part looked up, the last name copied out. */
    method FindParent(path: CString) returns (p: int, name: CString)
      requires Valid() && (HasLast(path) ==> LastSlash(path) < MAX_PATH)
      ensures p != NONE ==> Live(nodes[..], p) && HasLast(path) && name == Kept(path[LastSlash(path) + 1..])
      ensures HasLast(path) ==> p == Walk(nodes[..], shape.kids, root, Chunks(path[..LastSlash(path)], []))
      ensures !HasLast(path) ==> p == NONE
    {
      hide Forest, Lists, Chunks, Walk, Kept;
      name := "";
      if path == [] || path[0] != '/' { return NONE, name; }
      var last := 0;
      for i := 0 to |path|
        invariant last <= i && last < |path| && path[last] == '/' && forall k :: last < k < i ==> path[k] != '/'
      {
        if path[i] == '/' { last := i; }
      }
      assert last == LastSlash(path) by { LastSlashIs(path, last); }
      if last + 1 == |path| { return NONE, name; }
      KeptIsC(path[last + 1..]);
      name := Kept(path[last + 1..]);
      var parentPath := if last == 0 then "/" else path[..last];
      RootPath(path);
      p := Find(parentPath);
    }

    /** FsMkdir: every path that found a node still finds it. The path itself finds the new
        directory c exactly when its last name is neither "." nor ".." and fits a node. */
    method Mkdir(path: CString) returns (rc: int, ghost c: int)
      requires Valid() && nextId != 0 && (HasLast(path) ==> LastSlash(path) < MAX_PATH)
      modifies this`hint, this`nextId, this`shape, nodes
      ensures Valid() && root == old(root) && (rc == 0 || rc == -1)
      ensures rc == 0 <==> && HasLast(path)
                           && CanAdd(old(nodes[..]), old(shape.kids), root, path)
                           && exists i :: 0 <= i < MAX_FS_NODES && old(nodes[..])[i].id == 0
      ensures rc == -1 ==> nodes[..] == old(nodes[..]) && shape == old(shape)
      ensures rc == 0 ==> Added(old(nodes[..]), old(shape), nodes[..], shape, root, path, c)
      ensures rc == 0 ==> Appended(old(nodes[..]), old(shape), nodes[..], shape, root, c)
      ensures old(DistinctNames(nodes[..], shape.kids)) ==> DistinctNames(nodes[..], shape.kids)
    {
      hide Forest, ShortNames, DistinctNames, Walk, Chunks, Linked, HasName, Kept;
      ghost var s, t, id := nodes[..], shape, nextId;
      TreeParts(s, t, root);
      var p, name := FindParent(path);
      if p == NONE { return -1, NONE; }
      KeptAgain(path[LastSlash(path) + 1..]);
      var node := CreateNode(name, Directory, p);
      if node == NONE { return -1, NONE; }
      MkdirAdds(s, t, root, p, node, path, id);
      AppendedBy(s, t, nodes[..], shape, root, p, node, name, id);
      rc, c := 0, node;
    }

    /** Making a directory and deleting it again leaves every lookup, and every node, as it was. */
    method MkdirThenDelete(path: CString) returns (made: int, gone: int)
      requires Valid() && nextId != 0 && (HasLast(path) ==> LastSlash(path) < MAX_PATH)
      modifies this`hint, this`nextId, this`shape, nodes
      ensures Valid() && root == old(root)
      ensures made == 0 ==> HasLast(path)
      ensures made == 0 && CanBeFound(path[LastSlash(path) + 1..]) ==>
                && gone == 0 && nodes[..] == old(nodes[..])
                && SameFinds(old(nodes[..]), old(shape.kids), nodes[..], shape.kids, root)
    {
      hide Forest, ShortNames, DistinctNames, Walk, Chunks, Linked, CanBeFound, CanAdd, Pruned, PrunedShape;
      gone := -1;
      ghost var s, t := nodes[..], shape;
      TreeParts(s, t, root);
      ghost var c;
      made, c := Mkdir(path);
      if made != 0 || !CanBeFound(path[LastSlash(path) + 1..]) { return; }
      ghost var s', t' := nodes[..], shape;
      AppendedIsLeaf(s, t, s', t', root, c);
      gone := Delete(path);
      AppendThenPrune(s, t, s', t', root, c);
      TreeParts(nodes[..], shape, root);
    }
  }

  /** Node c was free and is now the last child of some directory. */
  ghost predicate Appended(s: seq<Node>, t: Shape, s': seq<Node>, t': Shape, root: int, c: int)
  {
    exists p: int, name: string, id: nat ::
      && CanLink(s, t, root, p, c, id) && |t.kids| == |t.depth| == |s|
      && s' == Linked(s, p, c, name, Directory, id) && t' == GrownShape(t, p, c)
  }

  lemma AppendedBy(s: seq<Node>, t: Shape, s': seq<Node>, t': Shape, root: int, p: int, c: int, name: string, id: nat)
    requires CanLink(s, t, root, p, c, id) && |t.kids| == |t.depth| == |s|
    requires s' == Linked(s, p, c, Kept(name), Directory, id) && t' == GrownShape(t, p, c)
    ensures Appended(s, t, s', t', root, c)
  {
  }

  lemma AppendedIsLeaf(s: seq<Node>, t: Shape, s': seq<Node>, t': Shape, root: int, c: int)
    requires Appended(s, t, s', t', root, c)
    ensures c != root && c != NONE && Childless(s', c)
  {
    var p: int, name: string, id: nat :|
      && CanLink(s, t, root, p, c, id) && |t.kids| == |t.depth| == |s|
      && s' == Linked(s, p, c, name, Directory, id) && t' == GrownShape(t, p, c);
    LinkBasics(s, t, root, p, c, id);
    hide Linked;
    forall m | Live(s', m) ensures s'[m].parent != c {
      LinkedFields(s, p, c, name, Directory, id, m);
      if m != c && m != root { assert Hung(s, t, m); }
    }
  }

  /** Every path finds what it found. */
  ghost predicate SameFinds(s: seq<Node>, kids: seq<seq<int>>, s': seq<Node>, kids': seq<seq<int>>, root: int)
  {
    && |kids| == |s| && |kids'| == |s'|
    && forall path :: Walk(s', kids', root, Chunks(path, [])) == Walk(s, kids, root, Chunks(path, []))
  }

  /** Cutting off the last child just appended gives back nodes and lists. */
  lemma AppendThenPrune(s: seq<Node>, t: Shape, s': seq<Node>, t': Shape, root: int, c: int)
    requires Appended(s, t, s', t', root, c)
    ensures CanCut(s', t', root, c) && LinksInRange(s', c) && |t'.kids| == |t'.depth| == |s'|
    ensures c in t'.kids[s'[c].parent] && Pruned(s', t', c) == s && PrunedShape(s', t', c).kids == t.kids
  {
    var p: int, name: string, id: nat :|
      && CanLink(s, t, root, p, c, id) && |t.kids| == |t.depth| == |s|
      && s' == Linked(s, p, c, name, Directory, id) && t' == GrownShape(t, p, c);
    LinkTree(s, t, root, p, c, name, Directory, id);
    LinkBasics(s, t, root, p, c, id);
    CutBasics(s', t', root, c);
    LeafSubtree(s', t', root, c);
    hide Forest, Subtree, Hung;
    UnlinkRestores(s, t, root, p, c, name, id);
    ShapeRestores(s, t, root, p, c, id);
  }

  lemma UnlinkRestores(s: seq<Node>, t: Shape, root: int, p: int, c: int, name: string, id: nat)
    requires CanLink(s, t, root, p, c, id) && LinksInRange(Linked(s, p, c, name, Directory, id), c)
    ensures Freed(Unlinked(Linked(s, p, c, name, Directory, id), c), {c}) == s
  {
    LinkBasics(s, t, root, p, c, id);
    var l := t.kids[p];
    if l != [] { assert Placed(s, l, p, |l| - 1); }
    assert s[c] == FREE;
    hide Forest;
    var s2 := Freed(Unlinked(Linked(s, p, c, name, Directory, id), c), {c});
    forall i | 0 <= i < |s| ensures s2[i] == s[i] {
    }
  }

  lemma ShapeRestores(s: seq<Node>, t: Shape, root: int, p: int, c: int, id: nat)
    requires CanLink(s, t, root, p, c, id) && |t.kids| == |t.depth| == |s|
    ensures c in GrownShape(t, p, c).kids[p]
    ensures FreedShape(CutShape(GrownShape(t, p, c), p, c), {c}).kids == t.kids
  {
    hide Forest, Without;
    LinkBasics(s, t, root, p, c, id);
    WithoutLast(t.kids[p], c);
    var kids' := GrownShape(t, p, c).kids;
    assert kids'[p] == t.kids[p] + [c];
    assert kids'[p := t.kids[p]] == t.kids;
  }

  lemma WithoutLast(l: seq<int>, c: int)
    requires c !in l
    ensures c in l + [c] && Without(l + [c], c) == l
  {
    assert (l + [c])[|l|] == c;
    forall k | 0 <= k < |l| ensures (l + [c])[k] != c {
      assert l[k] in l;
    }
  }

  /** No node has n for its parent. */
  ghost predicate Childless(s: seq<Node>, n: int)
  {
    forall m :: Live(s, m) ==> s[m].parent != n
  }

  lemma ChildrenMean(s: seq<Node>, t: Shape, root: int, n: int)
    requires Tree(s, t, root) && Live(s, n)
    ensures Childless(s, n) <==> !(s[n].kind.Directory? && s[n].children != NONE)
  {
    assert ListOk(s, t.kids[n], n);
    var first := At(t.kids[n], 0);
    if first != NONE {
      KidFacts(s, t.kids, n, first);
    } else {
      forall m | Live(s, m) ensures s[m].parent != n {
        if m != root { assert Hung(s, t, m); }
      }
    }
  }

  /** Node n and all below it are gone, and nothing else. */
  ghost predicate Removed(s: seq<Node>, t: Shape, s': seq<Node>, t': Shape, root: int, n: int)
  {
    && CanCut(s, t, root, n) && LinksInRange(s, n) && |t.kids| == |t.depth| == |s| && n in t.kids[s[n].parent]
    && s' == Pruned(s, t, n) && t' == PrunedShape(s, t, n)
  }

  lemma PruneShort(s: seq<Node>, t: Shape, root: int, n: int)
    requires CanCut(s, t, root, n) && LinksInRange(s, n) && |t.depth| == |s| && ShortNames(s)
    ensures ShortNames(Pruned(s, t, n))
  {
    hide Forest, LinksInRange, Subtree;
    forall i | 0 <= i < |s| ensures |Pruned(s, t, n)[i].name| <= NAME_KEPT {
      CutFields(s, t, root, n, i);
    }
  }

  lemma PruneDistinct(s: seq<Node>, t: Shape, root: int, n: int)
    requires CanCut(s, t, root, n) && LinksInRange(s, n) && |t.kids| == |t.depth| == |s| && n in t.kids[s[n].parent]
    ensures DistinctNames(s, t.kids) ==> DistinctNames(Pruned(s, t, n), PrunedShape(s, t, n).kids)
  {
    hide Forest;
    var gone := Subtree(s, t.depth, n);
    forall i, c | 0 <= i < |s| && i !in gone && c in CutShape(t, s[n].parent, n).kids[i] ensures c !in gone {
      KidsStay(s, t, root, n, i, c);
    }
    if DistinctNames(s, t.kids) { CutDistinct(s, t, root, n, gone); }
  }

  lemma OnlyRootIsTop(s: seq<Node>, t: Shape, root: int, n: int)
    requires Tree(s, t, root) && Live(s, n)
    ensures s[n].parent == NONE <==> n == root
  {
    if n != root { assert Hung(s, t, n); }
  }

  lemma ChildlessIsLeaf(s: seq<Node>, t: Shape, root: int, n: int)
    requires Tree(s, t, root) && Live(s, n) && s[n].parent != NONE
    requires !(s[n].kind.Directory? && s[n].children != NONE)
    ensures n != root && |t.depth| == |s| && Subtree(s, t.depth, n) == {n}
  {
    assert ListOk(s, t.kids[n], n);
    LeafSubtree(s, t, root, n);
  }

  lemma NothingFreed(s: seq<Node>)
    ensures Freed(s, {}) == s
  {
  }

  /** The pool with n cut loose is ready for the recursive deletion. */
  lemma CutReady(s: seq<Node>, t: Shape, root: int, n: int)
    requires CanCut(s, t, root, n)
    ensures LinksInRange(s, n) && |t.kids| == |t.depth| == |s| && n in t.kids[s[n].parent]
    ensures var s', t' := Unlinked(s, n), CutShape(t, s[n].parent, n);
            && Hanging(s', t', n) && NotBelow(s', t', n, n)
            && Subtree(s', t'.depth, n) == Subtree(s, t.depth, n)
            && {} + Subtree(s, t.depth, n) == Subtree(s, t.depth, n)
  {
    CutForest(s, t, root, n);
    SameSubtree(s, t, root, n);
    CutFields(s, t, root, n, n);
    ForestHangs(Unlinked(s, n), CutShape(t, s[n].parent, n), root, n);
  }

  // ----- lookups after a deletion

  /** Names lead downwards. */
  lemma {:induction false} WalkBelow(s: seq<Node>, t: Shape, root: int, cur: int, cs: seq<string>)
    requires Tree(s, t, root) && Live(s, cur) && AllNamed(cs) && Walk(s, t.kids, cur, cs) != NONE
    ensures |t.depth| == |s| && Under(s, t.depth, Walk(s, t.kids, cur, cs), cur)
    decreases |cs|
  {
    if cs != [] {
      var c := Move(s, t.kids, cur, cs[0]);
      assert Named(cs[0]);
      KidFacts(s, t.kids, cur, c);
      WalkBelow(s, t, root, c, cs[1..]);
      WalkLive(s, t, root, c, cs[1..]);
      ForestHangs(s, t, root, NONE);
      KidUnder(s, t, NONE, Walk(s, t.kids, cur, cs), cur, c);
    }
  }

  lemma {:induction false} ChildWithout(s: seq<Node>, a: seq<int>, n: int, b: seq<int>, name: string)
    requires Child(s, a + [n] + b, name) != n
    ensures Child(s, a + b, name) == Child(s, a + [n] + b, name)
  {
    if a == [] {
      assert a + b == b && (a + [n] + b)[1..] == b;
    } else {
      assert (a + b)[1..] == a[1..] + b && (a + [n] + b)[1..] == a[1..] + [n] + b;
      if !(0 <= a[0] < |s| && s[a[0]].name == name) { ChildWithout(s, a[1..], n, b, name); }
    }
  }

  lemma {:induction false} ChildSame(s: seq<Node>, s': seq<Node>, list: seq<int>, name: string)
    requires |s| == |s'| && forall i :: 0 <= i < |s| && i in list ==> s'[i].name == s[i].name
    ensures Child(s', list, name) == Child(s, list, name)
  {
    if list != [] { ChildSame(s, s', list[1..], name); }
  }

  lemma ChildSurvives(s: seq<Node>, t: Shape, root: int, n: int, cur: int, name: string)
    requires CanCut(s, t, root, n) && Live(s, cur) && LinksInRange(s, n) && |t.kids| == |t.depth| == |s|
    requires n in t.kids[s[n].parent] && !Under(s, t.depth, cur, n) && Child(s, t.kids[cur], name) != n
    ensures Child(Pruned(s, t, n), PrunedShape(s, t, n).kids[cur], name) == Child(s, t.kids[cur], name)
  {
    var l, l' := t.kids[cur], CutShape(t, s[n].parent, n).kids[cur];
    PrunedKids(s, t, root, n, cur);
    hide Forest, LinksInRange, Under, Pruned, PrunedShape, Subtree, Child;
    ChildSame(s, Pruned(s, t, n), l', name);
    if cur == s[n].parent { ChildOfWithout(s, l, n, name); }
  }

  lemma ChildOfWithout(s: seq<Node>, list: seq<int>, n: int, name: string)
    requires n in list && Child(s, list, name) != n
    ensures Child(s, Without(list, n), name) == Child(s, list, name)
  {
    var j := Position(list, n);
    assert list == list[..j] + [n] + list[j + 1..];
    ChildWithout(s, list[..j], n, list[j + 1..], name);
  }

  lemma PrunedKids(s: seq<Node>, t: Shape, root: int, n: int, cur: int)
    requires CanCut(s, t, root, n) && Live(s, cur) && LinksInRange(s, n) && |t.kids| == |t.depth| == |s|
    requires n in t.kids[s[n].parent] && !Under(s, t.depth, cur, n)
    ensures PrunedShape(s, t, n).kids[cur] == CutShape(t, s[n].parent, n).kids[cur]
    ensures |Pruned(s, t, n)| == |s|
    ensures forall i :: 0 <= i < |s| && i in CutShape(t, s[n].parent, n).kids[cur] ==>
              Pruned(s, t, n)[i].name == s[i].name
  {
    TreeParts(s, t, root);
    hide Forest, LinksInRange, Under, CutShape;
    forall i | 0 <= i < |s| && i in CutShape(t, s[n].parent, n).kids[cur] ensures Pruned(s, t, n)[i].name == s[i].name {
      KidsStay(s, t, root, n, cur, i);
      KidFacts(s, t.kids, cur, i);
      PruneLive(s, t, root, n, i);
    }
  }

  /** A path of names to a node outside the removed subtree still leads there. */
  lemma {:induction false} WalkSurvives(s: seq<Node>, t: Shape, root: int, n: int, cur: int, cs: seq<string>)
    requires CanCut(s, t, root, n) && Live(s, cur) && LinksInRange(s, n) && |t.kids| == |t.depth| == |s|
    requires n in t.kids[s[n].parent] && !Under(s, t.depth, cur, n) && AllNamed(cs)
    requires Walk(s, t.kids, cur, cs) != NONE && !Under(s, t.depth, Walk(s, t.kids, cur, cs), n)
    ensures Walk(Pruned(s, t, n), PrunedShape(s, t, n).kids, cur, cs) == Walk(s, t.kids, cur, cs)
    decreases |cs|
  {
    if cs != [] {
      var c := Move(s, t.kids, cur, cs[0]);
      assert Named(cs[0]);
      MoveLive(s, t, root, cur, cs[0]);
      WalkBelow(s, t, root, c, cs[1..]);
      if Under(s, t.depth, c, n) {
        UnderTrans(s, t.depth, Walk(s, t.kids, cur, cs), c, n);
      }
      ChildSurvives(s, t, root, n, cur, cs[0]);
      WalkSurvives(s, t, root, n, c, cs[1..]);
    }
  }

  /** No path leads to a removed node. */
  lemma RemovedIsGone(s: seq<Node>, t: Shape, root: int, n: int, cs: seq<string>)
    requires CanCut(s, t, root, n)
    ensures LinksInRange(s, n) && |t.kids| == |t.depth| == |s| && n in t.kids[s[n].parent]
    ensures !Under(s, t.depth, Walk(Pruned(s, t, n), PrunedShape(s, t, n).kids, root, cs), n)
  {
    PruneTree(s, t, root, n);
    var s', t' := Pruned(s, t, n), PrunedShape(s, t, n);
    TreeParts(s', t', root);
    WalkLive(s', t', root, root, cs);
    PruneLive(s, t, root, n, Walk(s', t'.kids, root, cs));
  }

  // ----- the last name of a path

  function LastSlash(path: string): (k: nat)
    requires path != [] && path[0] == '/'
    ensures k < |path| && path[k] == '/' && forall i :: k < i < |path| ==> path[i] != '/'
  {
    if path[|path| - 1] == '/' then |path| - 1 else LastSlash(path[..|path| - 1])
  }

  lemma LastSlashIs(path: string, k: nat)
    requires path != [] && path[0] == '/' && k < |path| && path[k] == '/'
             && forall i :: k < i < |path| ==> path[i] != '/'
    ensures k == LastSlash(path)
  {
  }

  /** An absolute path that does not end in a slash. */
  predicate HasLast(path: string)
  {
    path != [] && path[0] == '/' && path[|path| - 1] != '/'
  }

  lemma KeptIsC(name: CString)
    ensures forall i :: 0 <= i < |Kept(name)| ==> Kept(name)[i] != '\0'
  {
  }

  lemma KeptAgain(name: string)
    ensures Kept(Kept(name)) == Kept(name) && |Kept(name)| <= NAME_KEPT
  {
  }

  lemma RootPath(path: string)
    requires path != [] && path[0] == '/'
    ensures LastSlash(path) == 0 ==> Chunks("/", []) == Chunks(path[..LastSlash(path)], [])
  {
    assert "/"[1..] == "";
  }

  /** Whatever was found is still found. */
  ghost predicate KeepsFinds(s: seq<Node>, kids: seq<seq<int>>, s': seq<Node>, kids': seq<seq<int>>, root: int)
    requires |kids| == |s| && |kids'| == |s'|
  {
    forall cs :: Walk(s, kids, root, cs) != NONE ==> Walk(s', kids', root, cs) == Walk(s, kids, root, cs)
  }

  /** Directory c is added for the path, and whatever was found is still found. */
  ghost predicate Added(s: seq<Node>, t: Shape, s': seq<Node>, t': Shape, root: int, path: string, c: int)
  {
    && |s| == |s'| == |t.kids| == |t'.kids| && HasLast(path)
    && KeepsFinds(s, t.kids, s', t'.kids, root)
    && IsNewDirectory(s, s', c, Kept(path[LastSlash(path) + 1..]))
    && (Walk(s', t'.kids, root, Chunks(path, [])) == c <==> CanBeFound(path[LastSlash(path) + 1..]))
  }

  ghost predicate IsNewDirectory(s: seq<Node>, s': seq<Node>, c: int, name: string)
  {
    !Live(s, c) && Live(s', c) && s'[c].kind.Directory? && s'[c].name == name
  }

  /** A lookup matches the name against nodes, and it is stored whole. */
  predicate CanBeFound(name: string)
  {
    Named(name) && |name| <= NAME_KEPT
  }

  /** The path's directory part is a directory without the last name. */
  ghost predicate CanAdd(s: seq<Node>, kids: seq<seq<int>>, root: int, path: string)
    requires |kids| == |s| && HasLast(path)
  {
    var p := Walk(s, kids, root, Chunks(path[..LastSlash(path)], []));
    0 <= p < |s| && s[p].kind.Directory? && !HasName(s, kids[p], Kept(path[LastSlash(path) + 1..]))
  }

  lemma MkdirAdds(s: seq<Node>, t: Shape, root: int, p: int, c: int, path: string, id: nat)
    requires CanLink(s, t, root, p, c, id) && HasLast(path) && |t.kids| == |t.depth| == |s| && ShortNames(s)
    requires p == Walk(s, t.kids, root, Chunks(path[..LastSlash(path)], []))
    requires !HasName(s, t.kids[p], Kept(path[LastSlash(path) + 1..]))
    ensures var name := Kept(path[LastSlash(path) + 1..]);
            Added(s, t, Linked(s, p, c, name, Directory, id), GrownShape(t, p, c), root, path, c)
  {
    hide Forest, Linked, Walk, Chunks, HasName, LastSlash, KeepsFinds, Named, Kept, ShortNames;
    var last := path[LastSlash(path) + 1..];
    WalksKept(s, t, root, p, c, Kept(last), id);
    NewDirectory(s, t, root, p, c, Kept(last), id);
    MkdirFinds(s, t, root, p, c, path, id);
    if Walk(s, t.kids, root, Chunks(path, [])) != NONE {
      TreeParts(s, t, root);
      WalkLive(s, t, root, root, Chunks(path, []));
    }
  }

  lemma NewDirectory(s: seq<Node>, t: Shape, root: int, p: int, c: int, name: string, id: nat)
    requires CanLink(s, t, root, p, c, id)
    ensures IsNewDirectory(s, Linked(s, p, c, name, Directory, id), c, name)
  {
    LinkBasics(s, t, root, p, c, id);
    LinkedFields(s, p, c, name, Directory, id, c);
  }

  /** What the path finds afterwards: nothing if its last name is too long to be stored, the new
      node if the name can be matched, and what it found before if it is "." or "..". */
  lemma MkdirFinds(s: seq<Node>, t: Shape, root: int, p: int, c: int, path: string, id: nat)
    requires CanLink(s, t, root, p, c, id) && HasLast(path) && |t.kids| == |t.depth| == |s| && ShortNames(s)
    requires p == Walk(s, t.kids, root, Chunks(path[..LastSlash(path)], []))
    requires !HasName(s, t.kids[p], Kept(path[LastSlash(path) + 1..]))
    ensures var last := path[LastSlash(path) + 1..];
            var found := Walk(Linked(s, p, c, Kept(last), Directory, id),
                                GrownShape(t, p, c).kids, root, Chunks(path, []));
            && (|last| > NAME_KEPT ==> found == NONE)
            && (CanBeFound(last) ==> found == c)
            && (!Named(last) ==> found == Walk(s, t.kids, root, Chunks(path, [])) != NONE)
  {
    hide Forest, Linked, Walk, Chunks, HasName, LastSlash, Named, ShortNames, Move;
    var dir, last := path[..LastSlash(path)], path[LastSlash(path) + 1..];
    LastProper(path);
    TreeParts(s, t, root);
    if |last| > NAME_KEPT {
      LinkShort(s, t, root, p, c, Kept(last), id);
      LongIsLost(Linked(s, p, c, Kept(last), Directory, id), GrownShape(t, p, c).kids, root, path);
    } else {
      LastChunk(path);
      if Named(last) {
        FindsNew(s, t, root, p, c, Chunks(dir, []), last, id);
      }
    }
    if !Named(last) {
      DotsFind(s, t.kids, root, p, Chunks(dir, []), last);
      WalkGrows(s, t, root, p, c, Kept(last), Directory, id, root, Chunks(path, []));
    }
  }

  lemma LastProper(path: string)
    requires HasLast(path)
    ensures Proper(path[LastSlash(path) + 1..])
    ensures !Named(path[LastSlash(path) + 1..]) ==> |path[LastSlash(path) + 1..]| <= 2 <= NAME_KEPT
  {
  }

  lemma LinkShort(s: seq<Node>, t: Shape, root: int, p: int, c: int, name: string, id: nat)
    requires CanLink(s, t, root, p, c, id) && ShortNames(s) && |name| <= NAME_KEPT
    ensures ShortNames(Linked(s, p, c, name, Directory, id))
  {
    LinkBasics(s, t, root, p, c, id);
    hide Forest, Linked;
    forall i | 0 <= i < |s| ensures |Linked(s, p, c, name, Directory, id)[i].name| <= NAME_KEPT {
      LinkedFields(s, p, c, name, Directory, id, i);
    }
  }

  /** "." and ".." lead somewhere from every node. */
  lemma DotsFind(s: seq<Node>, kids: seq<seq<int>>, root: int, p: int, dir: seq<string>, last: string)
    requires |kids| == |s| && root != NONE && p == Walk(s, kids, root, dir) && 0 <= p < |s|
    requires Proper(last) && !Named(last)
    ensures Walk(s, kids, root, dir + [last]) != NONE
  {
    hide Walk;
    WalkJoin(s, kids, root, dir, [last]);
    WalkOne(s, kids, p, last);
  }

  /** No path with a last name that no node can hold finds anything. */
  lemma LongIsLost(s: seq<Node>, kids: seq<seq<int>>, root: int, path: string)
    requires |kids| == |s| && ShortNames(s) && HasLast(path) && |path[LastSlash(path) + 1..]| > NAME_KEPT
    ensures Walk(s, kids, root, Chunks(path, [])) == NONE
  {
    hide Walk, Chunks, LastSlash, ShortNames;
    var k := LastSlash(path);
    if Walk(s, kids, root, Chunks(path, [])) != NONE {
      var cs := Chunks(path, []);
      FoundIsShort(s, kids, root, cs);
      assert cs != [] ==> |cs[|cs| - 1]| < COMPONENT_MAX;
      NothingSplit(path, []);
      LastProper(path);
      assert path == path[..k] + ("/" + path[k + 1..]);
      ComponentsLast(path[..k], [], path[k + 1..]);
    }
  }

  lemma WalksKept(s: seq<Node>, t: Shape, root: int, p: int, c: int, name: string, id: nat)
    requires CanLink(s, t, root, p, c, id) && |t.kids| == |t.depth| == |s|
    ensures KeepsFinds(s, t.kids, Linked(s, p, c, name, Directory, id), GrownShape(t, p, c).kids, root)
  {
    TreeParts(s, t, root);
    hide Forest, Linked, Walk, GrownShape;
    forall cs | Walk(s, t.kids, root, cs) != NONE
      ensures Walk(Linked(s, p, c, name, Directory, id), GrownShape(t, p, c).kids, root, cs)
              == Walk(s, t.kids, root, cs)
    {
      WalkGrows(s, t, root, p, c, name, Directory, id, root, cs);
    }
  }

  lemma LastChunk(path: string)
    requires HasLast(path) && |path[LastSlash(path) + 1..]| <= NAME_KEPT
    ensures Chunks(path, []) == Chunks(path[..LastSlash(path)], []) + [path[LastSlash(path) + 1..]]
  {
    LastProper(path);
    hide Chunks, LastSlash;
    var k := LastSlash(path);
    assert path == path[..k] + ("/" + path[k + 1..]);
    ChunksLast(path[..k], [], path[k + 1..]);
  }

  lemma FindsNew(s: seq<Node>, t: Shape, root: int, p: int, c: int, dir: seq<string>, last: string, id: nat)
    requires CanLink(s, t, root, p, c, id) && |t.kids| == |t.depth| == |s| && p == Walk(s, t.kids, root, dir)
    requires !HasName(s, t.kids[p], last) && Named(last)
    ensures var s', t' := Linked(s, p, c, last, Directory, id), GrownShape(t, p, c);
            && Walk(s', t'.kids, root, dir + [last]) == c && Live(s', c) && !Live(s, c)
            && s'[c].kind.Directory? && s'[c].name == last
  {
    var s', t' := Linked(s, p, c, last, Directory, id), GrownShape(t, p, c);
    TreeParts(s, t, root);
    LinkBasics(s, t, root, p, c, id);
    LinkedFields(s, p, c, last, Directory, id, c);
    NewChild(s, t, root, p, c, last, id);
    hide Forest, Linked, Walk, HasName, GrownShape, Move, Named;
    WalkGrows(s, t, root, p, c, last, Directory, id, root, dir);
    WalkJoin(s', t'.kids, root, dir, [last]);
    WalkOne(s', t'.kids, p, last);
  }

  /** The new node is found under its parent. */
  lemma NewChild(s: seq<Node>, t: Shape, root: int, p: int, c: int, name: string, id: nat)
    requires CanLink(s, t, root, p, c, id) && |t.kids| == |t.depth| == |s|
    requires !HasName(s, t.kids[p], name) && Named(name)
    ensures Move(Linked(s, p, c, name, Directory, id), GrownShape(t, p, c).kids, p, name) == c
  {
    var s' := Linked(s, p, c, name, Directory, id);
    TreeParts(s, t, root);
    LinkBasics(s, t, root, p, c, id);
    hide Forest, Linked, HasName;
    KidsInRange(s, t.kids, p);
    ChildIsName(s, t.kids[p], name);
    forall i | 0 <= i < |s| ensures s'[i].name == if i == c then name else s[i].name {
      LinkedFields(s, p, c, name, Directory, id, i);
    }
    ChildGrows(s, s', t.kids[p], c, name);
    assert GrownShape(t, p, c).kids[p] == t.kids[p] + [c];
  }

  // ----- lookup and the path resolver

  /** Resolving an absolute path against "/" and looking the result up finds the same node. */
  lemma ResolveFindsSame(s: seq<Node>, t: Shape, root: int, work: string, path: CString)
    requires Tree(s, t, root) && ShortNames(s) && path != [] && path[0] == '/' && |path| < PathResolver.WORK_SIZE
    requires Walk(s, t.kids, root, Chunks(path, [])) != NONE
    ensures Walk(s, t.kids, root, Chunks(Normal(PathResolver.Effective(work, "/", path)), []))
            == Walk(s, t.kids, root, Chunks(path, []))
  {
    PathResolver.AbsoluteIsKept(work, "/", path);
    NormalFindsSame(s, t, root, path);
  }

  /** The text of a buffer up to its NUL. */
  method TextOf(buffer: array<char>, ghost t: string) returns (r: CString)
    requires PathResolver.Holds(buffer[..], t) && PathResolver.NUL !in t
    ensures r == t
  {
    var i := 0;
    assert forall k :: 0 <= k < |t| ==> buffer[k] == buffer[..|t|][k] == t[k] && t[k] in t;
    while buffer[i] != PathResolver.NUL
      invariant i <= |t| && PathResolver.NUL !in buffer[..i]
      decreases |t| - i
    {
      i := i + 1;
    }
    assert forall k :: 0 <= k < i ==> buffer[..i][k] != PathResolver.NUL;
    r := buffer[..i];
    assert r == t;
  }

  /** A path given in a working directory finds what walking from that directory finds. */
  method FindFrom(fs: FileSystem, resolver: PathResolver.Resolver, currentDir: CString, input: CString) returns (m: int)
    requires fs.Valid() && resolver.Valid()
    modifies resolver.work
    ensures |fs.shape.kids| == |fs.nodes[..]|
    ensures PathResolver.RelativeFits(currentDir, input) ==>
              var s, kids := fs.nodes[..], fs.shape.kids;
              var n := Walk(s, kids, fs.root, Chunks(currentDir, []));
              n != NONE && Walk(s, kids, n, Chunks(input, [])) != NONE ==> m == Walk(s, kids, n, Chunks(input, []))
    ensures input != [] && input[0] == '/' && |input| < 512 ==>
              var n := Walk(fs.nodes[..], fs.shape.kids, fs.root, Chunks(input, []));
              n != NONE ==> m == n
  {
    hide Forest, ShortNames, Walk, Chunks, PathResolver.RelativeFits, PathResolver.Effective, Normal, Join, NamesFrom;
    TreeParts(fs.nodes[..], fs.shape, fs.root);
    ghost var work, s, t := resolver.work[..], fs.nodes[..], fs.shape;
    var output := new char[512];
    resolver.ResolvePathH(currentDir, input, output);
    PathResolver.NoNul(work, currentDir, input);
    var path := TextOf(output, Normal(PathResolver.Effective(work, currentDir, input)));
    m := fs.Find(path);
    if PathResolver.RelativeFits(currentDir, input) {
      PathResolver.RelativeNames(work, currentDir, input);
      ghost var n := Walk(s, t.kids, fs.root, Chunks(currentDir, []));
      if n != NONE && Walk(s, t.kids, n, Chunks(input, [])) != NONE {
        RelativeFindsSame(s, t, fs.root, currentDir, input);
      }
    }
    if input != [] && input[0] == '/' && |input| < 512 {
      PathResolver.FullOfAbsolute(currentDir, input);
      PathResolver.AbsoluteIsKept(work, currentDir, input);
      if Walk(s, t.kids, fs.root, Chunks(input, [])) != NONE { NormalFindsSame(s, t, fs.root, input); }
    }
  }

  /** A directory made under a name that no lookup matches: "." and "..", and every name of
      more than 62 characters. The call succeeds, and the path does not find what it made. */
  method HiddenDirectory(last: CString) returns (fs: FileSystem, rc: int, ghost c: int)
    requires Proper(last) && !CanBeFound(last)
    ensures fresh(fs) && fs.Valid() && rc == 0 && Live(fs.nodes[..], c) && fs.nodes[..][c].kind.Directory?
    ensures |fs.shape.kids| == |fs.nodes[..]| && Walk(fs.nodes[..], fs.shape.kids, fs.root, Chunks("/" + last, [])) != c
  {
    hide Forest, ShortNames, DistinctNames, Walk, Chunks, Kept, CanBeFound;
    fs := new FileSystem();
    ghost var s, t := fs.nodes[..], fs.shape;
    TreeParts(s, t, fs.root);
    FreeSlots(s, fs.root);
    UnderRoot(s, t, fs.root, last);
    rc, c := fs.Mkdir("/" + last);
    TreeParts(fs.nodes[..], fs.shape, fs.root);
  }

  lemma UnderRoot(s: seq<Node>, t: Shape, root: int, last: string)
    requires |t.kids| == |s| && 0 <= root < |s| && s[root].kind.Directory? && t.kids[root] == [] && Proper(last)
    ensures var path := "/" + last;
            HasLast(path) && LastSlash(path) == 0 && path[1..] == last && CanAdd(s, t.kids, root, path)
  {
    var path := "/" + last;
    LastSlashIs(path, 0);
    assert path[..0] == [];
    assert Walk(s, t.kids, root, []) == root;
  }

  lemma TreeParts(s: seq<Node>, t: Shape, root: int)
    requires Tree(s, t, root)
    ensures Lists(s, t.kids) && |t.kids| == |t.depth| == |s| && Live(s, root) && s[root].parent == NONE
  {
  }

  /** Two names of 63 characters that agree in 62: both are created under the root, as
      siblings of one name. Only a direct call does this; FindParent cuts the names it passes on. */
  method LongNamesCollide() returns (fs: FileSystem, a: int, b: int)
    ensures fresh(fs) && fs.Valid() && a != NONE && b != NONE && a != b
    ensures |fs.shape.kids| == |fs.nodes[..]| && !DistinctNames(fs.nodes[..], fs.shape.kids)
  {
    hide Forest, Linked, ShortNames, DistinctNames;
    var long := seq(NAME_KEPT, _ => 'a');
    fs := new FileSystem();
    ghost var s0, t0 := fs.nodes[..], fs.shape;
    TreeParts(s0, t0, fs.root);
    FreeSlots(s0, fs.root);
    a := fs.CreateNode(long + "b", File, fs.root);
    ghost var s1 := fs.nodes[..];
    KeptOf(long, "b");
    KeptOf(long, "c");
    AfterFirst(s0, t0, fs.root, a, long, s1);
    b := fs.CreateNode(long + "c", File, fs.root);
    TreeParts(fs.nodes[..], fs.shape, fs.root);
  }

  lemma FreeSlots(s: seq<Node>, root: int)
    requires |s| == MAX_FS_NODES && forall i :: Live(s, i) <==> i == root
    ensures exists i :: 0 <= i < MAX_FS_NODES && s[i].id == 0
  {
    var i := if root == 0 then 1 else 0;
    assert !Live(s, i);
  }

  lemma KeptOf(name: string, more: string)
    requires |name| == NAME_KEPT && |more| > 0
    ensures Kept(name + more) == name && name + more != name
  {
    assert (name + more)[..NAME_KEPT] == name;
  }

  /** After the first creation: one child, found under the name it keeps, and room for another. */
  lemma AfterFirst(s: seq<Node>, t: Shape, root: int, a: int, name: string, s': seq<Node>)
    requires |s| == MAX_FS_NODES && |t.kids| == |t.depth| == |s| && CanLink(s, t, root, root, a, 2)
             && t.kids[root] == []
    requires s' == Linked(s, root, a, name, File, 2) && forall i :: Live(s, i) <==> i == root
    ensures GrownShape(t, root, a).kids[root] == [a] && HasName(s', [a], name) && s'[a].name == name && s'[a].id == 2
    ensures s'[root].kind.Directory? && Live(s', root)
    ensures exists i :: 0 <= i < MAX_FS_NODES && s'[i].id == 0
  {
    LinkBasics(s, t, root, root, a, 2);
    var i := if 2 !in {root, a} then 2 else if 1 !in {root, a} then 1 else 0;
    assert !Live(s, i) && i != a;
    LinkedFields(s, root, a, name, File, 2, i);
    LinkedFields(s, root, a, name, File, 2, a);
    LinkedFields(s, root, a, name, File, 2, root);
    assert [] + [a] == [a];
    assert [a][0] == a;
  }

  lemma WholePath(s: seq<Node>, kids: seq<seq<int>>, root: int, path: string)
    requires |kids| == |s|
    ensures path == "/" ==> Walk(s, kids, root, Chunks(path, [])) == root
    ensures path[0..] == path
  {
    if path == "/" { assert path[1..] == []; }
  }

  lemma WalkStep(s: seq<Node>, kids: seq<seq<int>>, cur: int, c: string, cs: seq<string>)
    requires |kids| == |s|
    ensures var m := Move(s, kids, cur, c);
            Walk(s, kids, cur, [c] + cs) == if m == NONE then NONE else Walk(s, kids, m, cs)
  {
    assert ([c] + cs)[1..] == cs;
  }

  lemma PathOver(s: seq<Node>, kids: seq<seq<int>>, cur: int, path: string, p: nat)
    requires |kids| == |s| && p == |path|
    ensures Walk(s, kids, cur, Chunks(path[p..], [])) == cur
  {
  }

  lemma KidsInRange(s: seq<Node>, kids: seq<seq<int>>, p: int)
    requires Lists(s, kids) && 0 <= p < |s|
    ensures forall j :: 0 <= j < |kids[p]| ==> 0 <= kids[p][j] < |s|
  {
    forall j | 0 <= j < |kids[p]| ensures 0 <= kids[p][j] < |s| {
      KidFacts(s, kids, p, kids[p][j]);
    }
  }

  lemma {:induction false} ChildIsName(s: seq<Node>, list: seq<int>, name: string)
    requires forall j :: 0 <= j < |list| ==> 0 <= list[j] < |s|
    ensures Child(s, list, name) != NONE <==> HasName(s, list, name)
  {
    if list != [] {
      ChildIsName(s, list[1..], name);
      if HasName(s, list, name) && s[list[0]].name != name {
        var j :| 0 <= j < |list| && s[list[j]].name == name;
        assert list[1..][j - 1] == list[j];
      }
      if HasName(s, list[1..], name) {
        var j :| 0 <= j < |list[1..]| && s[list[1..][j]].name == name;
        assert list[j + 1] == list[1..][j];
      }
    }
  }
}
