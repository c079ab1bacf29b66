/** The node pool of fs/VFRFS.c as a value: a fixed table of nodes whose parent,
    child and sibling links form a tree. Links are slot numbers. */
module NodePool {

  const MAX_FS_NODES: nat := 128
  const NONE: int := -1

  datatype Kind = File | Directory

  datatype Node = Node(name: string, kind: Kind, parent: int, children: int, lastChild: int,
                       next: int, prev: int, id: nat)

  /** A slot cleared by FastMemset. */
  const FREE: Node := Node("", File, NONE, NONE, NONE, NONE, NONE, 0)

  predicate Live(s: seq<Node>, i: int)
  {
    0 <= i < |s| && s[i].id != 0
  }

  function At(list: seq<int>, j: int): int
  {
    if 0 <= j < |list| then list[j] else NONE
  }

  // ----- the shape behind the links

  /** The j-th child of i is linked both ways and back to its parent. */
  ghost predicate Placed(s: seq<Node>, list: seq<int>, i: int, j: int)
    requires 0 <= j < |list|
  {
    && Live(s, list[j]) && s[list[j]].parent == i
    && s[list[j]].prev == At(list, j - 1) && s[list[j]].next == At(list, j + 1)
  }

  /** The links of node i spell out the list of its children. */
  ghost predicate ListOk(s: seq<Node>, list: seq<int>, i: int)
    requires 0 <= i < |s|
  {
    && s[i].children == At(list, 0) && s[i].lastChild == At(list, |list| - 1)
    && (s[i].kind.File? || s[i].id == 0 ==> list == [])
    && (forall j :: 0 <= j < |list| ==> Placed(s, list, i, j))
    && (forall j, k :: 0 <= j < k < |list| ==> list[j] != list[k])
  }

  ghost predicate Lists(s: seq<Node>, kids: seq<seq<int>>)
  {
    && |kids| == |s|
    && (forall i :: 0 <= i < |s| ==> ListOk(s, kids[i], i))
    && (forall i :: 0 <= i < |s| && s[i].id == 0 ==> s[i] == FREE)
  }

  /** The lists of children, how deep each node lies, and a bound on that. */
  datatype Shape = Shape(kids: seq<seq<int>>, depth: seq<nat>, bound: nat)

  /** Node i is in its parent's list, one level down. */
  ghost predicate Hung(s: seq<Node>, t: Shape, i: int)
    requires Live(s, i) && |t.kids| == |t.depth| == |s|
  {
    var p := s[i].parent;
    Live(s, p) && i in t.kids[p] && t.depth[i] == t.depth[p] + 1
  }

  /** A tree at the root, beside a loose node cut from its parent's list. */
  ghost predicate Forest(s: seq<Node>, t: Shape, root: int, loose: int)
  {
    && Lists(s, t.kids) && |t.depth| == |s|
    && Live(s, root) && s[root].parent == NONE && s[root].kind.Directory? && t.depth[root] == 0
    && (forall i :: Live(s, i) && i != root && i != loose ==> Hung(s, t, i))
    && (forall i :: Live(s, i) ==> t.depth[i] < t.bound)
    && (forall i :: 0 <= i < |s| ==> loose !in t.kids[i])
  }

  ghost predicate Tree(s: seq<Node>, t: Shape, root: int)
  {
    Forest(s, t, root, NONE)
  }

  lemma KidFacts(s: seq<Node>, kids: seq<seq<int>>, i: int, c: int)
    requires Lists(s, kids) && 0 <= i < |s| && c in kids[i]
    ensures Live(s, c) && s[c].parent == i && Live(s, i) && s[i].kind.Directory?
  {
    assert ListOk(s, kids[i], i);
    var j :| 0 <= j < |kids[i]| && kids[i][j] == c;
    assert Placed(s, kids[i], i, j);
  }

  // ----- linking a new node

  function NewNode(s: seq<Node>, p: int, name: string, kind: Kind, id: nat): Node
    requires 0 <= p < |s|
  {
    Node(name, kind, p, NONE, NONE, NONE, s[p].lastChild, id)
  }

  /** The pool once node c is the last child of p. */
  function Linked(s: seq<Node>, p: int, c: int, name: string, kind: Kind, id: nat): (s': seq<Node>)
    requires 0 <= p < |s| && 0 <= c < |s|
    ensures |s'| == |s|
  {
    var last := s[p].lastChild;
    var s1 := s[c := NewNode(s, p, name, kind, id)];
    if last == NONE || !(0 <= last < |s|) then s1[p := s1[p].(children := c, lastChild := c)]
    else
      var s2 := s1[last := s1[last].(next := c)];
      s2[p := s2[p].(lastChild := c)]
  }

  function GrownShape(t: Shape, p: int, c: int): Shape
    requires |t.kids| == |t.depth| && 0 <= p < |t.kids| && 0 <= c < |t.kids|
  {
    var d := t.depth[p] + 1;
    Shape(t.kids[p := t.kids[p] + [c]], t.depth[c := d], if t.bound < d + 1 then d + 1 else t.bound)
  }

  /** Slot c is free and p is a directory of the tree. */
  ghost predicate CanLink(s: seq<Node>, t: Shape, root: int, p: int, c: int, id: nat)
  {
    && Tree(s, t, root) && Live(s, p) && s[p].kind.Directory? && 0 <= c < |s| && s[c].id == 0 && id != 0
  }

  lemma LinkBasics(s: seq<Node>, t: Shape, root: int, p: int, c: int, id: nat)
    requires CanLink(s, t, root, p, c, id)
    ensures t.kids[c] == [] && c != p && ListOk(s, t.kids[p], p) && |t.kids| == |t.depth| == |s|
    ensures t.kids[p] != [] ==> Live(s, s[p].lastChild) && s[s[p].lastChild].parent == p
    ensures s[p].lastChild == At(t.kids[p], |t.kids[p]| - 1) != c && s[p].lastChild != p
    ensures forall i :: 0 <= i < |s| ==> c !in t.kids[i]
  {
    assert ListOk(s, t.kids[c], c) && ListOk(s, t.kids[p], p);
    var l := t.kids[p];
    if l != [] {
      assert Placed(s, l, p, |l| - 1);
      if s[p].lastChild == p { SelfParent(s, t, root, p); }
    }
    forall i | 0 <= i < |s| ensures c !in t.kids[i] {
      if c in t.kids[i] { KidFacts(s, t.kids, i, c); }
    }
  }

  lemma SelfParent(s: seq<Node>, t: Shape, root: int, p: int)
    requires Tree(s, t, root) && Live(s, p)
    ensures s[p].parent != p
  {
    if p != root { assert Hung(s, t, p); }
  }

  /** The lists of the other nodes are as before. */
  lemma LinkOtherList(s: seq<Node>, t: Shape, root: int, p: int, c: int, name: string, kind: Kind, id: nat, i: int)
    requires CanLink(s, t, root, p, c, id) && 0 <= i < |s| && i != p && i != c
    ensures ListOk(Linked(s, p, c, name, kind, id), t.kids[i], i)
  {
    LinkBasics(s, t, root, p, c, id);
    var s', l := Linked(s, p, c, name, kind, id), t.kids[i];
    assert ListOk(s, l, i);
    forall j | 0 <= j < |l| ensures Placed(s', l, i, j) {
      assert Placed(s, l, i, j);
      assert l[j] != c;
    }
  }

  lemma LinkParentList(s: seq<Node>, t: Shape, root: int, p: int, c: int, name: string, kind: Kind, id: nat)
    requires CanLink(s, t, root, p, c, id)
    ensures ListOk(Linked(s, p, c, name, kind, id), t.kids[p] + [c], p)
  {
    LinkBasics(s, t, root, p, c, id);
    SelfParent(s, t, root, p);
    var s', l := Linked(s, p, c, name, kind, id), t.kids[p];
    var l' := l + [c];
    forall j | 0 <= j < |l'| ensures Placed(s', l', p, j) {
      if j < |l| {
        assert Placed(s, l, p, j);
        assert l[j] != c && l[j] != p;
      }
    }
    forall j, k | 0 <= j < k < |l'| ensures l'[j] != l'[k] {
      assert l[j] in l;
    }
  }

  lemma LinkLists(s: seq<Node>, t: Shape, root: int, p: int, c: int, name: string, kind: Kind, id: nat)
    requires CanLink(s, t, root, p, c, id)
    ensures |t.kids| == |t.depth| == |s| && Lists(Linked(s, p, c, name, kind, id), GrownShape(t, p, c).kids)
  {
    LinkBasics(s, t, root, p, c, id);
    var s', kids' := Linked(s, p, c, name, kind, id), GrownShape(t, p, c).kids;
    forall i | 0 <= i < |s'| ensures ListOk(s', kids'[i], i) {
      if i == p {
        LinkParentList(s, t, root, p, c, name, kind, id);
      } else if i == c {
        assert kids'[i] == [];
      } else {
        LinkOtherList(s, t, root, p, c, name, kind, id, i);
      }
    }
  }

  /** Only sibling and child links of old nodes change. */
  lemma LinkedFields(s: seq<Node>, p: int, c: int, name: string, kind: Kind, id: nat, i: int)
    requires 0 <= p < |s| && 0 <= c < |s| && p != c && s[p].lastChild != c && 0 <= i < |s|
    ensures var n := Linked(s, p, c, name, kind, id)[i];
            if i == c then n.parent == p && n.id == id && n.kind == kind && n.name == name
            else n.parent == s[i].parent && n.id == s[i].id && n.kind == s[i].kind && n.name == s[i].name
  {
  }

  lemma LinkHung(s: seq<Node>, t: Shape, root: int, p: int, c: int, name: string, kind: Kind, id: nat, i: int)
    requires CanLink(s, t, root, p, c, id) && Live(Linked(s, p, c, name, kind, id), i) && i != root
    ensures |t.kids| == |t.depth| == |s| && Hung(Linked(s, p, c, name, kind, id), GrownShape(t, p, c), i)
  {
    LinkBasics(s, t, root, p, c, id);
    hide Lists, ListOk, Linked;
    LinkedFields(s, p, c, name, kind, id, i);
    if i == c {
      assert GrownShape(t, p, c).kids[p] == t.kids[p] + [c];
      LinkedFields(s, p, c, name, kind, id, p);
    } else {
      assert Hung(s, t, i);
      LinkedFields(s, p, c, name, kind, id, s[i].parent);
    }
  }

  /** Creating a node keeps the pool a tree. */
  lemma LinkTree(s: seq<Node>, t: Shape, root: int, p: int, c: int, name: string, kind: Kind, id: nat)
    requires CanLink(s, t, root, p, c, id)
    ensures |t.kids| == |t.depth| == |s| && Tree(Linked(s, p, c, name, kind, id), GrownShape(t, p, c), root)
  {
    LinkBasics(s, t, root, p, c, id);
    LinkLists(s, t, root, p, c, name, kind, id);
    hide Lists, ListOk, Linked, Hung;
    var s', t' := Linked(s, p, c, name, kind, id), GrownShape(t, p, c);
    forall i | 0 <= i < |s'| ensures Live(s', i) <==> i == c || Live(s, i) {
      LinkedFields(s, p, c, name, kind, id, i);
    }
    LinkedFields(s, p, c, name, kind, id, root);
    forall i | Live(s', i) && i != root ensures Hung(s', t', i) {
      LinkHung(s, t, root, p, c, name, kind, id, i);
    }
    forall i | 0 <= i < |s'| ensures NONE !in t'.kids[i] {
      assert NONE !in t.kids[i];
    }
  }

  // ----- cutting a node from its parent's list

  predicate LinksInRange(s: seq<Node>, n: int)
  {
    && 0 <= n < |s| && 0 <= s[n].parent < |s|
    && (s[n].prev == NONE || 0 <= s[n].prev < |s|) && (s[n].next == NONE || 0 <= s[n].next < |s|)
  }

  /** The neighbours, or the parent at either end, joined around n. */
  function Unlinked(s: seq<Node>, n: int): (s': seq<Node>)
    requires LinksInRange(s, n)
    ensures |s'| == |s|
  {
    var p, a, b := s[n].parent, s[n].prev, s[n].next;
    var s1 := if a != NONE then s[a := s[a].(next := b)] else s[p := s[p].(children := b)];
    if b != NONE then s1[b := s1[b].(prev := a)] else s1[p := s1[p].(lastChild := a)]
  }

  ghost function Position(list: seq<int>, x: int): (j: nat)
    requires x in list
    ensures j < |list| && list[j] == x
  {
    var j :| 0 <= j < |list| && list[j] == x; j
  }

  ghost function Without(list: seq<int>, x: int): (r: seq<int>)
    requires x in list
    ensures |r| == |list| - 1
  {
    var j := Position(list, x);
    list[..j] + list[j + 1..]
  }

  ghost function CutShape(t: Shape, p: int, n: int): Shape
    requires 0 <= p < |t.kids| && n in t.kids[p]
  {
    t.(kids := t.kids[p := Without(t.kids[p], n)])
  }

  ghost predicate CanCut(s: seq<Node>, t: Shape, root: int, n: int)
  {
    Tree(s, t, root) && Live(s, n) && n != root
  }

  lemma CutBasics(s: seq<Node>, t: Shape, root: int, n: int)
    requires CanCut(s, t, root, n)
    ensures LinksInRange(s, n) && |t.kids| == |t.depth| == |s|
    ensures var p := s[n].parent; var l := t.kids[p];
            && Live(s, p) && n in l && ListOk(s, l, p) && p != n && p !in l
            && s[n].prev == At(l, Position(l, n) - 1) && s[n].next == At(l, Position(l, n) + 1)
  {
    assert Hung(s, t, n);
    var p := s[n].parent;
    var l := t.kids[p];
    assert ListOk(s, l, p);
    var j := Position(l, n);
    assert Placed(s, l, p, j);
    if j > 0 { assert Placed(s, l, p, j - 1); }
    if j + 1 < |l| { assert Placed(s, l, p, j + 1); }
    SelfParent(s, t, root, p);
    if p in l { KidFacts(s, t.kids, p, p); }
  }

  lemma CutOtherList(s: seq<Node>, t: Shape, root: int, n: int, i: int)
    requires CanCut(s, t, root, n) && 0 <= i < |s| && i != s[n].parent
    ensures LinksInRange(s, n) && |t.kids| == |s| && ListOk(Unlinked(s, n), t.kids[i], i)
  {
    CutBasics(s, t, root, n);
    var p, s', l := s[n].parent, Unlinked(s, n), t.kids[i];
    var m, j := t.kids[p], Position(t.kids[p], n);
    if j > 0 { assert Placed(s, m, p, j - 1); }
    if j + 1 < |m| { assert Placed(s, m, p, j + 1); }
    assert ListOk(s, l, i);
    forall k | 0 <= k < |l| ensures Placed(s', l, i, k) {
      assert Placed(s, l, i, k);
    }
  }

  lemma CutParentList(s: seq<Node>, t: Shape, root: int, n: int)
    requires CanCut(s, t, root, n)
    ensures LinksInRange(s, n) && |t.kids| == |s|
    ensures var p := s[n].parent; n in t.kids[p] && ListOk(Unlinked(s, n), Without(t.kids[p], n), p)
  {
    CutBasics(s, t, root, n);
    var p, s' := s[n].parent, Unlinked(s, n);
    var l := t.kids[p];
    var j, l' := Position(l, n), Without(l, n);
    forall k | 0 <= k < |l'| ensures Placed(s', l', p, k) {
      assert Placed(s, l, p, if k < j then k else k + 1);
      CutPlaced(s, s', l, p, n, j, k);
    }
  }

  lemma CutPlaced(s: seq<Node>, s': seq<Node>, l: seq<int>, p: int, n: int, j: nat, k: nat)
    requires LinksInRange(s, n) && s' == Unlinked(s, n) && s[n].parent == p && ListOk(s, l, p) && p !in l
    requires j < |l| && l[j] == n && s[n].prev == At(l, j - 1) && s[n].next == At(l, j + 1)
    requires k < |l| - 1 && Placed(s, l, p, if k < j then k else k + 1)
    ensures Placed(s', l[..j] + l[j + 1..], p, k)
  {
    var c := l[if k < j then k else k + 1];
    assert c in l && c != p && c != n;
    assert k < j - 1 ==> l[k] != l[j - 1];
    assert k < j && j + 1 < |l| ==> l[k] != l[j + 1];
    assert k >= j && j > 0 ==> l[k + 1] != l[j - 1];
    assert k > j ==> l[k + 1] != l[j + 1];
  }

  lemma CutLists(s: seq<Node>, t: Shape, root: int, n: int)
    requires CanCut(s, t, root, n)
    ensures LinksInRange(s, n) && |t.kids| == |s| && n in t.kids[s[n].parent]
    ensures Lists(Unlinked(s, n), CutShape(t, s[n].parent, n).kids)
  {
    CutBasics(s, t, root, n);
    var p, s' := s[n].parent, Unlinked(s, n);
    var kids' := CutShape(t, p, n).kids;
    forall i | 0 <= i < |s'| ensures ListOk(s', kids'[i], i) {
      if i == p {
        CutParentList(s, t, root, n);
      } else {
        CutOtherList(s, t, root, n, i);
      }
    }
    forall i | 0 <= i < |s'| && s'[i].id == 0 ensures s'[i] == FREE {
      CutFields(s, t, root, n, i);
    }
  }

  /** Only sibling and child links change, and those of live nodes. */
  lemma CutFields(s: seq<Node>, t: Shape, root: int, n: int, i: int)
    requires CanCut(s, t, root, n) && 0 <= i < |s|
    ensures LinksInRange(s, n)
    ensures var x := Unlinked(s, n)[i];
            && x.parent == s[i].parent && x.id == s[i].id && x.kind == s[i].kind && x.name == s[i].name
            && (s[i].id == 0 || i == n ==> x == s[i])
  {
    CutBasics(s, t, root, n);
    var p := s[n].parent;
    var m, j := t.kids[p], Position(t.kids[p], n);
    if j > 0 { assert Placed(s, m, p, j - 1); }
    if j + 1 < |m| { assert Placed(s, m, p, j + 1); }
  }

  /** Cutting a node leaves the rest of the tree in place. */
  lemma CutForest(s: seq<Node>, t: Shape, root: int, n: int)
    requires CanCut(s, t, root, n)
    ensures LinksInRange(s, n) && |t.kids| == |t.depth| == |s| && n in t.kids[s[n].parent]
    ensures Forest(Unlinked(s, n), CutShape(t, s[n].parent, n), root, n)
  {
    CutBasics(s, t, root, n);
    CutLists(s, t, root, n);
    CutFields(s, t, root, n, root);
    var p, s', t' := s[n].parent, Unlinked(s, n), CutShape(t, s[n].parent, n);
    hide Lists, Unlinked, LinksInRange;
    forall i | Live(s', i) ensures Live(s, i) && (i != root && i != n ==> Hung(s', t', i)) {
      CutFields(s, t, root, n, i);
      if i != root && i != n { CutHung(s, t, root, n, i); }
    }
    forall i | 0 <= i < |s'| ensures n !in t'.kids[i] {
      CutGone(s, t, root, n, i);
    }
  }

  lemma CutHung(s: seq<Node>, t: Shape, root: int, n: int, i: int)
    requires CanCut(s, t, root, n) && Live(s, i) && i != root && i != n
    ensures LinksInRange(s, n) && |t.kids| == |t.depth| == |s| && n in t.kids[s[n].parent]
    ensures Live(Unlinked(s, n), i) && Hung(Unlinked(s, n), CutShape(t, s[n].parent, n), i)
  {
    CutBasics(s, t, root, n);
    hide Lists, Unlinked, LinksInRange;
    CutFields(s, t, root, n, i);
    assert Hung(s, t, i);
    CutFields(s, t, root, n, s[i].parent);
    WithoutKeeps(t.kids[s[n].parent], n, i);
  }

  lemma WithoutKeeps(list: seq<int>, x: int, y: int)
    requires x in list && x != y
    ensures y in list <==> y in Without(list, x)
  {
    var j := Position(list, x);
    if y in list {
      var k := Position(list, y);
      assert Without(list, x)[if k < j then k else k - 1] == y;
    }
  }

  lemma CutGone(s: seq<Node>, t: Shape, root: int, n: int, i: int)
    requires CanCut(s, t, root, n) && 0 <= i < |s|
    ensures |t.kids| == |s| && 0 <= s[n].parent < |s| && n in t.kids[s[n].parent]
    ensures n !in CutShape(t, s[n].parent, n).kids[i]
  {
    CutBasics(s, t, root, n);
    if i != s[n].parent {
      if n in t.kids[i] { KidFacts(s, t.kids, i, n); }
    }
  }
}
