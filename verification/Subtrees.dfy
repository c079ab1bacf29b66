/** Subtrees of the node pool and what freeing one leaves. */
module Subtrees {
  import opened NodePool

  /** Node i is n or lies below it, by parent links. */
  ghost predicate Under(s: seq<Node>, depth: seq<nat>, i: int, n: int)
    requires |depth| == |s|
    decreases if 0 <= i < |s| then depth[i] else 0
  {
    i == n || (Live(s, i) && 0 <= s[i].parent < |s| && depth[s[i].parent] < depth[i] && Under(s, depth, s[i].parent, n))
  }

  ghost function Subtree(s: seq<Node>, depth: seq<nat>, n: int): set<int>
    requires |depth| == |s|
  {
    set i | 0 <= i < |s| && Live(s, i) && Under(s, depth, i, n)
  }

  /** In a tree the live nodes are exactly those below the root. */
  lemma {:induction false} LiveIsReachable(s: seq<Node>, t: Shape, root: int, i: int)
    requires Tree(s, t, root)
    ensures |t.depth| == |s| && (Live(s, i) <==> Under(s, t.depth, i, root))
    decreases if 0 <= i < |t.depth| then t.depth[i] else 0
  {
    if Live(s, i) && i != root {
      assert Hung(s, t, i);
      LiveIsReachable(s, t, root, s[i].parent);
    }
  }

  lemma {:induction false} UnderDepth(s: seq<Node>, depth: seq<nat>, i: int, n: int)
    requires |depth| == |s| && Under(s, depth, i, n) && 0 <= i < |s|
    ensures 0 <= n < |s| && (i == n || depth[n] < depth[i])
    decreases depth[i]
  {
    if i != n { UnderDepth(s, depth, s[i].parent, n); }
  }

  /** Subtrees at one level are disjoint. */
  lemma {:induction false} UnderUnique(s: seq<Node>, depth: seq<nat>, i: int, a: int, b: int)
    requires |depth| == |s| && 0 <= i < |s| && Under(s, depth, i, a) && Under(s, depth, i, b)
    requires 0 <= a < |s| && 0 <= b < |s| && depth[a] == depth[b]
    ensures a == b
    decreases depth[i]
  {
    UnderDepth(s, depth, i, a);
    UnderDepth(s, depth, i, b);
    if i != a && i != b { UnderUnique(s, depth, s[i].parent, a, b); }
  }

  ghost predicate UnderSome(s: seq<Node>, depth: seq<nat>, i: int, list: seq<int>)
    requires |depth| == |s|
  {
    exists k :: 0 <= k < |list| && Under(s, depth, i, list[k])
  }

  ghost function SubtreeOf(s: seq<Node>, depth: seq<nat>, list: seq<int>): set<int>
    requires |depth| == |s|
  {
    set i | 0 <= i < |s| && Live(s, i) && UnderSome(s, depth, i, list)
  }

  /** What hangs where, so that recursion over the lists meets every node below. */
  ghost predicate Hanging(s: seq<Node>, t: Shape, loose: int)
  {
    && Lists(s, t.kids) && |t.depth| == |s|
    && (forall i :: Live(s, i) && i != loose && s[i].parent != NONE ==> Hung(s, t, i))
    && (forall i :: Live(s, i) ==> t.depth[i] < t.bound)
    && (forall i :: 0 <= i < |s| ==> loose !in t.kids[i])
  }

  /** The loose node, if any, is not deeper than n. */
  ghost predicate NotBelow(s: seq<Node>, t: Shape, loose: int, n: int)
    requires |t.depth| == |s|
  {
    Live(s, n) && (loose == NONE || (Live(s, loose) && t.depth[loose] <= t.depth[n]))
  }

  lemma ForestHangs(s: seq<Node>, t: Shape, root: int, loose: int)
    requires Forest(s, t, root, loose)
    ensures Hanging(s, t, loose)
  {
    hide Lists;
  }

  /** Below n: n itself and what lies below its children. */
  lemma {:induction false} UnderSplits(s: seq<Node>, t: Shape, loose: int, i: int, n: int)
    requires Hanging(s, t, loose) && NotBelow(s, t, loose, n) && Live(s, i)
    ensures Under(s, t.depth, i, n) <==> i == n || UnderSome(s, t.depth, i, t.kids[n])
    decreases t.depth[i]
  {
    if UnderSome(s, t.depth, i, t.kids[n]) {
      var k :| 0 <= k < |t.kids[n]| && Under(s, t.depth, i, t.kids[n][k]);
      KidUnder(s, t, loose, i, n, t.kids[n][k]);
    }
    if Under(s, t.depth, i, n) && i != n {
      StepUp(s, t, loose, i, n);
    }
  }

  lemma {:induction false} KidUnder(s: seq<Node>, t: Shape, loose: int, i: int, n: int, c: int)
    requires Hanging(s, t, loose) && Live(s, n) && Live(s, i) && c in t.kids[n] && Under(s, t.depth, i, c)
    ensures Under(s, t.depth, i, n)
    decreases t.depth[i]
  {
    KidFacts(s, t.kids, n, c);
    if i == c {
      assert Hung(s, t, c);
      assert Under(s, t.depth, n, n);
    } else {
      KidUnder(s, t, loose, s[i].parent, n, c);
    }
  }

  lemma {:induction false} StepUp(s: seq<Node>, t: Shape, loose: int, i: int, n: int)
    requires Hanging(s, t, loose) && NotBelow(s, t, loose, n) && Live(s, i) && Under(s, t.depth, i, n) && i != n
    ensures UnderSome(s, t.depth, i, t.kids[n])
    decreases t.depth[i]
  {
    UnderDepth(s, t.depth, i, n);
    assert Hung(s, t, i);
    var p := s[i].parent;
    if p == n {
      var k := Position(t.kids[n], i);
      assert Under(s, t.depth, i, t.kids[n][k]);
    } else {
      StepUp(s, t, loose, p, n);
    }
  }

  lemma SubtreeSplits(s: seq<Node>, t: Shape, loose: int, n: int)
    requires Hanging(s, t, loose) && NotBelow(s, t, loose, n)
    ensures Subtree(s, t.depth, n) == {n} + SubtreeOf(s, t.depth, t.kids[n])
  {
    forall i | 0 <= i < |s| && Live(s, i)
      ensures i in Subtree(s, t.depth, n) <==> i in {n} + SubtreeOf(s, t.depth, t.kids[n])
    {
      UnderSplits(s, t, loose, i, n);
    }
  }

  lemma SubtreeOfMore(s: seq<Node>, depth: seq<nat>, list: seq<int>, j: nat)
    requires |depth| == |s| && j < |list|
    ensures SubtreeOf(s, depth, list[..j + 1]) == SubtreeOf(s, depth, list[..j]) + Subtree(s, depth, list[j])
  {
    var l := list[..j + 1];
    forall i | 0 <= i < |s| && Live(s, i)
      ensures UnderSome(s, depth, i, l) <==> UnderSome(s, depth, i, list[..j]) || Under(s, depth, i, list[j])
    {
      if UnderSome(s, depth, i, l) {
        var k :| 0 <= k < |l| && Under(s, depth, i, l[k]);
        if k < j { assert Under(s, depth, i, list[..j][k]); }
      }
      if UnderSome(s, depth, i, list[..j]) {
        var k :| 0 <= k < j && Under(s, depth, i, list[..j][k]);
        assert Under(s, depth, i, l[k]);
      }
      if Under(s, depth, i, list[j]) { assert Under(s, depth, i, l[j]); }
    }
  }

  /** The subtrees of two children are apart. */
  lemma KidsApart(s: seq<Node>, t: Shape, loose: int, n: int, j: nat)
    requires Hanging(s, t, loose) && NotBelow(s, t, loose, n) && j < |t.kids[n]|
    ensures Subtree(s, t.depth, t.kids[n][j]) <= Subtree(s, t.depth, n)
    ensures Subtree(s, t.depth, t.kids[n][j]) !! SubtreeOf(s, t.depth, t.kids[n][..j])
    ensures Live(s, t.kids[n][j]) && t.depth[t.kids[n][j]] == t.depth[n] + 1
            && t.kids[n][j] in Subtree(s, t.depth, t.kids[n][j])
    ensures s[t.kids[n][j]].next == At(t.kids[n], j + 1)
  {
    var list := t.kids[n];
    var c := list[j];
    assert ListOk(s, list, n);
    assert Placed(s, list, n, j);
    assert c in list;
    assert Hung(s, t, c);
    forall i | i in Subtree(s, t.depth, c)
      ensures i in Subtree(s, t.depth, n) && i !in SubtreeOf(s, t.depth, list[..j])
    {
      KidUnder(s, t, loose, i, n, c);
      if UnderSome(s, t.depth, i, list[..j]) {
        var k :| 0 <= k < j && Under(s, t.depth, i, list[..j][k]);
        assert Placed(s, list, n, k);
        assert list[k] in list;
        assert Hung(s, t, list[k]);
        UnderUnique(s, t.depth, i, list[k], c);
      }
    }
  }

  lemma FirstKid(s: seq<Node>, t: Shape, loose: int, n: int)
    requires Hanging(s, t, loose) && NotBelow(s, t, loose, n)
    ensures 0 <= n < |s| && |t.kids| == |t.depth| == |s|
    ensures s[n].children == At(t.kids[n], 0) && (s[n].kind.File? ==> t.kids[n] == [])
    ensures n in Subtree(s, t.depth, n) && SubtreeOf(s, t.depth, t.kids[n][..0]) == {}
    ensures t.depth[n] < t.bound && forall j :: 0 <= j < |t.kids[n]| ==> t.kids[n][j] != NONE
  {
    assert ListOk(s, t.kids[n], n);
    forall j | 0 <= j < |t.kids[n]| ensures t.kids[n][j] != NONE {
      assert Placed(s, t.kids[n], n, j);
    }
  }

  /** The loose node is not deeper than a child either. */
  lemma KidNotBelow(s: seq<Node>, t: Shape, loose: int, n: int, j: nat)
    requires Hanging(s, t, loose) && NotBelow(s, t, loose, n) && j < |t.kids[n]|
    ensures NotBelow(s, t, loose, t.kids[n][j]) && t.depth[t.kids[n][j]] == t.depth[n] + 1
  {
    KidsApart(s, t, loose, n, j);
  }

  // ----- freeing

  function Freed(s: seq<Node>, gone: set<int>): (s': seq<Node>)
    ensures |s'| == |s|
    ensures forall i :: 0 <= i < |s| ==> s'[i] == if i in gone then FREE else s[i]
  {
    seq(|s|, i requires 0 <= i < |s| => if i in gone then FREE else s[i])
  }

  function FreedShape(t: Shape, gone: set<int>): (t': Shape)
    ensures t'.depth == t.depth && t'.bound == t.bound && |t'.kids| == |t.kids|
    ensures forall i :: 0 <= i < |t.kids| ==> t'.kids[i] == if i in gone then [] else t.kids[i]
  {
    t.(kids := seq(|t.kids|, i requires 0 <= i < |t.kids| => if i in gone then [] else t.kids[i]))
  }

  lemma FreeOne(s: seq<Node>, gone: set<int>, n: int)
    requires 0 <= n < |s|
    ensures Freed(s, gone)[n := FREE] == Freed(s, gone + {n})
  {
  }

  lemma FreedList(s: seq<Node>, t: Shape, root: int, n: int, i: int)
    requires Forest(s, t, root, n) && Live(s, n) && n != root && 0 <= i < |s|
    ensures |t.kids| == |t.depth| == |s|
    ensures var gone := Subtree(s, t.depth, n);
            ListOk(Freed(s, gone), FreedShape(t, gone).kids[i], i)
  {
    var gone := Subtree(s, t.depth, n);
    var s', l := Freed(s, gone), t.kids[i];
    assert ListOk(s, l, i);
    if i !in gone {
      forall j | 0 <= j < |l| ensures Placed(s', l, i, j) {
        assert Placed(s, l, i, j);
        var c := l[j];
        assert c in l;
        assert c != n;
        KidFacts(s, t.kids, i, c);
        assert Hung(s, t, c);
      }
    }
  }

  lemma RootStays(s: seq<Node>, t: Shape, root: int, n: int)
    requires Forest(s, t, root, n) && n != root
    ensures |t.depth| == |s| && root !in Subtree(s, t.depth, n)
  {
  }

  /** Freeing the loose subtree leaves a tree, with exactly its nodes gone. */
  lemma FreeTree(s: seq<Node>, t: Shape, root: int, n: int)
    requires Forest(s, t, root, n) && Live(s, n) && n != root
    ensures |t.kids| == |t.depth| == |s|
    ensures var gone := Subtree(s, t.depth, n); Tree(Freed(s, gone), FreedShape(t, gone), root)
  {
    var gone := Subtree(s, t.depth, n);
    var s', t' := Freed(s, gone), FreedShape(t, gone);
    RootStays(s, t, root, n);
    forall i | 0 <= i < |s'| ensures ListOk(s', t'.kids[i], i) {
      FreedList(s, t, root, n, i);
    }
    assert Lists(s', t'.kids);
    hide Lists, ListOk;
    forall i | Live(s', i) && i != root ensures Hung(s', t', i) {
      assert n in gone && i != n;
      assert Hung(s, t, i);
    }
    forall i | 0 <= i < |s'| ensures NONE !in t'.kids[i] {
      NoneIsNoKid(s, t.kids, i);
    }
  }

  lemma NoneIsNoKid(s: seq<Node>, kids: seq<seq<int>>, i: int)
    requires Lists(s, kids) && 0 <= i < |s|
    ensures NONE !in kids[i]
  {
    if NONE in kids[i] { KidFacts(s, kids, i, NONE); }
  }

  // ----- removing a node with all below it

  lemma {:induction false} SameUnder(s: seq<Node>, s': seq<Node>, depth: seq<nat>, i: int, n: int)
    requires |s| == |s'| == |depth|
    requires forall k :: 0 <= k < |s| ==> s'[k].id == s[k].id && s'[k].parent == s[k].parent
    ensures Under(s, depth, i, n) <==> Under(s', depth, i, n)
    decreases if 0 <= i < |s| then depth[i] else 0
  {
    if 0 <= i < |s| && i != n && 0 <= s[i].parent < |s| && depth[s[i].parent] < depth[i] {
      SameUnder(s, s', depth, s[i].parent, n);
    }
  }

  lemma SameSubtree(s: seq<Node>, t: Shape, root: int, n: int)
    requires CanCut(s, t, root, n)
    ensures LinksInRange(s, n) && |t.depth| == |s|
    ensures Subtree(Unlinked(s, n), t.depth, n) == Subtree(s, t.depth, n)
  {
    CutBasics(s, t, root, n);
    var s' := Unlinked(s, n);
    forall k | 0 <= k < |s| ensures s'[k].id == s[k].id && s'[k].parent == s[k].parent {
      CutFields(s, t, root, n, k);
    }
    hide Unlinked, Forest, LinksInRange;
    forall i | 0 <= i < |s| ensures i in Subtree(s', t.depth, n) <==> i in Subtree(s, t.depth, n) {
      SameUnder(s, s', t.depth, i, n);
    }
  }

  /** The pool and its shape once n and all below it are gone. */
  ghost function Pruned(s: seq<Node>, t: Shape, n: int): seq<Node>
    requires LinksInRange(s, n) && |t.depth| == |s|
  {
    Freed(Unlinked(s, n), Subtree(s, t.depth, n))
  }

  ghost function PrunedShape(s: seq<Node>, t: Shape, n: int): Shape
    requires LinksInRange(s, n) && |t.kids| == |t.depth| == |s| && n in t.kids[s[n].parent]
  {
    FreedShape(CutShape(t, s[n].parent, n), Subtree(s, t.depth, n))
  }

  /** Removing a subtree keeps the pool a tree. */
  lemma PruneTree(s: seq<Node>, t: Shape, root: int, n: int)
    requires CanCut(s, t, root, n)
    ensures LinksInRange(s, n) && |t.kids| == |t.depth| == |s| && n in t.kids[s[n].parent]
    ensures Tree(Pruned(s, t, n), PrunedShape(s, t, n), root)
  {
    CutBasics(s, t, root, n);
    CutForest(s, t, root, n);
    SameSubtree(s, t, root, n);
    CutFields(s, t, root, n, n);
    hide Forest, Unlinked, Subtree, LinksInRange;
    FreeTree(Unlinked(s, n), CutShape(t, s[n].parent, n), root, n);
  }

  /** Exactly the nodes of the subtree are freed. */
  lemma PruneLive(s: seq<Node>, t: Shape, root: int, n: int, i: int)
    requires CanCut(s, t, root, n)
    ensures LinksInRange(s, n) && |t.depth| == |s|
    ensures Live(Pruned(s, t, n), i) <==> Live(s, i) && !Under(s, t.depth, i, n)
    ensures 0 <= i < |s| && Under(s, t.depth, i, n) && Live(s, i) ==> Pruned(s, t, n)[i] == FREE
    ensures 0 <= i < |s| && !Under(s, t.depth, i, n) ==>
              Pruned(s, t, n)[i].name == s[i].name && Pruned(s, t, n)[i].parent == s[i].parent
              && Pruned(s, t, n)[i].kind == s[i].kind
  {
    CutBasics(s, t, root, n);
    hide Forest, LinksInRange, Under;
    if 0 <= i < |s| { CutFields(s, t, root, n, i); }
  }

  /** A node without children is its own subtree. */
  lemma LeafSubtree(s: seq<Node>, t: Shape, root: int, n: int)
    requires Tree(s, t, root) && Live(s, n) && s[n].children == NONE
    ensures |t.depth| == |s| && Subtree(s, t.depth, n) == {n}
  {
    ForestHangs(s, t, root, NONE);
    SubtreeSplits(s, t, NONE, n);
    FirstKid(s, t, NONE, n);
  }

  /** Outside the subtree, lists hold no node of it. */
  lemma KidsStay(s: seq<Node>, t: Shape, root: int, n: int, i: int, c: int)
    requires CanCut(s, t, root, n) && 0 <= i < |s| && |t.kids| == |t.depth| == |s|
    requires LinksInRange(s, n) && n in t.kids[s[n].parent]
    requires i !in Subtree(s, t.depth, n) && c in CutShape(t, s[n].parent, n).kids[i]
    ensures c !in Subtree(s, t.depth, n) && c in t.kids[i]
  {
    CutGone(s, t, root, n, i);
    if i == s[n].parent { WithoutKeeps(t.kids[i], n, c); }
    KidFacts(s, t.kids, i, c);
    assert Hung(s, t, c);
  }

  lemma {:induction false} UnderTrans(s: seq<Node>, depth: seq<nat>, i: int, a: int, b: int)
    requires |depth| == |s| && Under(s, depth, i, a) && Under(s, depth, a, b)
    ensures Under(s, depth, i, b)
    decreases if 0 <= i < |s| then depth[i] else 0
  {
    if i != a { UnderTrans(s, depth, s[i].parent, a, b); }
  }
}
