/** Names of siblings in the node pool. */
module SiblingNames {
  import opened NodePool
  import opened Subtrees
  import opened TreeWalk

  ghost predicate HasName(s: seq<Node>, list: seq<int>, name: string)
  {
    exists j :: 0 <= j < |list| && 0 <= list[j] < |s| && s[list[j]].name == name
  }

  // ----- distinct sibling names

  ghost predicate DistinctIn(s: seq<Node>, list: seq<int>)
  {
    forall j, k :: 0 <= j < k < |list| && 0 <= list[j] < |s| && 0 <= list[k] < |s| ==>
      s[list[j]].name != s[list[k]].name
  }

  ghost predicate DistinctNames(s: seq<Node>, kids: seq<seq<int>>)
    requires |kids| == |s|
  {
    forall i :: 0 <= i < |s| ==> DistinctIn(s, kids[i])
  }

  lemma SameDistinct(s: seq<Node>, s': seq<Node>, list: seq<int>)
    requires |s| == |s'| && forall i :: 0 <= i < |s| && i in list ==> s'[i].name == s[i].name
    ensures DistinctIn(s, list) <==> DistinctIn(s', list)
  {
    assert forall j :: 0 <= j < |list| ==> list[j] in list;
  }

  /** A created node keeps sibling names distinct exactly when the name it keeps is new. */
  lemma LinkDistinct(s: seq<Node>, t: Shape, root: int, p: int, c: int, name: string, kind: Kind, id: nat)
    requires CanLink(s, t, root, p, c, id) && |t.kids| == |t.depth| == |s| && DistinctNames(s, t.kids)
    ensures DistinctNames(Linked(s, p, c, name, kind, id), GrownShape(t, p, c).kids)
            <==> !HasName(s, t.kids[p], name)
  {
    LinkBasics(s, t, root, p, c, id);
    var s', kids' := Linked(s, p, c, name, kind, id), GrownShape(t, p, c).kids;
    forall i | 0 <= i < |s| ensures s'[i].name == if i == c then name else s[i].name {
      LinkedFields(s, p, c, name, kind, id, i);
    }
    hide Linked, Forest;
    forall i | 0 <= i < |s| && i != p ensures DistinctIn(s', kids'[i]) {
      assert DistinctIn(s, t.kids[i]);
      SameDistinct(s, s', t.kids[i]);
    }
    assert DistinctIn(s, t.kids[p]);
    SameDistinct(s, s', t.kids[p]);
    DistinctAppend(s, s', t.kids[p], c);
    assert kids'[p] == t.kids[p] + [c];
    hide DistinctIn, HasName;
    assert DistinctNames(s', kids') <==> DistinctIn(s', kids'[p]);
  }

  lemma DistinctAppend(s: seq<Node>, s': seq<Node>, list: seq<int>, c: int)
    requires |s| == |s'| && 0 <= c < |s| && DistinctIn(s', list)
    requires forall i :: 0 <= i < |s| && i in list ==> s'[i].name == s[i].name
    ensures DistinctIn(s', list + [c]) <==> !HasName(s, list, s'[c].name)
  {
    var l := list + [c];
    assert forall j :: 0 <= j < |list| ==> list[j] in list && l[j] == list[j];
    if DistinctIn(s', l) {
      forall j | 0 <= j < |list| && 0 <= list[j] < |s| ensures s[list[j]].name != s'[c].name {
        assert l[j] == list[j] && l[|list|] == c;
      }
    }
  }

  /** Cutting a node and freeing what lies below keeps sibling names distinct. */
  lemma CutDistinct(s: seq<Node>, t: Shape, root: int, n: int, gone: set<int>)
    requires CanCut(s, t, root, n) && |t.kids| == |t.depth| == |s| && DistinctNames(s, t.kids)
    requires LinksInRange(s, n) && n in t.kids[s[n].parent]
    requires forall i, c :: 0 <= i < |s| && i !in gone && c in CutShape(t, s[n].parent, n).kids[i] ==> c !in gone
    ensures DistinctNames(Freed(Unlinked(s, n), gone), FreedShape(CutShape(t, s[n].parent, n), gone).kids)
  {
    var s', kids' := Freed(Unlinked(s, n), gone), FreedShape(CutShape(t, s[n].parent, n), gone).kids;
    forall i | 0 <= i < |s| && i !in gone ensures s'[i].name == s[i].name {
      CutFields(s, t, root, n, i);
    }
    hide Unlinked, Forest, LinksInRange;
    forall i | 0 <= i < |s| ensures DistinctIn(s', kids'[i]) {
      assert DistinctIn(s, t.kids[i]);
      if i !in gone {
        var l := CutShape(t, s[n].parent, n).kids[i];
        if i == s[n].parent { WithoutDistinct(s, t.kids[i], n); }
        SameDistinct(s, s', l);
      }
    }
  }

  lemma WithoutDistinct(s: seq<Node>, list: seq<int>, x: int)
    requires x in list && DistinctIn(s, list)
    ensures DistinctIn(s, Without(list, x))
  {
    var j := Position(list, x);
    assert forall k :: 0 <= k < |list| - 1 ==> Without(list, x)[k] == list[if k < j then k else k + 1];
  }
}
