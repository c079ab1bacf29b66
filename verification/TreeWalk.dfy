/** Looking up paths in the node pool. */
module TreeWalk {
  import opened NodePool
  import opened Paths

  const NAME_KEPT: nat := 62

  /** The first node of the list with the name. */
  function Child(s: seq<Node>, list: seq<int>, name: string): (c: int)
    ensures c != NONE ==> c in list && 0 <= c < |s| && s[c].name == name
  {
    if list == [] then NONE
    else if 0 <= list[0] < |s| && s[list[0]].name == name then list[0]
    else Child(s, list[1..], name)
  }

  /** One component: ".." goes by the parent link and stays at the root. */
  function Move(s: seq<Node>, kids: seq<seq<int>>, cur: int, c: string): int
    requires |kids| == |s|
  {
    if !(0 <= cur < |s|) then NONE
    else if c == "." then cur
    else if c == ".." then (if s[cur].parent != NONE then s[cur].parent else cur)
    else Child(s, kids[cur], c)
  }

  function Walk(s: seq<Node>, kids: seq<seq<int>>, cur: int, cs: seq<string>): int
    requires |kids| == |s|
    decreases |cs|
  {
    if cs == [] then cur
    else
      var m := Move(s, kids, cur, cs[0]);
      if m == NONE then NONE else Walk(s, kids, m, cs[1..])
  }

  lemma {:induction false} WalkJoin(s: seq<Node>, kids: seq<seq<int>>, cur: int, a: seq<string>, b: seq<string>)
    requires |kids| == |s| && cur != NONE
    ensures Walk(s, kids, cur, a + b) ==
            if Walk(s, kids, cur, a) == NONE then NONE else Walk(s, kids, Walk(s, kids, cur, a), b)
    decreases |a|
  {
    if a == [] {
      assert a + b == b;
    } else {
      assert (a + b)[1..] == a[1..] + b;
      var m := Move(s, kids, cur, a[0]);
      if m != NONE { WalkJoin(s, kids, m, a[1..], b); }
    }
  }

  lemma WalkOne(s: seq<Node>, kids: seq<seq<int>>, cur: int, c: string)
    requires |kids| == |s|
    ensures Walk(s, kids, cur, [c]) == Move(s, kids, cur, c)
  {
    var none: seq<string> := [];
    assert [c][1..] == none;
  }

  /** The names on the stack lead to a node; its parent is where all but the last lead. */
  lemma PopIsParent(s: seq<Node>, t: Shape, root: int, stack: seq<string>)
    requires Tree(s, t, root) && AllNamed(stack) && Walk(s, t.kids, root, stack) != NONE
    ensures Walk(s, t.kids, root, Push(stack, "..")) == Move(s, t.kids, Walk(s, t.kids, root, stack), "..")
  {
    if stack != [] {
      var front, last := stack[..|stack| - 1], stack[|stack| - 1];
      assert stack == front + [last] && Named(last);
      WalkJoin(s, t.kids, root, front, [last]);
      var m := Walk(s, t.kids, root, front);
      WalkOne(s, t.kids, m, last);
      KidFacts(s, t.kids, m, Walk(s, t.kids, root, stack));
    }
  }

  /** Going up by parent links agrees with popping a name. */
  lemma {:induction false} WalkFold(s: seq<Node>, t: Shape, root: int, stack: seq<string>, cs: seq<string>)
    requires Tree(s, t, root) && AllNamed(stack) && forall i :: 0 <= i < |cs| ==> Proper(cs[i])
    requires Walk(s, t.kids, root, stack) != NONE
    requires Walk(s, t.kids, Walk(s, t.kids, root, stack), cs) != NONE
    ensures Walk(s, t.kids, root, Fold(stack, cs)) == Walk(s, t.kids, Walk(s, t.kids, root, stack), cs)
    decreases |cs|
  {
    if cs != [] {
      var cur, c := Walk(s, t.kids, root, stack), cs[0];
      var stack' := Push(stack, c);
      if c == ".." {
        PopIsParent(s, t, root, stack);
      } else if c != "." {
        WalkJoin(s, t.kids, root, stack, [c]);
        WalkOne(s, t.kids, cur, c);
      }
      assert Walk(s, t.kids, root, stack') == Move(s, t.kids, cur, c);
      WalkFold(s, t, root, stack', cs[1..]);
    }
  }

  // ----- how FsFind cuts a path into components

  /** Like Components, but a component longer than its buffer is cut in pieces. */
  function Chunks(s: string, cur: string): seq<string>
  {
    if s == [] then Emit(cur)
    else if s[0] == '/' then Emit(cur) + Chunks(s[1..], [])
    else if |cur| == COMPONENT_MAX then [cur] + Chunks(s[1..], [s[0]])
    else Chunks(s[1..], cur + [s[0]])
  }

  lemma {:induction false} ChunkRuns(c: string, s: string, cur: string)
    requires '/' !in c && |cur| + |c| <= COMPONENT_MAX
    ensures Chunks(c + s, cur) == Chunks(s, cur + c)
    decreases |c|
  {
    if c == [] {
      assert c + s == s && cur + c == cur;
    } else {
      assert (c + s)[1..] == c[1..] + s && (c + s)[0] == c[0] != '/';
      assert cur + [c[0]] + c[1..] == cur + c;
      ChunkRuns(c[1..], s, cur + [c[0]]);
    }
  }

  /** A component is over at the end, at a slash, or when its buffer is full. */
  lemma ChunkEnds(c: string, s: string)
    requires c != [] && '/' !in c && |c| <= COMPONENT_MAX && (s == [] || s[0] == '/' || |c| == COMPONENT_MAX)
    ensures Chunks(c + s, []) == [c] + Chunks(s, [])
  {
    ChunkRuns(c, s, []);
    assert [] + c == c;
    if s != [] {
      assert [] + Chunks(s[1..], []) == Chunks(s[1..], []);
      assert [] + [s[0]] == [s[0]];
    }
  }

  lemma {:induction false} ChunksSkip(s: string, r: nat, r': nat)
    requires r <= r' <= |s| && forall i :: r <= i < r' ==> s[i] == '/'
    ensures Chunks(s[r..], []) == Chunks(s[r'..], [])
    decreases r' - r
  {
    if r < r' {
      assert s[r..][1..] == s[r + 1..];
      assert [] + Chunks(s[r + 1..], []) == Chunks(s[r + 1..], []);
      ChunksSkip(s, r + 1, r');
    }
  }

  /** A path ending in a slash and a name. */
  lemma {:induction false} ChunksLast(s: string, cur: string, c: string)
    requires '/' !in c && 0 < |c| <= COMPONENT_MAX && |cur| <= COMPONENT_MAX
    ensures Chunks(s + ("/" + c), cur) == Chunks(s, cur) + [c]
    decreases |s|
  {
    var e := "/" + c;
    if s == [] {
      assert s + e == e && e[1..] == c;
      assert c + [] == c;
      ChunkEnds(c, []);
      assert Emit(cur) + ([c] + []) == Emit(cur) + [c];
    } else {
      assert (s + e)[1..] == s[1..] + e && (s + e)[0] == s[0];
      ChunksLast(s[1..], if s[0] == '/' then [] else if |cur| == COMPONENT_MAX then [s[0]] else cur + [s[0]], c);
    }
  }

  ghost predicate AllShort(cs: seq<string>)
  {
    forall i :: 0 <= i < |cs| ==> |cs[i]| <= COMPONENT_MAX
  }

  /** The component under way is a prefix of the first one listed. */
  lemma {:induction false} FirstGrows(s: string, cur: string)
    requires cur != []
    ensures Components(s, cur) != [] && |cur| <= |Components(s, cur)[0]|
    decreases |s|
  {
    if s != [] && s[0] != '/' { FirstGrows(s[1..], cur + [s[0]]); }
  }

  /** No split, no difference. */
  lemma {:induction false} ShortChunks(s: string, cur: string)
    requires AllShort(Components(s, cur)) && |cur| <= COMPONENT_MAX
    ensures Chunks(s, cur) == Components(s, cur)
    decreases |s|
  {
    if s == [] {
    } else if s[0] == '/' {
      var rest := Components(s[1..], []);
      assert forall i :: 0 <= i < |rest| ==> rest[i] == Components(s, cur)[i + |Emit(cur)|];
      ShortChunks(s[1..], []);
    } else {
      FirstGrows(s[1..], cur + [s[0]]);
      ShortChunks(s[1..], cur + [s[0]]);
    }
  }

  /** No chunk is too long. */
  lemma {:induction false} ChunksAreShort(s: string, cur: string)
    requires |cur| <= COMPONENT_MAX
    ensures AllShort(Chunks(s, cur))
    decreases |s|
  {
    if s != [] {
      ChunksAreShort(s[1..], if s[0] == '/' then [] else if |cur| == COMPONENT_MAX then [s[0]] else cur + [s[0]]);
    }
  }

  /** The lookup cuts a path at its slashes exactly when every component fits its buffer. */
  lemma ChunksAreComponents(s: string)
    ensures Chunks(s, []) == Components(s, []) <==> AllShort(Components(s, []))
  {
    ChunksAreShort(s, []);
    if AllShort(Components(s, [])) { ShortChunks(s, []); }
  }

  /** A name of 64 characters is looked up as two: 63 of them, and in that directory the last. */
  lemma LongNameIsCut()
    ensures var n := seq(63, _ => 'a');
            Chunks(n + "b", []) == [n, "b"] && Components(n + "b", []) == [n + "b"]
  {
    var n := seq(63, _ => 'a');
    ChunkEnds(n, "b");
    assert [] + ['b'] == "b";
    assert Chunks("b", []) == ["b"];
    ComponentRuns(n + "b", [], []);
    assert n + "b" + [] == n + "b" && [] + (n + "b") == n + "b";
  }

  // ----- normalised paths

  /** Every name is one that a node can hold. */
  ghost predicate ShortNames(s: seq<Node>)
  {
    forall i :: 0 <= i < |s| ==> |s[i].name| <= NAME_KEPT
  }

  /** A path that is found has no chunk of full length. */
  lemma {:induction false} FoundIsShort(s: seq<Node>, kids: seq<seq<int>>, cur: int, cs: seq<string>)
    requires |kids| == |s| && ShortNames(s) && Walk(s, kids, cur, cs) != NONE
    ensures forall i :: 0 <= i < |cs| ==> |cs[i]| < COMPONENT_MAX
    decreases |cs|
  {
    if cs != [] {
      FoundIsShort(s, kids, Move(s, kids, cur, cs[0]), cs[1..]);
      forall i | 0 <= i < |cs| ensures |cs[i]| < COMPONENT_MAX {
        if i > 0 { assert cs[i] == cs[1..][i - 1]; }
      }
    }
  }

  /** Without a chunk of full length nothing was split. */
  lemma {:induction false} NothingSplit(s: string, cur: string)
    requires |cur| <= COMPONENT_MAX && forall i :: 0 <= i < |Chunks(s, cur)| ==> |Chunks(s, cur)[i]| < COMPONENT_MAX
    ensures Chunks(s, cur) == Components(s, cur)
    decreases |s|
  {
    if s == [] {
    } else if s[0] == '/' {
      var rest := Chunks(s[1..], []);
      assert forall i :: 0 <= i < |rest| ==> rest[i] == Chunks(s, cur)[i + |Emit(cur)|];
      NothingSplit(s[1..], []);
    } else {
      var chunks := Chunks(s, cur);
      if chunks != [] { assert |chunks[0]| < COMPONENT_MAX; }
      NothingSplit(s[1..], cur + [s[0]]);
    }
  }

  /** FsFind on the normalised path finds the node FsFind finds on the path itself,
      for every tree of the pool and every path. */
  lemma NormalFindsSame(s: seq<Node>, t: Shape, root: int, path: string)
    requires Tree(s, t, root) && ShortNames(s)
    requires Walk(s, t.kids, root, Chunks(path, [])) != NONE
    ensures Walk(s, t.kids, root, Chunks(Normal(path), [])) == Walk(s, t.kids, root, Chunks(path, []))
  {
    var cs := Components(path, []);
    ComponentsProper(path, []);
    FoundIsShort(s, t.kids, root, Chunks(path, []));
    NothingSplit(path, []);
    assert CutAll(cs) == cs;
    WalkFold(s, t, root, [], cs);
    NormalIsNormal(path);
    NamesAreNamed(path);
    ShortChunks(Normal(path), []);
  }

  lemma {:induction false} ChunksSlash(s: string, cur: string, rest: string)
    ensures Chunks(s + ("/" + rest), cur) == Chunks(s, cur) + Chunks(rest, [])
    decreases |s|
  {
    var e := "/" + rest;
    if s == [] {
      assert s + e == e && e[1..] == rest;
    } else {
      assert (s + e)[1..] == s[1..] + e && (s + e)[0] == s[0];
      ChunksSlash(s[1..], if s[0] == '/' then [] else if |cur| == COMPONENT_MAX then [s[0]] else cur + [s[0]], rest);
    }
  }

  /** From a directory found and a path that finds a node from there, the joined names find that node. */
  lemma RelativeFindsSame(s: seq<Node>, t: Shape, root: int, dir: string, input: string)
    requires Tree(s, t, root) && ShortNames(s) && Walk(s, t.kids, root, Chunks(dir, [])) != NONE
    requires Walk(s, t.kids, Walk(s, t.kids, root, Chunks(dir, [])), Chunks(input, [])) != NONE
    ensures Walk(s, t.kids, root, Chunks(Join(NamesFrom(dir, input)), [])) ==
            Walk(s, t.kids, Walk(s, t.kids, root, Chunks(dir, [])), Chunks(input, []))
  {
    var path := dir + ("/" + input);
    ChunksSlash(dir, [], input);
    WalkJoin(s, t.kids, root, Chunks(dir, []), Chunks(input, []));
    NormalFindsSame(s, t, root, path);
    NamesOfBoth(dir, input);
  }

  // ----- a new node hides nothing

  lemma {:induction false} ChildGrows(s: seq<Node>, s': seq<Node>, list: seq<int>, c: int, name: string)
    requires |s| == |s'| && forall i :: 0 <= i < |s| && i in list ==> s'[i].name == s[i].name
    ensures Child(s, list, name) != NONE ==> Child(s', list + [c], name) == Child(s, list, name)
    ensures Child(s, list, name) == NONE && 0 <= c < |s'| && s'[c].name == name ==> Child(s', list + [c], name) == c
    ensures Child(s', list, name) == Child(s, list, name)
  {
    if list == [] {
      assert (list + [c])[1..] == [];
    } else {
      assert (list + [c])[1..] == list[1..] + [c];
      ChildGrows(s, s', list[1..], c, name);
    }
  }

  lemma MoveGrows(s: seq<Node>, t: Shape, root: int, p: int, c: int, name: string, kind: Kind, id: nat,
                  cur: int, comp: string)
    requires CanLink(s, t, root, p, c, id) && Live(s, cur) && |t.kids| == |t.depth| == |s|
    ensures var m := Move(s, t.kids, cur, comp);
            m != NONE ==> Move(Linked(s, p, c, name, kind, id), GrownShape(t, p, c).kids, cur, comp) == m && Live(s, m)
  {
    LinkBasics(s, t, root, p, c, id);
    LinkedFields(s, p, c, name, kind, id, cur);
    var s' := Linked(s, p, c, name, kind, id);
    forall i | 0 <= i < |s| && i in t.kids[cur] ensures s'[i].name == s[i].name {
      LinkedFields(s, p, c, name, kind, id, i);
    }
    ChildGrows(s, s', t.kids[cur], c, comp);
    var m := Move(s, t.kids, cur, comp);
    if m in t.kids[cur] { KidFacts(s, t.kids, cur, m); }
    if cur != root { assert Hung(s, t, cur); }
  }

  /** Whatever a path finds, it still finds after a node is created. */
  lemma {:induction false} WalkGrows(s: seq<Node>, t: Shape, root: int, p: int, c: int, name: string, kind: Kind,
                                     id: nat, cur: int, cs: seq<string>)
    requires CanLink(s, t, root, p, c, id) && Live(s, cur) && |t.kids| == |t.depth| == |s|
    requires Walk(s, t.kids, cur, cs) != NONE
    ensures Walk(Linked(s, p, c, name, kind, id), GrownShape(t, p, c).kids, cur, cs) == Walk(s, t.kids, cur, cs)
    decreases |cs|
  {
    if cs != [] {
      MoveGrows(s, t, root, p, c, name, kind, id, cur, cs[0]);
      WalkGrows(s, t, root, p, c, name, kind, id, Move(s, t.kids, cur, cs[0]), cs[1..]);
    }
  }

  /** Every step stays on live nodes. */
  lemma MoveLive(s: seq<Node>, t: Shape, root: int, cur: int, c: string)
    requires Tree(s, t, root) && Live(s, cur)
    ensures |t.kids| == |s| && (Move(s, t.kids, cur, c) != NONE ==> Live(s, Move(s, t.kids, cur, c)))
  {
    var m := Move(s, t.kids, cur, c);
    if m in t.kids[cur] { KidFacts(s, t.kids, cur, m); }
    if cur != root { assert Hung(s, t, cur); }
  }

  lemma {:induction false} WalkLive(s: seq<Node>, t: Shape, root: int, cur: int, cs: seq<string>)
    requires Tree(s, t, root) && Live(s, cur)
    ensures |t.kids| == |s| && (Walk(s, t.kids, cur, cs) != NONE ==> Live(s, Walk(s, t.kids, cur, cs)))
    decreases |cs|
  {
    if cs != [] {
      MoveLive(s, t, root, cur, cs[0]);
      var m := Move(s, t.kids, cur, cs[0]);
      if m != NONE { WalkLive(s, t, root, m, cs[1..]); }
    }
  }
}
