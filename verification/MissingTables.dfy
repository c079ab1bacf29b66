/** Which page tables a range of pages still lacks, and how creating tables fills the gaps. */
module MissingTables {
  import opened Words
  import opened PageTable
  import opened PageRanges
  import opened Sets

  /** The place of a table: its level and the indices that lead to it. */
  datatype Place = Place(level: nat, i0: Index, i1: Index, i2: Index)

  function PlaceOf(p: Path, level: nat): Place
  {
    Place(level, p.i0, if level >= 2 then p.i1 else 0, if level >= 3 then p.i2 else 0)
  }

  ghost predicate Has(m: seq<Word>, root: nat, p: Path, level: nat)
    requires MemoryOk(m) && root < FRAMES && level <= 3
  {
    TableOn(m, root, p, level) >= 0
  }

  lemma SamePlaceSameTable(m: seq<Word>, root: nat, p: Path, q: Path, level: nat)
    requires MemoryOk(m) && root < FRAMES && 1 <= level <= 3 && PlaceOf(p, level) == PlaceOf(q, level)
    ensures TableOn(m, root, p, level) == TableOn(m, root, q, level)
  {
    SamePrefixSameTable(m, root, p, q, level);
  }

  lemma HasAbove(m: seq<Word>, root: nat, p: Path)
    requires MemoryOk(m) && root < FRAMES
    ensures (Has(m, root, p, 3) ==> Has(m, root, p, 2)) && (Has(m, root, p, 2) ==> Has(m, root, p, 1))
  {
  }

  /** The tables of p down to level k are there now; otherwise there are those that were. */
  ghost predicate Opened(m: seq<Word>, m': seq<Word>, root: nat, p: Path, k: nat)
  {
    && MemoryOk(m) && MemoryOk(m') && root < FRAMES
    && forall q: Path, l: nat :: 1 <= l <= 3 ==>
         (Has(m', root, q, l) <==> Has(m, root, q, l) || (l <= k && PlaceOf(q, l) == PlaceOf(p, l)))
  }

  lemma AlreadyOpened(m: seq<Word>, root: nat, p: Path, k: nat)
    requires MemoryOk(m) && root < FRAMES && k <= 3 && Has(m, root, p, k)
    ensures Opened(m, m, root, p, k)
  {
    hide TableOn;
    forall q: Path, l: nat | 1 <= l <= k && PlaceOf(q, l) == PlaceOf(p, l) ensures Has(m, root, q, l) {
      SamePlaceSameTable(m, root, p, q, l);
      HasAbove(m, root, p);
    }
  }

  /** Nothing is lacking down to a table that is there. */
  lemma LacksNone(m: seq<Word>, root: nat, p: Path, k: nat)
    requires MemoryOk(m) && root < FRAMES && k <= 3 && Has(m, root, p, k)
    ensures LackCount(m, root, p, k) == 0
  {
    HasAbove(m, root, p);
    if k > 1 { LacksNone(m, root, p, k - 1); }
  }

  lemma OpenedTwice(m: seq<Word>, m1: seq<Word>, m2: seq<Word>, root: nat, p: Path, j: nat, k: nat)
    requires Opened(m, m1, root, p, j) && Opened(m1, m2, root, p, k) && j <= k
    ensures Opened(m, m2, root, p, k)
  {
    hide Has;
  }

  /** Clearing a frame f that is no table and linking it below p. */
  lemma LinkOpens(m: seq<Word>, m1: seq<Word>, root: nat, tables: Tables, f: nat, e: Word, p: Path, level: nat)
    requires Tree(m, root, tables) && f !in tables && Zeroed(m, m1, f) && root < FRAMES
    requires level <= 2 && TableOn(m, root, p, level) >= 0
    requires Linkable(m1, root, tables, TableOn(m, root, p, level), p.At(level), f, e)
    requires tables[TableOn(m, root, p, level)].level == level
    ensures Opened(m, m1[TableOn(m, root, p, level) * 512 + p.At(level) := e], root, p, level + 1)
  {
    TreeBasics(m, root, tables);
    hide Tree, Linkable, Zeroed, TableOn;
    var t, i := TableOn(m, root, p, level), p.At(level);
    LinkableParts(m1, root, tables, t, i, f, e);
    var m2 := m1[t * 512 + i := e];
    forall q: Path, l: nat | 1 <= l <= 3
      ensures Has(m2, root, q, l) <==> Has(m, root, q, l) || (l <= level + 1 && PlaceOf(q, l) == PlaceOf(p, l))
    {
      LinkOpensOn(m, m1, root, tables, f, e, p, level, q, l);
    }
  }

  lemma LinkableParts(m: seq<Word>, root: nat, tables: Tables, t: nat, i: Index, f: nat, e: Word)
    requires Linkable(m, root, tables, t, i, f, e)
    ensures MemoryOk(m) && t < FRAMES && !Present(Slot(m, t, i))
  {
  }

  lemma AbsentNext(m: seq<Word>, root: nat, p: Path, level: nat, t: nat, i: Index)
    requires MemoryOk(m) && root < FRAMES && t < FRAMES && level <= 2
    requires Through(m, root, p, level, t, i) && !Present(Slot(m, t, i))
    ensures TableOn(m, root, p, level + 1) < 0
  {
  }

  /** The tables met after the link, in terms of those met before. */
  lemma TablesAfter(m: seq<Word>, m1: seq<Word>, root: nat, tables: Tables, f: nat, e: Word, p: Path, level: nat,
                    q: Path, l: nat)
    requires Tree(m, root, tables) && f !in tables && Zeroed(m, m1, f) && root < FRAMES
    requires level <= 2 && TableOn(m, root, p, level) >= 0 && 1 <= l <= 3
    requires Linkable(m1, root, tables, TableOn(m, root, p, level), p.At(level), f, e)
    requires tables[TableOn(m, root, p, level)].level == level
    ensures var t, i := TableOn(m, root, p, level), p.At(level);
            && MemoryOk(m1) && t < FRAMES
            && TableOn(m1[t * 512 + i := e], root, q, l) ==
               if l > level && Through(m, root, q, level, t, i) then (if l == level + 1 then f else -1)
               else TableOn(m, root, q, l)
    ensures Through(m, root, q, level, TableOn(m, root, p, level), p.At(level)) ==> TableOn(m, root, q, level + 1) < 0
  {
    hide Tree, Linkable, TableOn;
    var t, i := TableOn(m, root, p, level), p.At(level);
    LinkableParts(m1, root, tables, t, i, f, e);
    LinkTables(m1, root, tables, t, i, f, e, q, l);
    ZeroKeepsTables(m, m1, root, tables, f, q, l);
    ZeroKeepsTables(m, m1, root, tables, f, q, level);
    ZeroKeepsTables(m, m1, root, tables, f, q, level + 1);
    if Through(m1, root, q, level, t, i) { AbsentNext(m1, root, q, level, t, i); }
  }

  lemma LinkOpensOn(m: seq<Word>, m1: seq<Word>, root: nat, tables: Tables, f: nat, e: Word, p: Path, level: nat,
                    q: Path, l: nat)
    requires Tree(m, root, tables) && f !in tables && Zeroed(m, m1, f) && root < FRAMES
    requires level <= 2 && TableOn(m, root, p, level) >= 0 && 1 <= l <= 3
    requires Linkable(m1, root, tables, TableOn(m, root, p, level), p.At(level), f, e)
    requires tables[TableOn(m, root, p, level)].level == level
    ensures MemoryOk(m1) && TableOn(m, root, p, level) < FRAMES
    ensures Has(m1[TableOn(m, root, p, level) * 512 + p.At(level) := e], root, q, l) <==>
              Has(m, root, q, l) || (l <= level + 1 && PlaceOf(q, l) == PlaceOf(p, l))
  {
    hide Tree, Linkable, Zeroed, TableOn, PlaceOf, Through;
    TreeBasics(m, root, tables);
    TablesAfter(m, m1, root, tables, f, e, p, level, q, l);
    ThroughOrNot(m, root, tables, p, level, q, l);
  }

  /** What lies on q, and whether q shares a place with p, when q goes through p's slot and when not. */
  lemma ThroughOrNot(m: seq<Word>, root: nat, tables: Tables, p: Path, level: nat, q: Path, l: nat)
    requires Tree(m, root, tables) && root < FRAMES && level <= 2 && TableOn(m, root, p, level) >= 0 && 1 <= l <= 3
    ensures if Through(m, root, q, level, TableOn(m, root, p, level), p.At(level))
            then (l <= level ==> Has(m, root, q, l)) && (l <= level + 1 ==> PlaceOf(q, l) == PlaceOf(p, l))
                 && (TableOn(m, root, q, level + 1) < 0 && l > level ==> !Has(m, root, q, l))
            else l <= level + 1 && PlaceOf(q, l) == PlaceOf(p, l) ==> Has(m, root, q, l)
  {
    PlaceMeans(p, q, l);
    hide Tree, TableOn, PlaceOf;
    if Through(m, root, q, level, TableOn(m, root, p, level), p.At(level)) {
      SameTableSamePrefix(m, root, tables, p, q, level);
      HasAbove(m, root, q);
    } else if l <= level + 1 && PlaceOf(q, l) == PlaceOf(p, l) {
      if l <= level {
        SamePlaceSameTable(m, root, p, q, l);
        HasAbove(m, root, p);
      } else {
        assert p.At(level) == q.At(level);
        SamePrefixSameTable(m, root, p, q, level);
        assert false;
      }
    }
  }

  lemma PlaceMeans(p: Path, q: Path, l: nat)
    requires 1 <= l <= 3
    ensures PlaceOf(p, l) == PlaceOf(q, l) <==> forall k: nat :: k < l ==> p.At(k) == q.At(k)
  {
    assert p.i0 == p.At(0) && p.i1 == p.At(1) && p.i2 == p.At(2);
    assert q.i0 == q.At(0) && q.i1 == q.At(1) && q.i2 == q.At(2);
  }

  // ----- counting

  /** The places on one path, down to level k, without a table. */
  ghost function Lacking(m: seq<Word>, root: nat, p: Path, k: nat): set<Place>
    requires MemoryOk(m) && root < FRAMES && k <= 3
  {
    set l: nat | 1 <= l <= k && !Has(m, root, p, l) :: PlaceOf(p, l)
  }

  /** How many there are, down to level k. */
  ghost function LackCount(m: seq<Word>, root: nat, p: Path, k: nat): (c: nat)
    requires MemoryOk(m) && root < FRAMES && k <= 3
    ensures c <= k
  {
    if k == 0 then 0 else LackCount(m, root, p, k - 1) + if Has(m, root, p, k) then 0 else 1
  }

  lemma {:induction false} LackingSize(m: seq<Word>, root: nat, p: Path, k: nat)
    requires MemoryOk(m) && root < FRAMES && k <= 3
    ensures |Lacking(m, root, p, k)| == LackCount(m, root, p, k)
  {
    hide Has;
    if k == 0 {
      assert Lacking(m, root, p, 0) == {};
    } else {
      LackingSize(m, root, p, k - 1);
      var a := Lacking(m, root, p, k - 1);
      assert PlaceOf(p, k) !in a;
      assert Lacking(m, root, p, k) == if Has(m, root, p, k) then a else a + {PlaceOf(p, k)};
    }
  }

  /** The places of the tables that the pages [s, s + n) need and do not have. */
  ghost function Missing(m: seq<Word>, root: nat, s: nat, n: nat): set<Place>
    requires MemoryOk(m) && root < FRAMES
  {
    set x: nat, l: nat | s <= x < s + n && 1 <= l <= 3 && !Has(m, root, PathOf(x), l) :: PlaceOf(PathOf(x), l)
  }

  /** Creating the tables of one page of the range takes its places from the missing ones. */
  lemma MissingAfter(m: seq<Word>, m': seq<Word>, root: nat, s: nat, n: nat, x: nat)
    requires Opened(m, m', root, PathOf(x), 3) && s <= x < s + n
    ensures Missing(m', root, s, n) == Missing(m, root, s, n) - Lacking(m, root, PathOf(x), 3)
    ensures Lacking(m, root, PathOf(x), 3) <= Missing(m, root, s, n)
    ensures |Missing(m', root, s, n)| == |Missing(m, root, s, n)| - LackCount(m, root, PathOf(x), 3)
  {
    hide Has, PathOf;
    var p := PathOf(x);
    var a, b, c := Missing(m, root, s, n), Missing(m', root, s, n), Lacking(m, root, p, 3);
    LackingIsMissing(m, root, s, n, x);
    forall q | q in b ensures q in a && q !in c {
      var y: nat, l: nat :| s <= y < s + n && 1 <= l <= 3 && !Has(m', root, PathOf(y), l) && q == PlaceOf(PathOf(y), l);
      assert !Has(m, root, PathOf(y), l);
    }
    forall q | q in a && q !in c ensures q in b {
      var y: nat, l: nat :| s <= y < s + n && 1 <= l <= 3 && !Has(m, root, PathOf(y), l) && q == PlaceOf(PathOf(y), l);
      LacksSame(m, root, PathOf(y), p, l);
      assert !Has(m', root, PathOf(y), l);
    }
    assert b == a - c;
    LackingSize(m, root, p, 3);
  }

  lemma LackingIsMissing(m: seq<Word>, root: nat, s: nat, n: nat, x: nat)
    requires MemoryOk(m) && root < FRAMES && s <= x < s + n
    ensures Lacking(m, root, PathOf(x), 3) <= Missing(m, root, s, n)
    ensures LackCount(m, root, PathOf(x), 3) <= |Missing(m, root, s, n)|
  {
    hide Has, PathOf;
    var p := PathOf(x);
    forall q | q in Lacking(m, root, p, 3) ensures q in Missing(m, root, s, n) {
      var l: nat :| 1 <= l <= 3 && !Has(m, root, p, l) && q == PlaceOf(p, l);
      assert !Has(m, root, PathOf(x), l);
    }
    LackingSize(m, root, p, 3);
    SubsetSize(Lacking(m, root, p, 3), Missing(m, root, s, n));
  }

  lemma LacksSame(m: seq<Word>, root: nat, q: Path, p: Path, l: nat)
    requires MemoryOk(m) && root < FRAMES && 1 <= l <= 3 && !Has(m, root, q, l)
    ensures PlaceOf(q, l) == PlaceOf(p, l) ==> PlaceOf(q, l) in Lacking(m, root, p, 3)
  {
    if PlaceOf(q, l) == PlaceOf(p, l) {
      SamePlaceSameTable(m, root, p, q, l);
      assert !Has(m, root, p, l);
    }
  }

  /** A range whose every page is mapped to a frame lacks no table. */
  lemma NoneMissing(m: seq<Word>, root: nat, s: nat, n: nat)
    requires MemoryOk(m) && root < FRAMES
    requires forall x: nat :: InRange(x, s, n) ==> Walk(m, root, PathOf(x)).Page?
    ensures Missing(m, root, s, n) == {}
  {
    hide PathOf;
    forall x: nat, l: nat | s <= x < s + n && 1 <= l <= 3 ensures Has(m, root, PathOf(x), l) {
      assert InRange(x, s, n);
      HasAbove(m, root, PathOf(x));
    }
  }
}
