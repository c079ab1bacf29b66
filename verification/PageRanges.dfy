/** Clearing a range of virtual pages: what it must do, and when page tables
    that hold 2 MB entries allow it. */
module PageRanges {
  import opened Words
  import opened PageTable

  /** Ranges stay within one canonical half of the address space: 2^47 bytes. */
  const MAX_RANGE: nat := 0x8_0000_0000

  predicate InRange(x: nat, s: nat, n: nat) { s <= x < s + n }

  /** Some page of the range [s, s + n) has this path. */
  ghost predicate Covered(p: Path, s: nat, n: nat)
  {
    exists x: nat :: InRange(x, s, n) && PathOf(x) == p
  }

  /** The translation afterwards is the old one with the range removed. */
  ghost predicate Removed(m: seq<Word>, m': seq<Word>, root: nat, s: nat, n: nat)
    requires MemoryOk(m) && MemoryOk(m') && root < FRAMES
  {
    forall p: Path :: Walk(m', root, p) == if Covered(p, s, n) then Unmapped else Walk(m, root, p)
  }

  /** The same, observed as frames only. */
  ghost predicate RemovedFrames(m: seq<Word>, m': seq<Word>, root: nat, s: nat, n: nat)
    requires MemoryOk(m) && MemoryOk(m') && root < FRAMES
  {
    forall p: Path :: Target(m', root, p) == if Covered(p, s, n) then -1 else Target(m, root, p)
  }

  function Base(x: nat): nat { x / 512 * 512 }

  /** Every 2 MB page that meets the range lies inside it. */
  ghost predicate WholeHugePages(m: seq<Word>, root: nat, s: nat, n: nat)
    requires MemoryOk(m) && root < FRAMES
  {
    forall x: nat :: InRange(x, s, n) && Walk(m, root, PathOf(x)).HugePage? ==> s <= Base(x) && Base(x) + 512 <= s + n
  }

  /** Words were only ever cleared. */
  ghost predicate OnlyCleared(m: seq<Word>, m': seq<Word>)
  {
    && MemoryOk(m) && MemoryOk(m')
    && forall k :: 0 <= k < PHYS_WORDS ==> m'[k] == m[k] || m'[k] == 0
  }

  // ----- pages of one 2 MB block

  lemma SameBlock(x: nat, y: nat)
    requires Base(x) == Base(y)
    ensures PathOf(x).i0 == PathOf(y).i0 && PathOf(x).i1 == PathOf(y).i1 && PathOf(x).i2 == PathOf(y).i2
  {
    BlockIndices(x);
    BlockIndices(y);
  }

  lemma BlockIndices(x: nat)
    ensures PathOf(x).i0 == x / 512 / 0x4_0000 % 512
    ensures PathOf(x).i1 == x / 512 / 0x200 % 512
    ensures PathOf(x).i2 == x / 512 % 512
  {
  }

  lemma BlockSpan(x: nat)
    ensures Base(x) <= x < Base(x) + 512 && Base(x) % 512 == 0
    ensures forall y: nat :: InRange(y, Base(x), 512) ==> Base(y) == Base(x)
  {
  }

  /** A path with the upper indices of x belongs to a page of its block. */
  lemma PageInBlock(x: nat, p: Path) returns (y: nat)
    requires p.i0 == PathOf(x).i0 && p.i1 == PathOf(x).i1 && p.i2 == PathOf(x).i2
    ensures InRange(y, Base(x), 512) && PathOf(y) == p
  {
    y := Base(x) + p.i3;
    BlockSpan(x);
    SameBlock(x, y);
  }

  /** Whether a page is reached through a 2 MB entry depends on its block only. */
  lemma HugeIsPerBlock(m: seq<Word>, root: nat, p: Path, q: Path)
    requires MemoryOk(m) && root < FRAMES
    requires p.i0 == q.i0 && p.i1 == q.i1 && p.i2 == q.i2
    ensures Walk(m, root, p).HugePage? ==> Walk(m, root, q) == Walk(m, root, p)
  {
    SamePrefixSameTable(m, root, p, q, 2);
    SamePrefixSameTable(m, root, p, q, 3);
  }

  // ----- a partly covered 2 MB page cannot be cleared by clearing words

  lemma {:induction false} ClearedTables(m: seq<Word>, m': seq<Word>, root: nat, p: Path, level: nat)
    requires OnlyCleared(m, m') && root < FRAMES && level <= 3
    ensures TableOn(m', root, p, level) >= 0 ==> TableOn(m', root, p, level) == TableOn(m, root, p, level)
  {
    if level > 0 {
      ClearedTables(m, m', root, p, level - 1);
    }
  }

  lemma PartlyCovered(m: seq<Word>, m': seq<Word>, root: nat, p: Path, q: Path)
    requires OnlyCleared(m, m') && root < FRAMES
    requires p.i0 == q.i0 && p.i1 == q.i1 && p.i2 == q.i2 && Walk(m, root, p).HugePage?
    ensures Target(m, root, q) >= 0
    ensures Target(m', root, p) >= 0 <==> Target(m', root, q) >= 0
  {
    HugeIsPerBlock(m, root, p, q);
    ClearedTables(m, m', root, p, 2);
    SamePrefixSameTable(m', root, p, q, 2);
    SamePrefixSameTable(m', root, p, q, 3);
    var t := TableOn(m', root, p, 2);
    if t >= 0 {
      assert Slot(m', t, p.i2) == Slot(m, t, p.i2) || Slot(m', t, p.i2) == 0;
    }
  }

  lemma FarPagesDiffer(x: nat, s: nat, n: nat)
    requires !InRange(x, s, n) && n <= MAX_RANGE && s < x + 512 && x < s + n + 512
    ensures !Covered(PathOf(x), s, n)
  {
    forall y: nat | InRange(y, s, n) ensures PathOf(y) != PathOf(x) {
      PathIdentity(x, y);
      NearbyDiffer(x, y);
    }
  }

  lemma NearbyDiffer(x: nat, y: nat)
    requires x != y && x < y + 0x10_0000_0000 && y < x + 0x10_0000_0000
    ensures x % 0x10_0000_0000 != y % 0x10_0000_0000
  {
  }

  /** If some 2 MB page is only partly inside the range, clearing words cannot
      remove exactly the range. */
  lemma PartialIsImpossible(m: seq<Word>, m': seq<Word>, root: nat, s: nat, n: nat)
    requires OnlyCleared(m, m') && root < FRAMES && n <= MAX_RANGE
    requires !WholeHugePages(m, root, s, n)
    ensures !RemovedFrames(m, m', root, s, n)
  {
    var x: nat :| InRange(x, s, n) && Walk(m, root, PathOf(x)).HugePage? && !(s <= Base(x) && Base(x) + 512 <= s + n);
    var y := OutsidePage(x, s, n);
    SameBlock(x, y);
    PartlyCovered(m, m', root, PathOf(x), PathOf(y));
    assert Covered(PathOf(x), s, n);
  }

  /** A page of x's block that the range does not reach. */
  lemma OutsidePage(x: nat, s: nat, n: nat) returns (y: nat)
    requires InRange(x, s, n) && n <= MAX_RANGE && !(s <= Base(x) && Base(x) + 512 <= s + n)
    ensures Base(y) == Base(x) && !Covered(PathOf(y), s, n)
  {
    BlockSpan(x);
    y := if s > Base(x) then s - 1 else s + n;
    assert InRange(y, Base(x), 512) && !InRange(y, s, n);
    FarPagesDiffer(y, s, n);
  }

  lemma RemovedIsRemovedFrames(m: seq<Word>, m': seq<Word>, root: nat, s: nat, n: nat)
    requires MemoryOk(m) && MemoryOk(m') && root < FRAMES
    requires Removed(m, m', root, s, n)
    ensures RemovedFrames(m, m', root, s, n)
  {
  }

  // ----- one step of the removal

  /** Pages [s, s + i) are gone and nothing else changed. */
  lemma RemoveOne(m: seq<Word>, m1: seq<Word>, m2: seq<Word>, root: nat, s: nat, i: nat)
    requires MemoryOk(m) && MemoryOk(m1) && MemoryOk(m2) && root < FRAMES
    requires Removed(m, m1, root, s, i)
    requires forall p: Path :: Walk(m2, root, p) == if p == PathOf(s + i) then Unmapped else Walk(m1, root, p)
    ensures Removed(m, m2, root, s, i + 1)
  {
    forall p: Path ensures Covered(p, s, i + 1) <==> Covered(p, s, i) || p == PathOf(s + i) {
      if p == PathOf(s + i) { assert InRange(s + i, s, i + 1); }
      if Covered(p, s, i) {
        var x: nat :| InRange(x, s, i) && PathOf(x) == p;
        assert InRange(x, s, i + 1);
      }
      if Covered(p, s, i + 1) && p != PathOf(s + i) {
        var x: nat :| InRange(x, s, i + 1) && PathOf(x) == p;
        assert InRange(x, s, i);
      }
    }
  }

  // ----- ranges that cut 2 MB pages

  /** Page x lies in a 2 MB page that is only partly in the range. */
  ghost predicate CutAt(m: seq<Word>, root: nat, s: nat, n: nat, x: nat)
    requires MemoryOk(m) && root < FRAMES
  {
    Walk(m, root, PathOf(x)).HugePage? && !(s <= Base(x) && Base(x) + 512 <= s + n)
  }

  /** The path belongs to one of the first i pages of the range, and to no 2 MB page that is cut. */
  ghost predicate Goes(m: seq<Word>, root: nat, p: Path, s: nat, n: nat, i: nat)
    requires MemoryOk(m) && root < FRAMES
  {
    exists x: nat :: InRange(x, s, i) && PathOf(x) == p && !CutAt(m, root, s, n, x)
  }

  /** The first i pages are gone, except from 2 MB pages that are cut, and nothing else is. */
  ghost predicate RemovedBut(m: seq<Word>, m': seq<Word>, root: nat, s: nat, n: nat, i: nat)
    requires MemoryOk(m) && MemoryOk(m') && root < FRAMES
  {
    forall p: Path :: Walk(m', root, p) == if Goes(m, root, p, s, n, i) then Unmapped else Walk(m, root, p)
  }

  lemma NothingRemovedBut(m: seq<Word>, root: nat, s: nat, n: nat)
    requires MemoryOk(m) && root < FRAMES
    ensures RemovedBut(m, m, root, s, n, 0)
  {
  }

  /** Going from i to i + k pages. */
  lemma GoesMore(m: seq<Word>, root: nat, p: Path, s: nat, n: nat, i: nat, k: nat)
    requires MemoryOk(m) && root < FRAMES
    ensures Goes(m, root, p, s, n, i + k) <==>
              || Goes(m, root, p, s, n, i)
              || (exists x: nat :: InRange(x, s + i, k) && PathOf(x) == p && !CutAt(m, root, s, n, x))
  {
    hide CutAt, PathOf;
    if Goes(m, root, p, s, n, i + k) {
      var x: nat :| InRange(x, s, i + k) && PathOf(x) == p && !CutAt(m, root, s, n, x);
      assert InRange(x, s, i) || InRange(x, s + i, k);
    }
    if Goes(m, root, p, s, n, i) {
      var x: nat :| InRange(x, s, i) && PathOf(x) == p && !CutAt(m, root, s, n, x);
      assert InRange(x, s, i + k);
    }
    if exists x: nat :: InRange(x, s + i, k) && PathOf(x) == p && !CutAt(m, root, s, n, x) {
      var x: nat :| InRange(x, s + i, k) && PathOf(x) == p && !CutAt(m, root, s, n, x);
      assert InRange(x, s, i + k);
    }
  }

  lemma ButOne(m: seq<Word>, m1: seq<Word>, m2: seq<Word>, root: nat, s: nat, n: nat, i: nat)
    requires MemoryOk(m) && MemoryOk(m1) && MemoryOk(m2) && root < FRAMES && RemovedBut(m, m1, root, s, n, i)
    requires !CutAt(m, root, s, n, s + i)
    requires forall p: Path :: Walk(m2, root, p) == if p == PathOf(s + i) then Unmapped else Walk(m1, root, p)
    ensures RemovedBut(m, m2, root, s, n, i + 1)
  {
    hide CutAt, PathOf, Walk, Goes;
    assert InRange(s + i, s + i, 1);
    forall p: Path ensures Goes(m, root, p, s, n, i + 1) <==> Goes(m, root, p, s, n, i) || p == PathOf(s + i) {
      GoesMore(m, root, p, s, n, i, 1);
    }
  }

  lemma ButSkip(m: seq<Word>, m1: seq<Word>, m2: seq<Word>, root: nat, s: nat, n: nat, i: nat)
    requires MemoryOk(m) && MemoryOk(m1) && MemoryOk(m2) && root < FRAMES && RemovedBut(m, m1, root, s, n, i)
    requires CutAt(m, root, s, n, s + i) && forall p: Path :: Walk(m2, root, p) == Walk(m1, root, p)
    ensures RemovedBut(m, m2, root, s, n, i + 1)
  {
    hide CutAt, PathOf, Walk, Goes;
    forall p: Path ensures Goes(m, root, p, s, n, i + 1) <==> Goes(m, root, p, s, n, i) {
      GoesMore(m, root, p, s, n, i, 1);
    }
  }

  lemma RemoveBlock(m: seq<Word>, m1: seq<Word>, m2: seq<Word>, root: nat, s: nat, n: nat, i: nat)
    requires MemoryOk(m) && MemoryOk(m1) && MemoryOk(m2) && root < FRAMES && RemovedBut(m, m1, root, s, n, i)
    requires (s + i) % 512 == 0 && i + 512 <= n
    requires var b := PathOf(s + i);
             forall p: Path :: Walk(m2, root, p) ==
               if p.i0 == b.i0 && p.i1 == b.i1 && p.i2 == b.i2 then Unmapped else Walk(m1, root, p)
    ensures RemovedBut(m, m2, root, s, n, i + 512)
  {
    hide PathOf, Walk, Goes;
    var b := PathOf(s + i);
    forall p: Path
      ensures Goes(m, root, p, s, n, i + 512) <==>
              Goes(m, root, p, s, n, i) || (p.i0 == b.i0 && p.i1 == b.i1 && p.i2 == b.i2)
    {
      GoesMore(m, root, p, s, n, i, 512);
      BlockGoes(m, root, p, s, n, s + i);
    }
  }

  lemma BlockGoes(m: seq<Word>, root: nat, p: Path, s: nat, n: nat, x: nat)
    requires MemoryOk(m) && root < FRAMES && x % 512 == 0 && s <= x && x + 512 <= s + n
    ensures (exists y: nat :: InRange(y, x, 512) && PathOf(y) == p && !CutAt(m, root, s, n, y)) <==>
            p.i0 == PathOf(x).i0 && p.i1 == PathOf(x).i1 && p.i2 == PathOf(x).i2
  {
    BlockSpan(x);
    hide PathOf, Walk;
    if p.i0 == PathOf(x).i0 && p.i1 == PathOf(x).i1 && p.i2 == PathOf(x).i2 {
      var y := PageInBlock(x, p);
      assert !CutAt(m, root, s, n, y);
    }
    if exists y: nat :: InRange(y, x, 512) && PathOf(y) == p && !CutAt(m, root, s, n, y) {
      var y: nat :| InRange(y, x, 512) && PathOf(y) == p && !CutAt(m, root, s, n, y);
      SameBlock(x, y);
    }
  }

  /** A 2 MB page that is cut is met as it was, and never as a whole block. */
  lemma MeetsCut(m: seq<Word>, m1: seq<Word>, root: nat, s: nat, n: nat, i: nat)
    requires MemoryOk(m) && MemoryOk(m1) && root < FRAMES && RemovedBut(m, m1, root, s, n, i) && i < n <= MAX_RANGE
    requires CutAt(m, root, s, n, s + i)
    ensures Walk(m1, root, PathOf(s + i)) == Walk(m, root, PathOf(s + i))
    ensures !((s + i) % 512 == 0 && i + 512 <= n)
  {
    var x := s + i;
    BlockSpan(x);
    forall y: nat | InRange(y, s, i) ensures PathOf(y) != PathOf(x) {
      PathIdentity(x, y);
      NearbyDiffer(x, y);
    }
    hide PathOf, Walk;
    assert !Goes(m, root, PathOf(x), s, n, i);
  }

  /** Any other is met at its first page, with all of it still to come. */
  lemma MeetsAtBase(m: seq<Word>, m1: seq<Word>, root: nat, s: nat, n: nat, i: nat)
    requires MemoryOk(m) && MemoryOk(m1) && root < FRAMES && RemovedBut(m, m1, root, s, n, i) && i < n
    requires Walk(m1, root, PathOf(s + i)).HugePage? && !CutAt(m, root, s, n, s + i)
    ensures (s + i) % 512 == 0 && i + 512 <= n
  {
    hide PathOf, Walk;
    var x := s + i;
    BlockSpan(x);
    var b := Base(x);
    if b < x {
      SameBlock(x, b);
      HugeIsPerBlock(m, root, PathOf(x), PathOf(b));
      assert InRange(b, s, i) && !CutAt(m, root, s, n, b);
      assert Goes(m, root, PathOf(b), s, n, i);
      HugeIsPerBlock(m1, root, PathOf(x), PathOf(b));
    }
  }

  /** Where no 2 MB page is cut, exactly the range is gone. */
  lemma ButIsRemoved(m: seq<Word>, m': seq<Word>, root: nat, s: nat, n: nat)
    requires MemoryOk(m) && MemoryOk(m') && root < FRAMES
    requires RemovedBut(m, m', root, s, n, n) && WholeHugePages(m, root, s, n)
    ensures Removed(m, m', root, s, n)
  {
    hide PathOf, Walk;
    forall p: Path ensures Goes(m, root, p, s, n, n) <==> Covered(p, s, n) {
      if Covered(p, s, n) {
        var x: nat :| InRange(x, s, n) && PathOf(x) == p;
        assert !CutAt(m, root, s, n, x);
      }
    }
  }
}
