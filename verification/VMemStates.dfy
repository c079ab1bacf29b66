/** States of the virtual memory manager as values: what its operations write
    and what that does to the translation of every page. */
module VMemStates {
  import opened Words
  import opened PageTable
  import opened PageRanges
  import opened MissingTables
  import opened PMem
  import opened FrameBitmap
  import opened Sets

  function PageOf(v: Word): nat { v / PAGE_SIZE }

  /** The path of an address's page. */
  function PathTo(v: Word): Path { PathOf(PageOf(v)) }

  // ----- the words written

  lemma LeafWriteTree(m: seq<Word>, root: nat, tables: Tables, p: Path, level: nat, e: Word)
    requires Tree(m, root, tables) && level <= 3 && TableOn(m, root, p, level) >= 0
    requires !IsLink(level, Slot(m, TableOn(m, root, p, level), p.At(level))) && !IsLink(level, e)
    ensures Tree(m[TableOn(m, root, p, level) * 512 + p.At(level) := e], root, tables)
  {
    OnTree(m, root, tables, p, level);
    WriteLeafTree(m, root, tables, TableOn(m, root, p, level), p.At(level), e);
  }

  /** Writing an entry of the last-level table changes the translation of its page only. */
  lemma PageEntryWrite(m: seq<Word>, root: nat, tables: Tables, p: Path, e: Word)
    requires Tree(m, root, tables) && TableOn(m, root, p, 3) >= 0
    ensures var m' := m[TableOn(m, root, p, 3) * 512 + p.i3 := e];
            forall q: Path :: Walk(m', root, q) == if q == p then LeafOf(3, e) else Walk(m, root, q)
  {
    hide Tree, Walk, TableOn;
    TreeBasics(m, root, tables);
    var m' := m[TableOn(m, root, p, 3) * 512 + p.i3 := e];
    forall q: Path ensures Walk(m', root, q) == if q == p then LeafOf(3, e) else Walk(m, root, q) {
      PageEntryWriteOn(m, root, tables, p, e, q);
    }
  }

  lemma PageEntryWriteOn(m: seq<Word>, root: nat, tables: Tables, p: Path, e: Word, q: Path)
    requires Tree(m, root, tables) && TableOn(m, root, p, 3) >= 0
    ensures Walk(m[TableOn(m, root, p, 3) * 512 + p.i3 := e], root, q) ==
            if q == p then LeafOf(3, e) else Walk(m, root, q)
  {
    hide Tree, Walk;
    TreeBasics(m, root, tables);
    var t := TableOn(m, root, p, 3);
    OnTree(m, root, tables, p, 3);
    WriteLeafOn(m, root, tables, t, p.i3, e, q);
    if Through(m, root, q, 3, t, p.i3) {
      SameTableSamePrefix(m, root, tables, p, q, 3);
      assert p.At(0) == q.At(0) && p.At(1) == q.At(1) && p.At(2) == q.At(2);
    }
  }

  predicate SameBlockPath(p: Path, q: Path) { p.i0 == q.i0 && p.i1 == q.i1 && p.i2 == q.i2 }

  /** Writing a page-directory entry that is not a link over one that is not
      changes the translation of the 512 pages of its block only. */
  lemma DirectoryWrite(m: seq<Word>, root: nat, tables: Tables, p: Path, e: Word)
    requires Tree(m, root, tables) && TableOn(m, root, p, 2) >= 0
    requires !IsLink(2, Slot(m, TableOn(m, root, p, 2), p.i2)) && !IsLink(2, e)
    ensures var m' := m[TableOn(m, root, p, 2) * 512 + p.i2 := e];
            forall q: Path :: Walk(m', root, q) == if SameBlockPath(p, q) then LeafOf(2, e) else Walk(m, root, q)
  {
    hide Tree, Walk, TableOn;
    TreeBasics(m, root, tables);
    var m' := m[TableOn(m, root, p, 2) * 512 + p.i2 := e];
    forall q: Path
      ensures Walk(m', root, q) == if SameBlockPath(p, q) then LeafOf(2, e) else Walk(m, root, q)
    {
      DirectoryWriteOn(m, root, tables, p, e, q);
    }
  }

  lemma DirectoryWriteOn(m: seq<Word>, root: nat, tables: Tables, p: Path, e: Word, q: Path)
    requires Tree(m, root, tables) && TableOn(m, root, p, 2) >= 0
    requires !IsLink(2, Slot(m, TableOn(m, root, p, 2), p.i2)) && !IsLink(2, e)
    ensures Walk(m[TableOn(m, root, p, 2) * 512 + p.i2 := e], root, q) ==
            if SameBlockPath(p, q) then LeafOf(2, e) else Walk(m, root, q)
  {
    hide Tree, Walk;
    TreeBasics(m, root, tables);
    var t := TableOn(m, root, p, 2);
    OnTree(m, root, tables, p, 2);
    WriteLeafOn(m, root, tables, t, p.i2, e, q);
    if Through(m, root, q, 2, t, p.i2) {
      SameTableSamePrefix(m, root, tables, p, q, 2);
      assert p.At(0) == q.At(0) && p.At(1) == q.At(1);
    } else if SameBlockPath(p, q) {
      SamePrefixSameTable(m, root, p, q, 2);
    }
  }

  /** A write over an absent word is not on the walk of a path that ends in a 2 MB page. */
  lemma StrayWrite(m: seq<Word>, root: nat, p: Path, k: nat, e: Word)
    requires MemoryOk(m) && root < FRAMES && k < PHYS_WORDS && !Present(m[k])
    requires Walk(m, root, p).HugePage?
    ensures Walk(m[k := e], root, p) == Walk(m, root, p)
  {
    assert TableOn(m[k := e], root, p, 0) == TableOn(m, root, p, 0);
    assert TableOn(m[k := e], root, p, 1) == TableOn(m, root, p, 1);
    assert TableOn(m[k := e], root, p, 2) == TableOn(m, root, p, 2);
  }

  // ----- states of the manager, as values

  /** Physical memory, where the tables hang, and the frames in use. */
  datatype State = State(m: seq<Word>, tables: Tables, used: set<nat>)

  /** The tables form a tree of frames that are in use. */
  ghost predicate Sound(s: State, root: nat)
  {
    && Tree(s.m, root, s.tables)
    && forall t :: t in s.tables ==> 0 < t && t in s.used
  }

  ghost predicate SameTranslation(m: seq<Word>, m': seq<Word>, root: nat)
  {
    && MemoryOk(m) && MemoryOk(m') && root < FRAMES
    && forall p: Path :: Walk(m', root, p) == Walk(m, root, p)
  }

  /** Frames were taken for new tables and for nothing else. */
  ghost predicate FramesForTables(s: State, s': State)
  {
    && s.tables.Keys <= s'.tables.Keys
    && (s'.tables.Keys - s.tables.Keys) !! s.used
    && s'.used == s.used + (s'.tables.Keys - s.tables.Keys)
  }

  /** Empty tables may have been linked; no translation changed. */
  ghost predicate Grown(s: State, s': State, root: nat)
  {
    && Sound(s', root)
    && FramesForTables(s, s')
    && SameTranslation(s.m, s'.m, root)
  }

  lemma GrownSelf(s: State, root: nat)
    requires Sound(s, root) && root < FRAMES
    ensures Grown(s, s, root)
  {
  }

  lemma GrownTwice(s: State, s1: State, s2: State, root: nat)
    requires Grown(s, s1, root) && Grown(s1, s2, root)
    ensures Grown(s, s2, root)
  {
    assert s2.used == s.used + (s2.tables.Keys - s.tables.Keys);
  }

  predicate LinksTo(e: Word, f: nat) { Present(e) && !Large(e) && Frame(e) == f }

  /** A free frame has been cleared and can be linked from an absent entry on the path. */
  lemma AdoptReady(s: State, m1: seq<Word>, root: nat, f: nat, e: Word, p: Path, level: nat)
    requires Sound(s, root) && level <= 2 && TableOn(s.m, root, p, level) >= 0
    requires f !in s.used && LinksTo(e, f) && Zeroed(s.m, m1, f)
    requires !Present(Slot(s.m, TableOn(s.m, root, p, level), p.At(level)))
    ensures SameTranslation(s.m, m1, root) && TableOn(m1, root, p, level) == TableOn(s.m, root, p, level)
    ensures Linkable(m1, root, s.tables, TableOn(s.m, root, p, level), p.At(level), f, e)
    ensures s.tables[TableOn(s.m, root, p, level)].level == level
  {
    var t, i := TableOn(s.m, root, p, level), p.At(level);
    OnTree(s.m, root, s.tables, p, level);
    ZeroKeeps(s.m, m1, root, s.tables, f);
    ZeroKeepsTables(s.m, m1, root, s.tables, f, p, level);
    SlotZeroed(s.m, m1, f, t, i);
  }

  lemma AdoptSame(m: seq<Word>, m1: seq<Word>, root: nat, tables: Tables, t: nat, i: Index, f: nat, e: Word)
    requires SameTranslation(m, m1, root) && Linkable(m1, root, tables, t, i, f, e)
    ensures SameTranslation(m, m1[t * 512 + i := e], root)
  {
    var m2 := m1[t * 512 + i := e];
    forall q: Path ensures Walk(m2, root, q) == Walk(m, root, q) {
      LinkWalk(m1, root, tables, t, i, f, e, q);
    }
  }

  /** Linking it grows the tree and changes no translation. */
  lemma AdoptFrame(s: State, m1: seq<Word>, root: nat, f: nat, e: Word, p: Path, level: nat)
    requires Sound(s, root) && level <= 2 && TableOn(s.m, root, p, level) >= 0
    requires f !in s.used && 0 < f && LinksTo(e, f) && Zeroed(s.m, m1, f)
    requires !Present(Slot(s.m, TableOn(s.m, root, p, level), p.At(level)))
    ensures var t, i := TableOn(s.m, root, p, level), p.At(level);
            Grown(s, State(m1[t * 512 + i := e], s.tables[f := Node(level + 1, t, i)], s.used + {f}), root)
    ensures TableOn(m1[TableOn(s.m, root, p, level) * 512 + p.At(level) := e], root, p, level + 1) == f
  {
    hide Tree, Walk, TableOn;
    TreeBasics(s.m, root, s.tables);
    var t, i := TableOn(s.m, root, p, level), p.At(level);
    AdoptReady(s, m1, root, f, e, p, level);
    LinkTree(m1, root, s.tables, t, i, f, e);
    AdoptSame(s.m, m1, root, s.tables, t, i, f, e);
    LinkTables(m1, root, s.tables, t, i, f, e, p, level + 1);
    var s' := State(m1[t * 512 + i := e], s.tables[f := Node(level + 1, t, i)], s.used + {f});
    assert s'.tables.Keys == s.tables.Keys + {f};
    assert FramesForTables(s, s');
  }

  /** Page p, unmapped before, now leads to frame f; every other translation is as before. */
  ghost predicate MapsPage(s: State, s': State, root: nat, p: Path, f: nat)
  {
    && root < FRAMES && MemoryOk(s.m)
    && Sound(s', root)
    && FramesForTables(s, s')
    && Walk(s.m, root, p) == Unmapped
    && forall q: Path :: Walk(s'.m, root, q) == if q == p then Page(f) else Walk(s.m, root, q)
  }

  lemma WritePage(s: State, s1: State, root: nat, p: Path, e: Word)
    requires Grown(s, s1, root) && TableOn(s1.m, root, p, 3) >= 0
    requires !Present(Slot(s1.m, TableOn(s1.m, root, p, 3), p.i3)) && Present(e)
    ensures MapsPage(s, s1.(m := s1.m[TableOn(s1.m, root, p, 3) * 512 + p.i3 := e]), root, p, Frame(e))
  {
    hide Tree, TableOn;
    assert p.At(3) == p.i3;
    LeafWriteTree(s1.m, root, s1.tables, p, 3, e);
    PageEntryWrite(s1.m, root, s1.tables, p, e);
    assert Walk(s1.m, root, p) == Unmapped;
  }

  /** The 512 pages of p's block, unmapped before, now lead through one 2 MB
      entry; every other translation is as before. */
  ghost predicate MapsBlock(s: State, s': State, root: nat, p: Path, f: nat)
  {
    && root < FRAMES && MemoryOk(s.m)
    && Sound(s', root)
    && FramesForTables(s, s')
    && (forall q: Path :: SameBlockPath(p, q) ==> Walk(s.m, root, q) == Unmapped)
    && forall q: Path :: Walk(s'.m, root, q) == if SameBlockPath(p, q) then HugePage(f) else Walk(s.m, root, q)
  }

  lemma WriteBlock(s: State, s1: State, root: nat, p: Path, e: Word)
    requires Grown(s, s1, root) && TableOn(s1.m, root, p, 2) >= 0
    requires !Present(Slot(s1.m, TableOn(s1.m, root, p, 2), p.i2)) && Present(e) && Large(e)
    ensures MapsBlock(s, s1.(m := s1.m[TableOn(s1.m, root, p, 2) * 512 + p.i2 := e]), root, p, Frame(e))
  {
    hide Tree;
    assert p.At(2) == p.i2;
    LeafWriteTree(s1.m, root, s1.tables, p, 2, e);
    DirectoryWrite(s1.m, root, s1.tables, p, e);
    forall q: Path | SameBlockPath(p, q) ensures Walk(s1.m, root, q) == Unmapped {
      SamePrefixSameTable(s1.m, root, p, q, 2);
    }
  }

  /** Which tables a walk has met, by how it ends, and how it ends by the tables it has met. */
  lemma WalkTables(m: seq<Word>, root: nat, p: Path)
    requires MemoryOk(m) && root < FRAMES
    ensures Walk(m, root, p).HugePage? ==> TableOn(m, root, p, 2) >= 0 && TableOn(m, root, p, 3) < 0
    ensures Walk(m, root, p).Page? ==>
              && TableOn(m, root, p, 2) >= 0 && TableOn(m, root, p, 3) >= 0
              && Present(Slot(m, TableOn(m, root, p, 3), p.i3))
    ensures TableOn(m, root, p, 2) < 0 ==> Walk(m, root, p) == Unmapped
    ensures TableOn(m, root, p, 3) >= 0 ==>
              && TableOn(m, root, p, 2) >= 0 && !Large(Slot(m, TableOn(m, root, p, 2), p.i2))
              && (Walk(m, root, p) == Unmapped <==> !Present(Slot(m, TableOn(m, root, p, 3), p.i3)))
    ensures TableOn(m, root, p, 2) >= 0 ==>
              var e := Slot(m, TableOn(m, root, p, 2), p.i2);
              && (Walk(m, root, p).HugePage? <==> Present(e) && Large(e))
              && (TableOn(m, root, p, 3) < 0 && !Large(e) ==> Walk(m, root, p) == Unmapped)
  {
  }

  /** A present entry on the path leads to the next table, or is a 2 MB page. */
  lemma PresentEntry(m: seq<Word>, root: nat, p: Path, level: nat)
    requires MemoryOk(m) && root < FRAMES && level <= 2 && TableOn(m, root, p, level) >= 0
    requires Present(Slot(m, TableOn(m, root, p, level), p.At(level)))
    ensures var e := Slot(m, TableOn(m, root, p, level), p.At(level));
            if level == 2 && Large(e) then Walk(m, root, p) == HugePage(Frame(e))
            else TableOn(m, root, p, level + 1) == Frame(e) && !(level == 2 && Walk(m, root, p).HugePage?)
  {
  }

  /** A directory entry is present exactly when it leads to a table or a 2 MB page. */
  lemma EntryOrNone(m: seq<Word>, root: nat, p: Path)
    requires MemoryOk(m) && root < FRAMES && TableOn(m, root, p, 2) >= 0
    ensures Present(Slot(m, TableOn(m, root, p, 2), p.i2)) <==>
              TableOn(m, root, p, 3) >= 0 || Walk(m, root, p).HugePage?
  {
  }

  /** `table_virt[index] & PT_ADDR_MASK` for a valid table with that entry present, else 0. */
  function NextTable(m: seq<Word>, totalPages: nat, table: nat, i: Index): (next: nat)
    requires MemoryOk(m) && totalPages <= MAX_PAGES
    ensures next % PAGE_SIZE == 0 && next / PAGE_SIZE < FRAMES
  {
    if table == 0 || table >= totalPages * PAGE_SIZE then 0
    else
      var e := Slot(m, table / PAGE_SIZE, i);
      if Present(e) then Frame(e) * PAGE_SIZE else 0
  }

  /** The tables met on a path are frames in use, never frame 0. */
  lemma MetTablesInUse(s: State, root: nat, p: Path, level: nat)
    requires Sound(s, root) && level <= 3 && root < FRAMES && TableOn(s.m, root, p, level) >= 0
    ensures TableOn(s.m, root, p, level) in s.used && TableOn(s.m, root, p, level) > 0
  {
    OnTree(s.m, root, s.tables, p, level);
  }

  /** Following an existing table of the tree. */
  lemma NextOnTree(s: State, root: nat, total: nat, p: Path, level: nat)
    requires Sound(s, root) && total <= MAX_PAGES && (forall f :: f in s.used ==> f < total)
    requires level <= 2 && TableOn(s.m, root, p, level) >= 0
    ensures var t, next := TableOn(s.m, root, p, level), TableOn(s.m, root, p, level + 1);
            var e := Slot(s.m, t, p.At(level));
            && t > 0 && next != 0
            && NextTable(s.m, total, t * PAGE_SIZE, p.At(level)) ==
               if next > 0 then next * PAGE_SIZE else if level == 2 && Present(e) then Frame(e) * PAGE_SIZE else 0
  {
    OnTree(s.m, root, s.tables, p, level);
    OnTree(s.m, root, s.tables, p, level + 1);
  }

  /** The walk as the code makes it, lookup by lookup. */
  function LookUps(m: seq<Word>, total: nat, root: nat, p: Path): Leaf
    requires MemoryOk(m) && total <= MAX_PAGES
  {
    var pdp := NextTable(m, total, root * PAGE_SIZE, p.i0);
    if pdp == 0 then Unmapped else
    var pd := NextTable(m, total, pdp, p.i1);
    if pd == 0 then Unmapped else
    var pde := Slot(m, pd / PAGE_SIZE, p.i2);
    if !Present(pde) then Unmapped else
    if Large(pde) then HugePage(Frame(pde)) else
    var pt := NextTable(m, total, pd, p.i2);
    if pt == 0 then Unmapped else
    var pte := Slot(m, pt / PAGE_SIZE, p.i3);
    if Present(pte) then Page(Frame(pte)) else Unmapped
  }

  /** On a tree of frames in use it is the walk. */
  lemma LookUpsWalk(s: State, root: nat, total: nat, p: Path)
    requires Sound(s, root) && total <= MAX_PAGES && (forall f :: f in s.used ==> f < total)
    ensures root < FRAMES && LookUps(s.m, total, root, p) == Walk(s.m, root, p)
  {
    hide Tree, NextTable;
    TreeBasics(s.m, root, s.tables);
    assert p.At(0) == p.i0 && p.At(1) == p.i1 && p.At(2) == p.i2;
    NextOnTree(s, root, total, p, 0);
    if TableOn(s.m, root, p, 1) >= 0 {
      NextOnTree(s, root, total, p, 1);
      if TableOn(s.m, root, p, 2) >= 0 {
        NextOnTree(s, root, total, p, 2);
      }
    }
  }

  /** The tables the code's lookups meet. */
  lemma LookUpsMeetTables(s: State, root: nat, total: nat, p: Path)
    requires Sound(s, root) && total <= MAX_PAGES && (forall f :: f in s.used ==> f < total)
    ensures root < FRAMES
    ensures var pdp := NextTable(s.m, total, root * PAGE_SIZE, p.i0);
            var pd := NextTable(s.m, total, pdp, p.i1);
            var pt := NextTable(s.m, total, pd, p.i2);
            && (pd == 0 ==> TableOn(s.m, root, p, 2) < 0)
            && (pd != 0 ==> pdp != 0 && pd == TableOn(s.m, root, p, 2) * PAGE_SIZE)
            && (pd != 0 && !Walk(s.m, root, p).HugePage? ==>
                  if pt == 0 then TableOn(s.m, root, p, 3) < 0 else pt == TableOn(s.m, root, p, 3) * PAGE_SIZE)
  {
    hide Tree, NextTable;
    TreeBasics(s.m, root, s.tables);
    assert p.At(0) == p.i0 && p.At(1) == p.i1 && p.At(2) == p.i2;
    NextOnTree(s, root, total, p, 0);
    if TableOn(s.m, root, p, 1) >= 0 {
      NextOnTree(s, root, total, p, 1);
      if TableOn(s.m, root, p, 2) >= 0 {
        NextOnTree(s, root, total, p, 2);
      }
    } else {
      assert NextTable(s.m, total, 0, p.i1) == 0 by { NoTable(s.m, total, p.i1); }
    }
  }

  lemma NoTable(m: seq<Word>, total: nat, i: Index)
    requires MemoryOk(m) && total <= MAX_PAGES
    ensures NextTable(m, total, 0, i) == 0
  {
  }

  // ----- removing a page or a block

  ghost predicate RemovesPage(s: State, s': State, root: nat, p: Path)
  {
    && root < FRAMES && MemoryOk(s.m)
    && Sound(s', root) && s'.tables == s.tables && s'.used == s.used
    && forall q: Path :: Walk(s'.m, root, q) == if q == p then Unmapped else Walk(s.m, root, q)
  }

  ghost predicate RemovesBlock(s: State, s': State, root: nat, p: Path)
  {
    && root < FRAMES && MemoryOk(s.m)
    && Sound(s', root) && s'.tables == s.tables && s'.used == s.used
    && forall q: Path :: Walk(s'.m, root, q) == if SameBlockPath(p, q) then Unmapped else Walk(s.m, root, q)
  }

  ghost predicate KeepsAll(s: State, s': State, root: nat)
  {
    && root < FRAMES && MemoryOk(s.m)
    && Sound(s', root) && s'.tables == s.tables && s'.used == s.used
    && forall q: Path :: Walk(s'.m, root, q) == Walk(s.m, root, q)
  }

  lemma KeepsSelf(s: State, root: nat)
    requires Sound(s, root) && root < FRAMES
    ensures KeepsAll(s, s, root)
  {
  }

  /** Clearing a word of a frame that is not a table. */
  lemma StrayClear(s: State, root: nat, f: nat, i: Index)
    requires Sound(s, root) && root < FRAMES && f !in s.tables && f < FRAMES
    ensures KeepsAll(s, s.(m := s.m[f * 512 + i := 0]), root)
  {
    hide Tree, Walk;
    TreeBasics(s.m, root, s.tables);
    StrayKeeps(s.m, root, s.tables, f, i, 0);
  }

  lemma HugeFrame(m: seq<Word>, root: nat, p: Path)
    requires MemoryOk(m) && root < FRAMES
    ensures Walk(m, root, p).HugePage? ==>
              && TableOn(m, root, p, 2) >= 0 && TableOn(m, root, p, 3) < 0
              && Walk(m, root, p).frame == Frame(Slot(m, TableOn(m, root, p, 2), p.i2)) < FRAMES
              && Present(Slot(m, TableOn(m, root, p, 2), p.i2))
  {
  }

  lemma ClearEntry(s: State, root: nat, p: Path)
    requires Sound(s, root) && TableOn(s.m, root, p, 3) >= 0
    ensures RemovesPage(s, s.(m := s.m[TableOn(s.m, root, p, 3) * 512 + p.i3 := 0]), root, p)
  {
    hide Tree, TableOn, Walk;
    TreeBasics(s.m, root, s.tables);
    assert p.At(3) == p.i3;
    var e: Word := 0;
    assert LeafOf(3, e) == Unmapped;
    LeafWriteTree(s.m, root, s.tables, p, 3, e);
    PageEntryWrite(s.m, root, s.tables, p, e);
  }

  lemma ClearBlock(s: State, root: nat, p: Path)
    requires Sound(s, root) && TableOn(s.m, root, p, 2) >= 0
    requires Large(Slot(s.m, TableOn(s.m, root, p, 2), p.i2))
    ensures RemovesBlock(s, s.(m := s.m[TableOn(s.m, root, p, 2) * 512 + p.i2 := 0]), root, p)
  {
    hide Tree, TableOn, Walk;
    TreeBasics(s.m, root, s.tables);
    assert p.At(2) == p.i2;
    var e: Word := 0;
    assert LeafOf(2, e) == Unmapped;
    LeafWriteTree(s.m, root, s.tables, p, 2, e);
    DirectoryWrite(s.m, root, s.tables, p, e);
  }

  lemma NothingToRemove(s: State, root: nat, p: Path)
    requires Sound(s, root) && root < FRAMES && Walk(s.m, root, p) == Unmapped
    ensures RemovesPage(s, s, root, p)
  {
  }

  /** `base | offset` for an offset below the alignment of the base. */
  lemma JoinOffset(frame: nat, v: Word)
    ensures Or(frame * PAGE_SIZE, v % PAGE_SIZE) == frame * PAGE_SIZE + v % PAGE_SIZE
    ensures Or(frame / 512 * HUGE_PAGE_SIZE, v % HUGE_PAGE_SIZE) ==
            (frame / 512 * 512 + PathTo(v).i3) * PAGE_SIZE + v % PAGE_SIZE
  {
    Pow2Of40();
    assert Pow2(12) == 4096 by { Pow2Plus8(4); assert Pow2(4) == 16; }
    assert Pow2(21) == HUGE_PAGE_SIZE by { Pow2Plus8(13); Pow2Plus8(5); assert Pow2(5) == 32; }
    OrLow(frame, v % PAGE_SIZE, 12);
    OrLow(frame / 512, v % HUGE_PAGE_SIZE, 21);
    HugeOffset(v);
  }

  /** The address the code assembles from a leaf. */
  function Assemble(leaf: Leaf, v: Word): nat
  {
    match leaf
    case Unmapped => 0
    case Page(f) => Or(f * PAGE_SIZE, v % PAGE_SIZE)
    case HugePage(f) => Or(f / 512 * HUGE_PAGE_SIZE, v % HUGE_PAGE_SIZE)
  }

  lemma AssembleIsSum(leaf: Leaf, v: Word)
    ensures var t := FrameBehind(leaf, PathTo(v).i3);
            Assemble(leaf, v) == if t < 0 then 0 else t * PAGE_SIZE + v % PAGE_SIZE
  {
    if !leaf.Unmapped? { JoinOffset(leaf.frame, v); }
  }

  /** The same in plain numbers. */
  lemma AssembleMeans(leaf: Leaf, v: Word)
    ensures match leaf
            case Unmapped => Assemble(leaf, v) == 0
            case Page(f) => Assemble(leaf, v) == f * 0x1000 + v % 0x1000
            case HugePage(f) => Assemble(leaf, v) == f / 512 * 0x20_0000 + v % 0x20_0000
  {
    hide Or;
    if !leaf.Unmapped? {
      JoinOffset(leaf.frame, v);
      HugeOffset(v);
    }
  }

  lemma HugeOffset(v: Word)
    ensures v % HUGE_PAGE_SIZE == v / PAGE_SIZE % 512 * PAGE_SIZE + v % PAGE_SIZE
  {
  }

  // ----- what a mapping translates to, byte by byte

  lemma PageBytes(s: State, s': State, root: nat, v: Word, paddr: Word, flags: Word, o: nat)
    requires MapsPage(s, s', root, PathTo(v), MappedFrame(paddr, flags))
    requires v % PAGE_SIZE == 0 && paddr % PAGE_SIZE == 0 && paddr < MAX_PAGES * PAGE_SIZE && o < PAGE_SIZE
    requires flags / 0x1000 % FRAMES == 0
    ensures Sound(s', root) && MemoryOk(s'.m) && v + o < TWO64 && (v + o) % 0x1000 == o
    ensures Walk(s'.m, root, PathTo(v + o)) == Page(paddr / PAGE_SIZE)
  {
    hide Tree, Walk;
    TreeBasics(s'.m, root, s'.tables);
    FlagsKeepFrame(paddr, flags);
    assert PageOf(v + o) == PageOf(v);
  }

  lemma BlockBytes(s: State, s': State, root: nat, v: Word, paddr: Word, flags: Word, o: nat)
    requires MapsBlock(s, s', root, PathTo(v), MappedFrame(paddr, flags))
    requires v % HUGE_PAGE_SIZE == 0 && paddr % HUGE_PAGE_SIZE == 0 && paddr < MAX_PAGES * PAGE_SIZE
    requires o < HUGE_PAGE_SIZE && flags / 0x1000 % FRAMES == 0
    ensures Sound(s', root) && MemoryOk(s'.m) && v + o < TWO64 && (v + o) % 0x20_0000 == o
    ensures Walk(s'.m, root, PathTo(v + o)) == HugePage(paddr / PAGE_SIZE) && paddr / PAGE_SIZE % 512 == 0
  {
    hide Tree, Walk, PathOf, MappedFrame, Base;
    TreeBasics(s'.m, root, s'.tables);
    PlainBlock(paddr, flags);
    BlockOf(v, o);
    SameBlock(PageOf(v), PageOf(v + o));
  }

  lemma PlainBlock(paddr: Word, flags: Word)
    requires paddr % HUGE_PAGE_SIZE == 0 && paddr < MAX_PAGES * PAGE_SIZE && flags / 0x1000 % FRAMES == 0
    ensures MappedFrame(paddr, flags) == paddr / PAGE_SIZE && paddr / PAGE_SIZE % 512 == 0
  {
    hide MappedFrame, Within;
    FlagsKeepFrame(paddr, flags);
    var k := paddr / HUGE_PAGE_SIZE;
    assert paddr == k * HUGE_PAGE_SIZE;
    assert paddr / PAGE_SIZE == k * 512;
  }

  lemma BlockOf(v: Word, o: nat)
    requires v % HUGE_PAGE_SIZE == 0 && o < HUGE_PAGE_SIZE
    ensures v + o < TWO64 && Base(PageOf(v + o)) == Base(PageOf(v)) && (v + o) % HUGE_PAGE_SIZE == o
  {
    var k := v / HUGE_PAGE_SIZE;
    assert v == k * HUGE_PAGE_SIZE && k < 0x800_0000_0000;
    assert PageOf(v + o) == k * 512 + o / PAGE_SIZE && PageOf(v) == k * 512;
  }

  // ----- allocating and freeing a range

  /** The frames behind the 4 KB pages of a range. */
  ghost function Backing(m: seq<Word>, root: nat, s: nat, n: nat): set<nat>
    requires MemoryOk(m) && root < FRAMES
  {
    if n == 0 then {}
    else
      var leaf := Walk(m, root, PathOf(s + n - 1));
      Backing(m, root, s, n - 1) + if leaf.Page? then {leaf.frame} else {}
  }

  /** Every page of the range is unmapped or backed by a frame that is not a table. */
  ghost predicate Freeable(st: State, root: nat, s: nat, n: nat)
  {
    && MemoryOk(st.m) && root < FRAMES
    && forall x: nat :: InRange(x, s, n) ==>
         var leaf := Walk(st.m, root, PathOf(x));
         leaf == Unmapped || (leaf.Page? && leaf.frame > 0 && leaf.frame !in st.tables)
  }

  /** The first i pages have been removed and their frames given back. */
  ghost predicate PartlyFreed(s0: State, st: State, root: nat, s: nat, i: nat)
  {
    && Sound(st, root) && MemoryOk(s0.m) && root < FRAMES
    && st.tables == s0.tables
    && Removed(s0.m, st.m, root, s, i)
    && st.used == s0.used - Backing(s0.m, root, s, i)
  }

  lemma NotCoveredYet(s: nat, i: nat)
    requires i < 0x10_0000_0000
    ensures !Covered(PathOf(s + i), s, i)
  {
    forall y: nat | InRange(y, s, i) ensures PathOf(y) != PathOf(s + i) {
      PathIdentity(s + i, y);
      NearbyDiffer(s + i, y);
    }
  }

  /** The i-th page still has its first translation. */
  lemma StillThere(s0: State, st: State, root: nat, s: nat, i: nat)
    requires PartlyFreed(s0, st, root, s, i) && i < MAX_RANGE
    ensures Walk(st.m, root, PathOf(s + i)) == Walk(s0.m, root, PathOf(s + i))
  {
    NotCoveredYet(s, i);
  }

  lemma SkipUnmapped(s0: State, st: State, root: nat, s: nat, i: nat)
    requires PartlyFreed(s0, st, root, s, i) && i < MAX_RANGE
    requires Walk(st.m, root, PathOf(s + i)) == Unmapped
    ensures PartlyFreed(s0, st, root, s, i + 1)
  {
    hide Tree, Walk, PathOf;
    StillThere(s0, st, root, s, i);
    TreeBasics(st.m, root, st.tables);
    RemoveOne(s0.m, st.m, st.m, root, s, i);
  }

  lemma FreeOne(s0: State, st: State, st': State, root: nat, s: nat, i: nat, f: nat)
    requires PartlyFreed(s0, st, root, s, i) && i < MAX_RANGE
    requires Walk(st.m, root, PathOf(s + i)) == Page(f) && f !in s0.tables
    requires Sound(State(st'.m, st.tables, st.used), root) && Removed(st.m, st'.m, root, s + i, 1)
    requires st'.tables == st.tables && st'.used == st.used - {f}
    ensures PartlyFreed(s0, st', root, s, i + 1)
  {
    hide Tree, Walk, PathOf;
    StillThere(s0, st, root, s, i);
    TreeBasics(st.m, root, st.tables);
    TreeBasics(st'.m, root, st.tables);
    var x := s + i;
    forall p: Path ensures Covered(p, x, 1) <==> p == PathOf(x) {
      if p == PathOf(x) { assert InRange(x, x, 1); }
    }
    RemoveOne(s0.m, st.m, st'.m, root, s, i);
  }

  ghost function SetOf(fs: seq<nat>): set<nat> { set f | f in fs }

  ghost predicate Distinct(fs: seq<nat>)
  {
    forall i, j :: 0 <= i < j < |fs| ==> fs[i] != fs[j]
  }

  /** The first i pages of the range are backed by new, distinct frames; nothing
      else is translated differently, and the other frames taken are tables. */
  ghost predicate PartlyBacked(s0: State, st: State, root: nat, s: nat, frames: seq<nat>)
  {
    && Sound(st, root) && MemoryOk(s0.m) && root < FRAMES
    && s0.tables.Keys <= st.tables.Keys
    && (st.tables.Keys - s0.tables.Keys) !! s0.used
    && Distinct(frames)
    && (forall j :: 0 <= j < |frames| ==>
          && Walk(st.m, root, PathOf(s + j)) == Page(frames[j])
          && frames[j] > 0 && frames[j] !in s0.used && frames[j] !in st.tables)
    && (forall q: Path :: !Covered(q, s, |frames|) ==> Walk(st.m, root, q) == Walk(s0.m, root, q))
    && st.used == s0.used + (st.tables.Keys - s0.tables.Keys) + SetOf(frames)
  }

  lemma NothingBacked(s0: State, root: nat, s: nat)
    requires Sound(s0, root) && root < FRAMES
    ensures PartlyBacked(s0, s0, root, s, [])
  {
  }

  lemma CoverOneMore(q: Path, s: nat, i: nat)
    ensures Covered(q, s, i + 1) <==> Covered(q, s, i) || q == PathOf(s + i)
  {
    var x := s + i;
    if q == PathOf(x) { assert InRange(x, s, i + 1); }
    if Covered(q, s, i) {
      var y: nat :| InRange(y, s, i) && PathOf(y) == q;
      assert InRange(y, s, i + 1);
    }
    if Covered(q, s, i + 1) && q != PathOf(x) {
      var y: nat :| InRange(y, s, i + 1) && PathOf(y) == q;
      assert InRange(y, s, i);
    }
  }

  /** A fresh frame f has been mapped at the next page. */
  lemma BackOneMore(s0: State, st: State, st': State, root: nat, s: nat, frames: seq<nat>, f: nat)
    requires PartlyBacked(s0, st, root, s, frames) && |frames| < MAX_RANGE
    requires f > 0 && f !in st.used
    requires MapsPage(st.(used := st.used + {f}), st', root, PathOf(s + |frames|), f)
    ensures PartlyBacked(s0, st', root, s, frames + [f])
  {
    hide Tree, Walk, PathOf;
    TreeBasics(st'.m, root, st'.tables);
    var i, frames' := |frames|, frames + [f];
    forall j | 0 <= j < |frames'|
      ensures Walk(st'.m, root, PathOf(s + j)) == Page(frames'[j])
      ensures frames'[j] > 0 && frames'[j] !in s0.used && frames'[j] !in st'.tables
    {
      if j < i {
        DifferentPaths(s + j, s + i);
        assert frames'[j] == frames[j] && frames[j] in st.used;
      }
    }
    forall q: Path | !Covered(q, s, i + 1) ensures Walk(st'.m, root, q) == Walk(s0.m, root, q) {
      CoverOneMore(q, s, i);
    }
    assert forall j :: 0 <= j < i ==> frames[j] in st.used;
    assert st'.used == s0.used + (st'.tables.Keys - s0.tables.Keys) + SetOf(frames');
  }

  lemma DifferentPaths(x: nat, y: nat)
    requires x < y < x + MAX_RANGE
    ensures PathOf(x) != PathOf(y)
  {
    PathIdentity(x, y);
    NearbyDiffer(x, y);
  }

  /** The mapping failed: tables may have been added, and the fresh frame is given back. */
  lemma BackNoMore(s0: State, st: State, st': State, root: nat, s: nat, frames: seq<nat>, taken: set<nat>)
    requires PartlyBacked(s0, st, root, s, frames) && taken !! st.used
    requires Grown(st.(used := st.used + taken), st', root)
    ensures PartlyBacked(s0, st'.(used := st'.used - taken), root, s, frames)
    ensures taken !! st'.tables.Keys
  {
    hide Tree, Walk, PathOf;
    assert forall j :: 0 <= j < |frames| ==> frames[j] in st.used;
    assert st'.used - taken == s0.used + (st'.tables.Keys - s0.tables.Keys) + SetOf(frames);
  }

  /** What has been mapped so far can be freed over the whole range. */
  lemma BackedIsFreeable(s0: State, st: State, root: nat, s: nat, frames: seq<nat>, n: nat)
    requires PartlyBacked(s0, st, root, s, frames) && |frames| <= n <= MAX_RANGE
    requires forall x: nat :: InRange(x, s, n) ==> Walk(s0.m, root, PathOf(x)) == Unmapped
    ensures Freeable(st, root, s, n)
    ensures Backing(st.m, root, s, n) == SetOf(frames)
  {
    hide Tree, Walk, PathOf;
    TreeBasics(st.m, root, st.tables);
    forall x: nat | InRange(x, s, n)
      ensures Walk(st.m, root, PathOf(x)) == if x < s + |frames| then Page(frames[x - s]) else Unmapped
    {
      if x < s + |frames| {
        assert PathOf(s + (x - s)) == PathOf(x);
      } else {
        BeyondNotCovered(s, |frames|, x);
      }
    }
    BackingOf(st.m, root, s, frames, n);
  }

  lemma BeyondNotCovered(s: nat, i: nat, x: nat)
    requires s + i <= x < s + MAX_RANGE
    ensures !Covered(PathOf(x), s, i)
  {
    forall y: nat | InRange(y, s, i) ensures PathOf(y) != PathOf(x) {
      DifferentPaths(y, x);
    }
  }

  lemma CoveredGrows(q: Path, s: nat, i: nat, n: nat)
    requires i <= n
    ensures Covered(q, s, i) ==> Covered(q, s, n)
  {
    if Covered(q, s, i) {
      var x: nat :| InRange(x, s, i) && PathOf(x) == q;
      assert InRange(x, s, n);
    }
  }

  lemma {:induction false} BackingOf(m: seq<Word>, root: nat, s: nat, frames: seq<nat>, n: nat)
    requires MemoryOk(m) && root < FRAMES
    requires forall x: nat :: InRange(x, s, n) ==>
               Walk(m, root, PathOf(x)) == if x < s + |frames| then Page(frames[x - s]) else Unmapped
    ensures Backing(m, root, s, n) == SetOf(frames[..if n < |frames| then n else |frames|])
  {
    hide Walk, PathOf;
    if n > 0 {
      forall x: nat | InRange(x, s, n - 1)
        ensures Walk(m, root, PathOf(x)) == if x < s + |frames| then Page(frames[x - s]) else Unmapped
      {
        assert InRange(x, s, n);
      }
      BackingOf(m, root, s, frames, n - 1);
      assert InRange(s + n - 1, s, n);
      if n <= |frames| {
        assert frames[..n] == frames[..n - 1] + [frames[n - 1]];
      }
    }
  }

  /** Freeing the whole range after a failure leaves the first translation. */
  lemma BackedThenFreed(s0: State, st: State, st': State, root: nat, s: nat, frames: seq<nat>, n: nat)
    requires PartlyBacked(s0, st, root, s, frames) && |frames| <= n <= MAX_RANGE
    requires forall x: nat :: InRange(x, s, n) ==> Walk(s0.m, root, PathOf(x)) == Unmapped
    requires PartlyFreed(st, st', root, s, n)
    ensures Grown(s0, st', root)
  {
    hide Tree, Walk, PathOf;
    BackedIsFreeable(s0, st, root, s, frames, n);
    TreeBasics(st'.m, root, st'.tables);
    forall q: Path ensures Walk(st'.m, root, q) == Walk(s0.m, root, q) {
      if Covered(q, s, n) {
        var x: nat :| InRange(x, s, n) && PathOf(x) == q;
      } else {
        CoveredGrows(q, s, |frames|, n);
      }
    }
    assert forall j :: 0 <= j < |frames| ==> frames[j] !in s0.used && frames[j] !in st.tables;
    assert st'.used == s0.used + (st'.tables.Keys - s0.tables.Keys);
  }

  // ----- the page range of an unmap request, in 64-bit arithmetic

  function AlignDown(x: Word): Word { x / PAGE_SIZE * PAGE_SIZE }
  function AlignUp(x: Word): Word { AlignDown(U64(x + PAGE_SIZE - 1)) }

  /** The pages touched by [v, v + size). */
  function PagesTouched(v: Word, size: nat): nat
  {
    (v % PAGE_SIZE + size + PAGE_SIZE - 1) / PAGE_SIZE
  }

  /** A page is counted exactly when some byte of the range lies in it. */
  lemma TouchedMeans(v: Word, size: nat, x: nat)
    requires size > 0
    ensures InRange(x, PageOf(v), PagesTouched(v, size)) <==> exists b: nat :: ByteOf(b, v, size, x)
  {
    var last := v + size - 1;
    assert PageOf(v) + PagesTouched(v, size) - 1 == last / PAGE_SIZE;
    if InRange(x, PageOf(v), PagesTouched(v, size)) {
      var b := if x == PageOf(v) then v else x * PAGE_SIZE;
      assert ByteOf(b, v, size, x);
    }
    if b: nat :| ByteOf(b, v, size, x) {
      Ordered(v, b);
      Ordered(b, last);
    }
  }

  predicate ByteOf(b: nat, v: nat, size: nat, x: nat) { v <= b < v + size && b / 4096 == x }

  lemma Ordered(a: nat, b: nat)
    requires a <= b
    ensures a / PAGE_SIZE <= b / PAGE_SIZE
  {
  }

  /** A size is rounded up to the next multiple of 4096. */
  lemma RoundedUp(size: nat)
    requires size <= 0x7FFF_FFFF_F000
    ensures AlignUp(size) % 4096 == 0 && size <= AlignUp(size) < size + 4096
  {
  }

  /** A range in one canonical half: the widest window of the layout. */
  predicate RangeOk(v: Word, size: nat) { 0 < size <= 0x7FFF_FFFF_F000 && v + size <= TWO64 }

  /** The number of the first page boundary at or above x, in pages. */
  function PageCeil(x: nat): nat { (x + PAGE_SIZE - 1) / PAGE_SIZE }

  /** Rounding up in 64 bits, where the end of the address space becomes 0. */
  lemma AlignUpIs(x: nat)
    requires x <= TWO64
    ensures PageCeil(x) * PAGE_SIZE <= TWO64 && AlignUp(U64(x)) == U64(PageCeil(x) * PAGE_SIZE)
  {
    if x == TWO64 {
      assert PageCeil(x) * PAGE_SIZE == TWO64;
    } else if x + PAGE_SIZE - 1 >= TWO64 {
      assert PageCeil(x) * PAGE_SIZE == TWO64;
    }
  }

  lemma Difference(x: nat, y: nat)
    requires y <= x <= TWO64 && x - y < TWO64
    ensures U64(U64(x) - y) == x - y
  {
  }

  lemma PageCount(v: Word, size: nat)
    requires RangeOk(v, size)
    ensures PageCeil(v + size) == PageOf(v) + PagesTouched(v, size)
    ensures U64(AlignUp(U64(v + size)) - AlignDown(v)) == PagesTouched(v, size) * PAGE_SIZE
    ensures 1 <= PagesTouched(v, size) <= MAX_RANGE && PageOf(v) + PagesTouched(v, size) <= 0x10_0000_0000_0000
  {
    AlignUpIs(v + size);
    assert v == PageOf(v) * PAGE_SIZE + v % PAGE_SIZE;
    Difference(PageCeil(v + size) * PAGE_SIZE, PageOf(v) * PAGE_SIZE);
  }

  lemma CurrentAddress(v: Word, i: nat)
    requires PageOf(v) + i < 0x10_0000_0000_0000
    ensures U64(AlignDown(v) + i * PAGE_SIZE) == (PageOf(v) + i) * PAGE_SIZE < TWO64
  {
  }

  /** The address of the i-th page and what is left of the range there. */
  lemma PageAddress(v: Word, size: nat, i: nat)
    requires RangeOk(v, size) && i < PagesTouched(v, size)
    ensures var cur := U64(AlignDown(v) + i * PAGE_SIZE);
            && PathTo(cur) == PathOf(PageOf(v) + i)
            && (cur % HUGE_PAGE_SIZE == 0 <==> (PageOf(v) + i) % 512 == 0)
            && (U64(AlignUp(U64(v + size)) - cur) >= HUGE_PAGE_SIZE <==> i + 512 <= PagesTouched(v, size))
  {
    hide PathOf, PagesTouched, PageCeil, AlignUp, U64, AlignDown;
    PageCount(v, size);
    AlignUpIs(v + size);
    var n, x := PagesTouched(v, size), PageOf(v) + i;
    CurrentAddress(v, i);
    Difference((PageOf(v) + n) * PAGE_SIZE, x * PAGE_SIZE);
    BlockAddress(x);
  }

  lemma BlockAddress(x: nat)
    ensures x * PAGE_SIZE / PAGE_SIZE == x
    ensures x * PAGE_SIZE % HUGE_PAGE_SIZE == 0 <==> x % 512 == 0
  {
    var q, r := x / 512, x % 512;
    assert x * PAGE_SIZE == q * HUGE_PAGE_SIZE + r * PAGE_SIZE;
  }

  lemma BackedIsSound(s0: State, st: State, root: nat, s: nat, frames: seq<nat>)
    requires PartlyBacked(s0, st, root, s, frames)
    ensures Sound(st, root)
  {
  }

  lemma NextIsUnmapped(s0: State, st: State, root: nat, s: nat, frames: seq<nat>)
    requires PartlyBacked(s0, st, root, s, frames) && |frames| < MAX_RANGE
    ensures MemoryOk(st.m) && MemoryOk(s0.m) && root < FRAMES
    ensures Walk(st.m, root, PathOf(s + |frames|)) == Walk(s0.m, root, PathOf(s + |frames|))
  {
    hide Tree, Walk, PathOf;
    TreeBasics(st.m, root, st.tables);
    NotCoveredYet(s, |frames|);
  }

  lemma GrowUsed(st: State, taken: set<nat>, root: nat)
    requires Sound(st, root)
    ensures Sound(st.(used := st.used + taken), root)
  {
  }

  lemma SameWalk(s: State, s': State, root: nat, p: Path)
    requires Grown(s, s', root)
    ensures MemoryOk(s.m) && MemoryOk(s'.m) && root < FRAMES && Walk(s'.m, root, p) == Walk(s.m, root, p)
  {
  }

  lemma NoDeeper(m: seq<Word>, root: nat, p: Path, k: nat)
    requires MemoryOk(m) && root < FRAMES && k <= 2
    ensures TableOn(m, root, p, k) < 0 ==> TableOn(m, root, p, k + 1) < 0
  {
  }

  lemma RootTable(m: seq<Word>, root: nat, p: Path)
    requires MemoryOk(m) && root < FRAMES
    ensures TableOn(m, root, p, 0) == root
  {
  }

  lemma GrownUses(s: State, s': State, root: nat)
    requires Grown(s, s', root)
    ensures s.used <= s'.used
  {
  }

  lemma PlainFrame(paddr: Word)
    requires paddr % PAGE_SIZE == 0 && paddr / PAGE_SIZE < FRAMES
    ensures MappedFrame(paddr, PAGE_WRITABLE) == paddr / PAGE_SIZE
  {
    FlagsKeepFrame(paddr, PAGE_WRITABLE);
  }

  lemma OnePage(cur: Word)
    requires cur % PAGE_SIZE == 0
    ensures RangeOk(cur, PAGE_SIZE) && PagesTouched(cur, PAGE_SIZE) == 1
  {
  }

  lemma NothingFreed(s0: State, root: nat, s: nat)
    requires Sound(s0, root) && root < FRAMES
    ensures PartlyFreed(s0, s0, root, s, 0)
  {
  }

  lemma FreedIsSound(s0: State, st: State, root: nat, s: nat, n: nat)
    requires PartlyFreed(s0, st, root, s, n)
    ensures Sound(st, root)
  {
  }

  lemma ClearedSelf(m: seq<Word>)
    requires MemoryOk(m)
    ensures OnlyCleared(m, m)
  {
  }

  lemma ClearedTwice(m: seq<Word>, m1: seq<Word>, m2: seq<Word>)
    requires OnlyCleared(m, m1) && OnlyCleared(m1, m2)
    ensures OnlyCleared(m, m2)
  {
  }

  /** No 2 MB page that the range cuts starts in the frame of a table. */
  ghost predicate CutsNoTable(s0: State, root: nat, s: nat, n: nat)
  {
    && MemoryOk(s0.m) && root < FRAMES
    && forall x: nat :: InRange(x, s, n) && CutAt(s0.m, root, s, n, x) ==>
         Walk(s0.m, root, PathOf(x)).frame !in s0.tables
  }

  lemma WholeIsSafe(s0: State, root: nat, s: nat, n: nat)
    requires MemoryOk(s0.m) && root < FRAMES
    ensures WholeHugePages(s0.m, root, s, n) ==> CutsNoTable(s0, root, s, n)
  {
    hide Walk, PathOf;
  }

  /** What the next turn meets. */
  lemma UnmapMeets(s0: State, s1: State, root: nat, s: nat, n: nat, i: nat)
    requires CutsNoTable(s0, root, s, n) && MemoryOk(s1.m) && i < n <= MAX_RANGE && s1.tables == s0.tables
    requires RemovedBut(s0.m, s1.m, root, s, n, i)
    ensures var leaf := Walk(s1.m, root, PathOf(s + i));
            if CutAt(s0.m, root, s, n, s + i)
            then leaf.HugePage? && leaf.frame !in s1.tables && !((s + i) % 512 == 0 && i + 512 <= n)
            else leaf.HugePage? ==> (s + i) % 512 == 0 && i + 512 <= n
  {
    assert InRange(s + i, s, n);
    hide Walk, PathOf, RemovedBut;
    if CutAt(s0.m, root, s, n, s + i) {
      MeetsCut(s0.m, s1.m, root, s, n, i);
    } else if Walk(s1.m, root, PathOf(s + i)).HugePage? {
      MeetsAtBase(s0.m, s1.m, root, s, n, i);
    }
  }

  /** What it does. */
  lemma UnmapStep(m0: seq<Word>, s1: State, s2: State, root: nat, s: nat, n: nat, i: nat, pages: nat)
    requires MemoryOk(m0) && MemoryOk(s1.m) && root < FRAMES && RemovedBut(m0, s1.m, root, s, n, i)
    requires if CutAt(m0, root, s, n, s + i) then pages == 1 && KeepsAll(s1, s2, root)
             else || (pages == 1 && RemovesPage(s1, s2, root, PathOf(s + i)))
                  || (pages == 512 && (s + i) % 512 == 0 && i + 512 <= n && RemovesBlock(s1, s2, root, PathOf(s + i)))
    ensures Sound(s2, root) && s2.tables == s1.tables && RemovedBut(m0, s2.m, root, s, n, i + pages)
  {
    hide Tree, Walk, PathOf, CutAt, RemovedBut;
    TreeBasics(s2.m, root, s2.tables);
    if CutAt(m0, root, s, n, s + i) {
      ButSkip(m0, s1.m, s2.m, root, s, n, i);
    } else if pages == 1 {
      ButOne(m0, s1.m, s2.m, root, s, n, i);
    } else {
      RemoveBlock(m0, s1.m, s2.m, root, s, n, i);
    }
  }

  // ----- the frame a table gets

  /** The frame found for a new table, or -1. A frame at or above the identity
      limit is given back and the hint moved back to it, so that the retries find
      it again; only the last frame of memory makes the search start over. */
  ghost function TableFrame(bm: seq<Word>, hint: nat, total: nat, limit: nat): int
  {
    var f := Found(bm, hint, total);
    if f * PAGE_SIZE < limit then f
    else if f == total - 1 && FirstFree(bm, LOWMEM_PAGES, total) * PAGE_SIZE < limit then
      FirstFree(bm, LOWMEM_PAGES, total)
    else -1
  }

  /** Half of memory is free below the limit, and the search never gets there. */
  lemma FutileRetry()
    ensures var bm: seq<Word> := seq(128, _ => 0);
            && TableFrame(bm, 0x1600, 0x2000, 0x1500 * PAGE_SIZE) == -1
            && FirstFree(bm, LOWMEM_PAGES, 0x2000) == LOWMEM_PAGES && LOWMEM_PAGES * PAGE_SIZE < 0x1500 * PAGE_SIZE
  {
    var bm: seq<Word> := seq(128, _ => 0);
    AllFree(bm);
    FirstFreeIs(bm, 0x1600, 0x2000, 0x1600);
    FirstFreeIs(bm, LOWMEM_PAGES, 0x2000, LOWMEM_PAGES);
  }

  /** The hint after a frame was handed out and given back. */
  function HintBack(page: nat, total: nat): nat
  {
    if page < HintAfter(page, total) then page else HintAfter(page, total)
  }

  /** The next search finds the frame given back, unless it was the last. */
  lemma FoundAgain(bm: seq<Word>, hint: nat, total: nat)
    requires Found(bm, hint, total) >= 0 && total > LOWMEM_PAGES
    ensures var c := Found(bm, hint, total);
            && LOWMEM_PAGES <= c < total && Found(bm, HintBack(c, total), total) >= 0
            && Found(bm, HintBack(c, total), total) == if c == total - 1 then FirstFree(bm, LOWMEM_PAGES, total) else c
  {
    hide FirstFree;
    var start := StartOf(hint, total);
    var c := Found(bm, hint, total);
    var from := if FirstFree(bm, start, total) >= 0 then start else LOWMEM_PAGES;
    assert c == FirstFree(bm, from, total);
    FirstFreeMeans(bm, from, total);
    FirstFreeMeans(bm, LOWMEM_PAGES, total);
    if c == total - 1 {
      assert HintBack(c, total) == LOWMEM_PAGES;
      assert Between(c, LOWMEM_PAGES, total);
    } else {
      var again := StartOf(c, total);
      assert from <= again <= c;
      forall q: nat | Between(q, again, c) ensures Used(bm, q) {
        assert Between(q, from, c);
      }
      FirstFreeIs(bm, again, total, c);
    }
  }

  lemma FoundIsFree(bm: seq<Word>, hint: nat, total: nat)
    requires Found(bm, hint, total) >= 0 && total > LOWMEM_PAGES
    ensures var f := Found(bm, hint, total); LOWMEM_PAGES <= f < total && !Used(bm, f)
  {
    FirstFreeMeans(bm, StartOf(hint, total), total);
    FirstFreeMeans(bm, LOWMEM_PAGES, total);
  }

  lemma SameFound(bm: seq<Word>, hint: nat, hint': nat, total: nat, limit: nat)
    requires StartOf(hint, total) == StartOf(hint', total)
    ensures Found(bm, hint, total) == Found(bm, hint', total)
    ensures TableFrame(bm, hint, total, limit) == TableFrame(bm, hint', total, limit)
    ensures Found(bm, hint, total) < 0 ==> TableFrame(bm, hint, total, limit) < 0
  {
  }

  /** Where the retries stand: the frame found first lies above the limit, and the
      search has come back to it, or to the lowest free one. */
  ghost predicate Retrying(bm: seq<Word>, hint0: nat, hint: nat, total: nat, limit: nat, attempt: nat)
  {
    var f, g := Found(bm, hint0, total), FirstFree(bm, LOWMEM_PAGES, total);
    && f >= 0 && f * PAGE_SIZE >= limit
    && Found(bm, hint, total) == (if f == total - 1 then g else f)
    && (attempt > 1 && f == total - 1 ==> g * PAGE_SIZE >= limit)
  }

  lemma RetryStep(bm: seq<Word>, hint0: nat, hint: nat, total: nat, limit: nat, attempt: nat)
    requires total > LOWMEM_PAGES
             && (if attempt == 0 then hint == hint0 else Retrying(bm, hint0, hint, total, limit, attempt))
    requires Found(bm, hint, total) >= 0 && Found(bm, hint, total) * PAGE_SIZE >= limit
    ensures Retrying(bm, hint0, HintBack(Found(bm, hint, total), total), total, limit, attempt + 1)
    ensures Found(bm, HintBack(Found(bm, hint, total), total), total) >= 0
  {
    hide FirstFree;
    FoundAgain(bm, hint0, total);
    FoundAgain(bm, hint, total);
  }

  /** A success is the frame TableFrame names. */
  lemma RetryFinds(bm: seq<Word>, hint0: nat, hint: nat, total: nat, limit: nat, attempt: nat)
    requires if attempt == 0 then hint == hint0 else Retrying(bm, hint0, hint, total, limit, attempt)
    requires Found(bm, hint, total) >= 0 && Found(bm, hint, total) * PAGE_SIZE < limit
    ensures Found(bm, hint, total) == TableFrame(bm, hint0, total, limit)
  {
  }

  /** After two or more failures there is none, then and now. */
  lemma RetryFails(bm: seq<Word>, hint0: nat, hint: nat, total: nat, limit: nat, attempt: nat)
    requires Retrying(bm, hint0, hint, total, limit, attempt) && attempt > 1
    ensures TableFrame(bm, hint0, total, limit) == TableFrame(bm, hint, total, limit) == -1
  {
  }

  // ----- when frames run out

  ghost function FreeHigh(used: set<nat>, total: nat): set<nat>
  {
    set f: nat | f < total && Between(f, LOWMEM_PAGES, total) && f !in used
  }

  /** At least m frames can be handed out one after the other. */
  ghost predicate Enough(used: set<nat>, total: nat, m: nat)
  {
    |used| + m < total && |FreeHigh(used, total)| >= m
  }

  /** Every frame that can be handed out is fit to be a table. */
  ghost predicate AllLow(used: set<nat>, total: nat, limit: nat)
  {
    forall f :: f in FreeHigh(used, total) ==> f * PAGE_SIZE < limit
  }

  ghost predicate Available(used: set<nat>, total: nat, limit: nat, m: nat)
  {
    Enough(used, total, m) && AllLow(used, total, limit)
  }

  /** Taking k frames leaves all but k available. */
  lemma AvailableAfter(used: set<nat>, used': set<nat>, total: nat, limit: nat, m: nat, k: nat)
    requires used <= used' && |used'| <= |used| + k && k <= m && Available(used, total, limit, m)
    ensures Available(used', total, limit, m - k)
  {
    var a, b := FreeHigh(used, total), FreeHigh(used', total);
    assert forall f :: f in b ==> f in a;
    assert used' == used + (used' - used);
    assert |used' - used| <= k;
    SubsetSize(a, b + (used' - used));
    assert |b + (used' - used)| <= |b| + |used' - used|;
  }

  /** If k frames of m were taken and too few are left, there were too few from the start. */
  lemma ShortBefore(used: set<nat>, used': set<nat>, total: nat, limit: nat, m: nat, k: nat, rest: nat)
    requires used <= used' && |used'| <= |used| + k && k + rest <= m && !Available(used', total, limit, rest)
    ensures !Available(used, total, limit, m)
  {
    if Available(used, total, limit, m) {
      AvailableAfter(used, used', total, limit, m, k);
    }
  }

  /** Frames that were taken could be handed out. */
  lemma TakenWereFree(used: set<nat>, used': set<nat>, total: nat, m: nat)
    requires Takes(used, used', total) && |used'| == |used| + m && m > 0
    ensures Enough(used, total, m)
  {
    var taken := used' - used;
    assert used' == used + taken;
    forall f | f in taken ensures f in FreeHigh(used, total) {
      assert Between(f, LOWMEM_PAGES, total);
    }
    SubsetSize(taken, FreeHigh(used, total));
  }

  /** Only free frames from 1 MB up were taken, and not the last one. */
  ghost predicate Takes(used: set<nat>, used': set<nat>, total: nat)
  {
    && used <= used' && (forall f :: f in used' && f !in used ==> LOWMEM_PAGES <= f < total)
    && (used' != used ==> |used'| < total)
  }

  lemma TakesTwice(used: set<nat>, used1: set<nat>, used2: set<nat>, total: nat)
    requires Takes(used, used1, total) && Takes(used1, used2, total)
    ensures Takes(used, used2, total)
  {
  }

  /** The tables of p down to level k were created, each in a frame of its own. */
  ghost predicate Creates(s: State, s': State, root: nat, p: Path, k: nat)
  {
    && k <= 3 && Opened(s.m, s'.m, root, p, k)
    && |s'.used| == |s.used| + LackCount(s.m, root, p, k)
  }

  lemma CreatesNone(s: State, root: nat, p: Path, k: nat)
    requires MemoryOk(s.m) && root < FRAMES && k <= 3 && TableOn(s.m, root, p, k) >= 0
    ensures Creates(s, s, root, p, k) && LackCount(s.m, root, p, k) == 0
  {
    AlreadyOpened(s.m, root, p, k);
    LacksNone(s.m, root, p, k);
  }

  lemma CreatesNext(s: State, s1: State, s2: State, root: nat, p: Path, k: nat)
    requires Creates(s, s1, root, p, k) && Creates(s1, s2, root, p, k + 1)
    requires TableOn(s1.m, root, p, k) >= 0
    ensures Creates(s, s2, root, p, k + 1)
    ensures LackCount(s.m, root, p, k + 1) == LackCount(s.m, root, p, k) + LackCount(s1.m, root, p, k + 1)
  {
    LacksNone(s1.m, root, p, k);
    OpenedTwice(s.m, s1.m, s2.m, root, p, k, k + 1);
    assert Has(s1.m, root, p, k + 1) <==> Has(s.m, root, p, k + 1);
  }

  /** Without the next table more is lacking than was created. */
  lemma StillLacks(s: State, s1: State, root: nat, p: Path, k: nat)
    requires Creates(s, s1, root, p, k) && k < 3 && TableOn(s1.m, root, p, k + 1) < 0
    ensures |s1.used| < |s.used| + LackCount(s.m, root, p, k + 1)
  {
    assert !Has(s1.m, root, p, k + 1);
  }

  lemma LacksFirst(m: seq<Word>, root: nat, p: Path)
    requires MemoryOk(m) && root < FRAMES && TableOn(m, root, p, 1) < 0
    ensures LackCount(m, root, p, 2) >= 1
  {
    assert LackCount(m, root, p, 1) == 1;
  }

  /** Nothing was created below level k. */
  lemma SameBelow(s: State, s': State, root: nat, p: Path, k: nat)
    requires Creates(s, s', root, p, k) && k < 3
    ensures TableOn(s'.m, root, p, k + 1) >= 0 <==> TableOn(s.m, root, p, k + 1) >= 0
  {
    assert Has(s'.m, root, p, k + 1) <==> Has(s.m, root, p, k + 1);
  }

  lemma LackMore(m: seq<Word>, root: nat, p: Path, k: nat)
    requires MemoryOk(m) && root < FRAMES && k < 3
    ensures LackCount(m, root, p, k) <= LackCount(m, root, p, k + 1)
  {
  }

  /** Linking a free frame below p creates one table. */
  lemma AdoptCreates(s: State, m1: seq<Word>, root: nat, f: nat, e: Word, p: Path, level: nat)
    requires Sound(s, root) && level <= 2 && TableOn(s.m, root, p, level) >= 0
    requires f !in s.used && LinksTo(e, f) && Zeroed(s.m, m1, f)
    requires !Present(Slot(s.m, TableOn(s.m, root, p, level), p.At(level)))
    ensures var t, i := TableOn(s.m, root, p, level), p.At(level);
            Creates(s, State(m1[t * 512 + i := e], s.tables[f := Node(level + 1, t, i)],
                             s.used + {f}), root, p, level + 1)
  {
    hide Tree, TableOn, Zeroed, Linkable, Opened;
    TreeBasics(s.m, root, s.tables);
    AdoptReady(s, m1, root, f, e, p, level);
    LinkOpens(s.m, m1, root, s.tables, f, e, p, level);
    AbsentNext(s.m, root, p, level, TableOn(s.m, root, p, level), p.At(level));
    if level > 0 { LacksNone(s.m, root, p, level); }
  }

  /** Writing an entry of the last-level table creates none. */
  lemma PageWriteCreates(s: State, s1: State, root: nat, p: Path, e: Word)
    requires Creates(s, s1, root, p, 3) && Sound(s1, root) && TableOn(s1.m, root, p, 3) >= 0
    ensures Creates(s, s1.(m := s1.m[TableOn(s1.m, root, p, 3) * 512 + p.i3 := e]), root, p, 3)
  {
    hide Tree, TableOn, LackCount;
    TreeBasics(s1.m, root, s1.tables);
    OnTree(s1.m, root, s1.tables, p, 3);
    var t := TableOn(s1.m, root, p, 3);
    var m2 := s1.m[t * 512 + p.i3 := e];
    forall q: Path, l: nat | 1 <= l <= 3 ensures Has(m2, root, q, l) <==> Has(s1.m, root, q, l) {
      WriteKeepsTables(s1.m, root, s1.tables, t, p.i3, e, q, l);
    }
  }

  // ----- what an allocation spends

  /** One frame for the page and one for each table its path lacked. */
  ghost predicate Spends(s: State, s': State, root: nat, p: Path)
  {
    Opened(s.m, s'.m, root, p, 3) && |s'.used| == |s.used| + 1 + LackCount(s.m, root, p, 3)
  }

  lemma FrameAndTables(s: State, f: nat, s': State, root: nat, p: Path)
    requires f !in s.used && Creates(s.(used := s.used + {f}), s', root, p, 3)
    ensures Spends(s, s', root, p)
  {
  }

  lemma TakesOne(used: set<nat>, taken: set<nat>, total: nat)
    requires taken !! used && (forall f :: f in taken ==> LOWMEM_PAGES <= f < total)
    requires taken != {} ==> |used + taken| < total
    ensures Takes(used, used + taken, total)
  {
  }

  lemma TakesLess(used: set<nat>, used': set<nat>, taken: set<nat>, total: nat)
    requires Takes(used, used', total) && taken !! used && taken <= used'
    ensures Takes(used, used' - taken, total)
  {
    SubsetSize(used' - taken, used');
  }

  /** A frame for the page was refused, or one for a table. */
  lemma FreshShort(used: set<nat>, taken: set<nat>, used2: set<nat>, total: nat, limit: nat, lack: nat)
    requires taken !! used && |taken| <= 1 && used + taken <= used2
    requires || !Available(used, total, limit, 1)
             || (|used2| < |used + taken| + lack && !Available(used2, total, limit, 1))
    ensures !Available(used, total, limit, 1 + lack)
  {
    assert |used + taken| == |used| + |taken|;
    if !Available(used, total, limit, 1) {
      ShortBefore(used, used, total, limit, 1 + lack, 0, 1);
    } else {
      ShortBefore(used, used2, total, limit, 1 + lack, lack, 1);
    }
  }

  /** After i pages of the range: i frames are spent on pages, and one on every table that was
      missing and no longer is. */
  ghost predicate Spent(s0: State, st: State, root: nat, s: nat, n: nat, i: nat, total: nat)
  {
    && MemoryOk(s0.m) && MemoryOk(st.m) && root < FRAMES && Takes(s0.used, st.used, total)
    && |st.used| + |Missing(st.m, root, s, n)| == |s0.used| + |Missing(s0.m, root, s, n)| + i
  }

  lemma NothingSpent(s0: State, root: nat, s: nat, n: nat, total: nat)
    requires MemoryOk(s0.m) && root < FRAMES
    ensures Spent(s0, s0, root, s, n, 0, total)
  {
  }

  lemma SpentMore(s0: State, st: State, st': State, root: nat, s: nat, n: nat, i: nat, total: nat)
    requires Spent(s0, st, root, s, n, i, total) && i < n
    requires Spends(st, st', root, PathOf(s + i)) && Takes(st.used, st'.used, total)
    ensures Spent(s0, st', root, s, n, i + 1, total)
  {
    hide Opened, PathOf, Missing, LackCount, Takes;
    OpenedMemory(st.m, st'.m, root, PathOf(s + i), 3);
    MissingAfter(st.m, st'.m, root, s, n, s + i);
    TakesTwice(s0.used, st.used, st'.used, total);
  }

  lemma OpenedMemory(m: seq<Word>, m': seq<Word>, root: nat, p: Path, k: nat)
    requires Opened(m, m', root, p, k)
    ensures MemoryOk(m) && MemoryOk(m') && root < FRAMES
  {
  }

  /** If the next page cannot be had, the frames were too few for the whole range. */
  lemma SpentShort(s0: State, st: State, root: nat, s: nat, n: nat, i: nat, total: nat, limit: nat)
    requires Spent(s0, st, root, s, n, i, total) && i < n
    requires !Available(st.used, total, limit, 1 + LackCount(st.m, root, PathOf(s + i), 3))
    ensures !Available(s0.used, total, limit, n + |Missing(s0.m, root, s, n)|)
  {
    hide Available, PathOf, Missing, LackCount;
    LackingIsMissing(st.m, root, s, n, s + i);
    SubsetSize(s0.used, st.used);
    ShortBefore(s0.used, st.used, total, limit, n + |Missing(s0.m, root, s, n)|, |st.used| - |s0.used|,
                1 + LackCount(st.m, root, PathOf(s + i), 3));
  }

  /** When every page has its frame, each missing table has been paid for. */
  lemma SpentAll(s0: State, st: State, root: nat, s: nat, frames: seq<nat>, total: nat)
    requires Spent(s0, st, root, s, |frames|, |frames|, total) && PartlyBacked(s0, st, root, s, frames) && frames != []
    ensures |st.used| == |s0.used| + |frames| + |Missing(s0.m, root, s, |frames|)|
    ensures Enough(s0.used, total, |frames| + |Missing(s0.m, root, s, |frames|)|)
  {
    hide Missing, PartlyBacked, Enough, Takes;
    BackedLacksNone(s0, st, root, s, frames);
    TakenWereFree(s0.used, st.used, total, |frames| + |Missing(s0.m, root, s, |frames|)|);
  }

  lemma BackedLacksNone(s0: State, st: State, root: nat, s: nat, frames: seq<nat>)
    requires PartlyBacked(s0, st, root, s, frames) && MemoryOk(st.m)
    ensures root < FRAMES && Missing(st.m, root, s, |frames|) == {}
  {
    hide Missing, Walk, PathOf, Sound;
    forall x: nat | InRange(x, s, |frames|) ensures Walk(st.m, root, PathOf(x)).Page? {
      var j := x - s;
      assert Walk(st.m, root, PathOf(s + j)) == Page(frames[j]);
    }
    NoneMissing(st.m, root, s, |frames|);
  }

  // ----- a state with a 2 MB page

  /** Three tables in frames 1 to 3 and a 2 MB page at virtual page 512. */
  function OneHugePage(): (m: seq<Word>)
    ensures MemoryOk(m)
    ensures forall k :: 0 <= k < PHYS_WORDS ==>
              m[k] == if k == 512 then 0x2003 else if k == 1024 then 0x3003 else if k == 1537 then 0x20_0083 else 0
  {
    seq(PHYS_WORDS, k => if k == 512 then 0x2003 else if k == 1024 then 0x3003 else if k == 1537 then 0x20_0083 else 0)
  }

  /** It is a sound state, and a request for one 4 KB page inside the 2 MB page
      cannot be met: the condition of VMemUnmap fails. */
  lemma HugePageIsCut()
    ensures Sound(State(OneHugePage(), map[1 := Node(0, 0, 0), 2 := Node(1, 1, 0), 3 := Node(2, 2, 0)], {1, 2, 3}), 1)
    ensures !WholeHugePages(OneHugePage(), 1, 600, 1)
  {
    var m := OneHugePage();
    var tables: Tables := map[1 := Node(0, 0, 0), 2 := Node(1, 1, 0), 3 := Node(2, 2, 0)];
    hide OneHugePage;
    assert Slot(m, 1, 0) == 0x2003 && Slot(m, 2, 0) == 0x3003 && Slot(m, 3, 1) == 0x20_0083;
    forall t, i: Index | t in tables ensures LinkRecorded(m, tables, t, i) {
      assert Slot(m, t, i) == m[t * 512 + i];
    }
    assert PlaceLinked(m, tables, 2) && PlaceLinked(m, tables, 3);
    assert Tree(m, 1, tables);
    InsideHuge();
    assert InRange(600, 600, 1) && Base(600) == 512;
  }

  /** A 4 KB map inside it finds the word of the page's own memory free, so it reports success. */
  lemma InsideHuge()
    ensures PathOf(600) == Path(0, 0, 1, 88) && Walk(OneHugePage(), 1, PathOf(600)) == HugePage(512)
    ensures !Present(Slot(OneHugePage(), 512, 88))
  {
    var m := OneHugePage();
    hide OneHugePage;
    var p := PathOf(600);
    assert p == Path(0, 0, 1, 88);
    assert Slot(m, 1, 0) == 0x2003 && Slot(m, 2, 0) == 0x3003 && Slot(m, 3, 1) == 0x20_0083;
    assert TableOn(m, 1, p, 0) == 1;
    assert TableOn(m, 1, p, 1) == 2;
    assert TableOn(m, 1, p, 2) == 3;
  }

  /** The byte at 0x258000 there lies at physical address 0x258000. */
  lemma HugeAddress()
    ensures Assemble(Walk(OneHugePage(), 1, PathTo(0x25_8000)), 0x25_8000) == 0x25_8000
  {
    InsideHuge();
    hide Walk, OneHugePage;
    assert PageOf(0x25_8000) == 600;
    AssembleIsSum(HugePage(512), 0x25_8000);
  }

  // ----- a state with an empty table

  /** Four tables in frames 1 to 4, the last one, for virtual pages 512 to 1023, without an entry. */
  function OneEmptyTable(): (m: seq<Word>)
    ensures MemoryOk(m)
    ensures forall k :: 0 <= k < PHYS_WORDS ==>
              m[k] == if k == 512 then 0x2003 else if k == 1024 then 0x3003 else if k == 1537 then 0x4003 else 0
  {
    seq(PHYS_WORDS, k => if k == 512 then 0x2003 else if k == 1024 then 0x3003 else if k == 1537 then 0x4003 else 0)
  }

  /** It is sound and maps none of the 512 pages, and still a 2 MB page cannot be mapped there. */
  lemma EmptyTableBlocks()
    ensures Sound(State(OneEmptyTable(), map[1 := Node(0, 0, 0), 2 := Node(1, 1, 0),
                            3 := Node(2, 2, 0), 4 := Node(3, 3, 1)],
                        {1, 2, 3, 4}), 1)
    ensures TableOn(OneEmptyTable(), 1, PathOf(512), 3) == 4
    ensures forall x: nat :: InRange(x, 512, 512) ==> Walk(OneEmptyTable(), 1, PathOf(x)) == Unmapped
  {
    var m := OneEmptyTable();
    var tables: Tables := map[1 := Node(0, 0, 0), 2 := Node(1, 1, 0), 3 := Node(2, 2, 0), 4 := Node(3, 3, 1)];
    hide OneEmptyTable;
    assert Slot(m, 1, 0) == 0x2003 && Slot(m, 2, 0) == 0x3003 && Slot(m, 3, 1) == 0x4003;
    forall t, i: Index | t in tables ensures LinkRecorded(m, tables, t, i) {
      assert Slot(m, t, i) == m[t * 512 + i];
    }
    assert PlaceLinked(m, tables, 2) && PlaceLinked(m, tables, 3) && PlaceLinked(m, tables, 4);
    assert Tree(m, 1, tables);
    EmptyTableOn(512);
    forall x: nat | InRange(x, 512, 512) ensures Walk(m, 1, PathOf(x)) == Unmapped {
      EmptyTableOn(x);
    }
  }

  lemma EmptyTableOn(x: nat)
    requires InRange(x, 512, 512)
    ensures TableOn(OneEmptyTable(), 1, PathOf(x), 3) == 4 && Walk(OneEmptyTable(), 1, PathOf(x)) == Unmapped
  {
    var m, p := OneEmptyTable(), PathOf(x);
    hide OneEmptyTable;
    assert p.i0 == 0 && p.i1 == 0 && p.i2 == 1;
    assert Slot(m, 1, 0) == 0x2003 && Slot(m, 2, 0) == 0x3003 && Slot(m, 3, 1) == 0x4003 && Slot(m, 4, p.i3) == 0;
    assert TableOn(m, 1, p, 0) == 1;
    assert TableOn(m, 1, p, 1) == 2;
    assert TableOn(m, 1, p, 2) == 3;
    assert TableOn(m, 1, p, 3) == 4;
  }
}
