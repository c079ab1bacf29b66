/** Four-level page tables stored in physical memory, and what they translate. */
module PageTable {
  import opened Words

  /** 52-bit physical addresses: 2^40 frames of 512 words. */
  const FRAMES: nat := 0x100_0000_0000
  const PHYS_WORDS: nat := 0x2_0000_0000_0000

  type Index = i: nat | i < 512

  // ----- entries

  predicate Present(e: Word) { e % 2 == 1 }
  predicate Large(e: Word) { e / 0x80 % 2 == 1 }

  /** `e & PT_ADDR_MASK`, as a frame number. */
  function Frame(e: Word): (f: nat)
    ensures f < FRAMES
  {
    e / 0x1000 % FRAMES
  }

  predicate MemoryOk(m: seq<Word>) { |m| == PHYS_WORDS }

  function Slot(m: seq<Word>, table: nat, i: Index): Word
    requires MemoryOk(m) && table < FRAMES
  {
    m[table * 512 + i]
  }

  /** An entry of a table at this level that leads to another table. */
  predicate IsLink(level: nat, e: Word)
  {
    level < 3 && Present(e) && !(level == 2 && Large(e))
  }

  // ----- translation

  /** The four table indices of a virtual page. */
  datatype Path = Path(i0: Index, i1: Index, i2: Index, i3: Index)
  {
    function At(level: nat): Index
      requires level <= 3
    {
      match level case 0 => i0 case 1 => i1 case 2 => i2 case _ => i3
    }
  }

  datatype Leaf = Unmapped | Page(frame: nat) | HugePage(frame: nat)

  /** The table met at a level when following a path, or -1. */
  function TableOn(m: seq<Word>, root: nat, p: Path, level: nat): (t: int)
    requires MemoryOk(m) && root < FRAMES && level <= 3
    ensures t < FRAMES
  {
    if level == 0 then root
    else
      var up := TableOn(m, root, p, level - 1);
      if up < 0 then -1 else Next(level - 1, Slot(m, up, p.At(level - 1)))
  }

  /** The table an entry leads to, or -1. */
  function Next(level: nat, e: Word): (t: int)
    ensures t < FRAMES
  {
    if IsLink(level, e) then Frame(e) else -1
  }

  /** What an entry that is not a link translates to. */
  function LeafOf(level: nat, e: Word): Leaf
  {
    if !Present(e) || level < 2 then Unmapped
    else if level == 2 then HugePage(Frame(e))
    else Page(Frame(e))
  }

  /** The translation of a path: the leaf entry reached, if any. */
  function Walk(m: seq<Word>, root: nat, p: Path): Leaf
    requires MemoryOk(m) && root < FRAMES
  {
    if TableOn(m, root, p, 2) < 0 then Unmapped
    else if TableOn(m, root, p, 3) >= 0 then LeafOf(3, Slot(m, TableOn(m, root, p, 3), p.i3))
    else LeafOf(2, Slot(m, TableOn(m, root, p, 2), p.i2))
  }

  // ----- the tables form a tree

  /** Where a table hangs. The root's parent and index are unused. */
  datatype Node = Node(level: nat, parent: nat, index: Index)

  type Tables = map<nat, Node>

  /** Every link leads to a table one level down that records this slot as its
      place, and every table but the root is linked from the place it records. */
  ghost predicate Tree(m: seq<Word>, root: nat, tables: Tables)
  {
    && MemoryOk(m)
    && root in tables && tables[root].level == 0
    && (forall t :: t in tables ==> t < FRAMES && tables[t].level <= 3)
    && (forall t :: t in tables && tables[t].level == 0 ==> t == root)
    && (forall t, i: Index :: t in tables ==> LinkRecorded(m, tables, t, i))
    && (forall t :: t in tables && t != root ==> PlaceLinked(m, tables, t))
  }

  lemma TreeBasics(m: seq<Word>, root: nat, tables: Tables)
    requires Tree(m, root, tables)
    ensures MemoryOk(m) && root in tables && root < FRAMES
    ensures forall t :: t in tables ==> t < FRAMES && tables[t].level <= 3
  {
  }

  ghost predicate LinkRecorded(m: seq<Word>, tables: Tables, t: nat, i: Index)
    requires MemoryOk(m) && t in tables && t < FRAMES
  {
    var e := Slot(m, t, i);
    IsLink(tables[t].level, e) ==>
      Frame(e) in tables && tables[Frame(e)] == Node(tables[t].level + 1, t, i)
  }

  ghost predicate PlaceLinked(m: seq<Word>, tables: Tables, t: nat)
    requires MemoryOk(m) && t in tables
  {
    var Node(level, parent, index) := tables[t];
    && parent in tables && parent < FRAMES && level == tables[parent].level + 1
    && IsLink(level - 1, Slot(m, parent, index))
    && Frame(Slot(m, parent, index)) == t
  }

  /** No table is linked from two slots. */
  lemma LinkedOnce(m: seq<Word>, root: nat, tables: Tables, t: nat, i: Index, u: nat, j: Index)
    requires Tree(m, root, tables) && t in tables && u in tables
    requires IsLink(tables[t].level, Slot(m, t, i)) && IsLink(tables[u].level, Slot(m, u, j))
    requires Frame(Slot(m, t, i)) == Frame(Slot(m, u, j))
    ensures t == u && i == j
  {
    assert LinkRecorded(m, tables, t, i) && LinkRecorded(m, tables, u, j);
  }

  /** The table met at a level is a table of that level, at the place the path says. */
  lemma {:induction false} OnTree(m: seq<Word>, root: nat, tables: Tables, p: Path, level: nat)
    requires Tree(m, root, tables) && level <= 3
    ensures var t := TableOn(m, root, p, level);
            t >= 0 ==>
              && t in tables && tables[t].level == level
              && (level > 0 ==> tables[t] == Node(level, TableOn(m, root, p, level - 1), p.At(level - 1)))
  {
    if level > 0 {
      OnTree(m, root, tables, p, level - 1);
      var up := TableOn(m, root, p, level - 1);
      if up >= 0 {
        assert LinkRecorded(m, tables, up, p.At(level - 1));
      }
    }
  }

  /** Two paths that meet the same table agree above it. */
  lemma {:induction false} SameTableSamePrefix(m: seq<Word>, root: nat, tables: Tables, p: Path, q: Path, level: nat)
    requires Tree(m, root, tables) && level <= 3
    requires TableOn(m, root, p, level) == TableOn(m, root, q, level) >= 0
    ensures forall k: nat :: k < level ==> p.At(k) == q.At(k)
  {
    if level > 0 {
      OnTree(m, root, tables, p, level);
      OnTree(m, root, tables, q, level);
      SameTableSamePrefix(m, root, tables, p, q, level - 1);
    }
  }

  /** Paths that agree above a level meet the same table there. */
  lemma {:induction false} SamePrefixSameTable(m: seq<Word>, root: nat, p: Path, q: Path, level: nat)
    requires MemoryOk(m) && root < FRAMES && level <= 3
    requires forall k: nat :: k < level ==> p.At(k) == q.At(k)
    ensures TableOn(m, root, p, level) == TableOn(m, root, q, level)
  {
    if level > 0 {
      SamePrefixSameTable(m, root, p, q, level - 1);
    }
  }

  // ----- writing a leaf entry

  /** The path goes through slot i of table t. */
  predicate Through(m: seq<Word>, root: nat, p: Path, level: nat, t: nat, i: Index)
    requires MemoryOk(m) && root < FRAMES && level <= 3
  {
    TableOn(m, root, p, level) == t && p.At(level) == i
  }

  lemma {:induction false} WriteKeepsTables(m: seq<Word>, root: nat, tables: Tables, t: nat, i: Index, e: Word,
                                            p: Path, level: nat)
    requires Tree(m, root, tables) && t in tables && level <= 3
    requires !IsLink(tables[t].level, Slot(m, t, i)) && !IsLink(tables[t].level, e)
    ensures TableOn(m[t * 512 + i := e], root, p, level) == TableOn(m, root, p, level)
  {
    hide Tree, Frame;
    TreeBasics(m, root, tables);
    if level > 0 {
      WriteKeepsTables(m, root, tables, t, i, e, p, level - 1);
      OnTree(m, root, tables, p, level - 1);
      var up := TableOn(m, root, p, level - 1);
      if up >= 0 {
        var j := p.At(level - 1);
        SlotAfter(m, t, i, e, up, j);
        assert Next(level - 1, Slot(m[t * 512 + i := e], up, j)) == Next(level - 1, Slot(m, up, j));
      }
    }
  }

  lemma SlotAfter(m: seq<Word>, t: nat, i: Index, e: Word, u: nat, j: Index)
    requires MemoryOk(m) && t < FRAMES && u < FRAMES
    ensures Slot(m[t * 512 + i := e], u, j) == if u == t && j == i then e else Slot(m, u, j)
  {
    assert t * 512 + i == u * 512 + j <==> t == u && i == j;
  }

  /** Writing an entry that is not a link over one that is not a link keeps the tree. */
  lemma WriteLeafTree(m: seq<Word>, root: nat, tables: Tables, t: nat, i: Index, e: Word)
    requires Tree(m, root, tables) && t in tables
    requires !IsLink(tables[t].level, Slot(m, t, i)) && !IsLink(tables[t].level, e)
    ensures Tree(m[t * 512 + i := e], root, tables)
  {
    var m' := m[t * 512 + i := e];
    forall u, j: Index | u in tables ensures LinkRecorded(m', tables, u, j) {
      assert LinkRecorded(m, tables, u, j);
      SlotAfter(m, t, i, e, u, j);
    }
    forall u | u in tables && u != root ensures PlaceLinked(m', tables, u) {
      assert PlaceLinked(m, tables, u);
      SlotAfter(m, t, i, e, tables[u].parent, tables[u].index);
    }
  }

  /** It changes the translation of a path exactly when the path goes through the slot. */
  lemma WriteLeafOn(m: seq<Word>, root: nat, tables: Tables, t: nat, i: Index, e: Word, p: Path)
    requires Tree(m, root, tables) && t in tables
    requires !IsLink(tables[t].level, Slot(m, t, i)) && !IsLink(tables[t].level, e)
    ensures Walk(m[t * 512 + i := e], root, p) ==
            if Through(m, root, p, tables[t].level, t, i) then LeafOf(tables[t].level, e) else Walk(m, root, p)
  {
    var m' := m[t * 512 + i := e];
    WriteKeepsTables(m, root, tables, t, i, e, p, 2);
    WriteKeepsTables(m, root, tables, t, i, e, p, 3);
    OnTree(m, root, tables, p, 0);
    OnTree(m, root, tables, p, 1);
    OnTree(m, root, tables, p, 2);
    OnTree(m, root, tables, p, 3);
    var t2, t3 := TableOn(m, root, p, 2), TableOn(m, root, p, 3);
    if t2 >= 0 { SlotAfter(m, t, i, e, t2, p.i2); }
    if t3 >= 0 { SlotAfter(m, t, i, e, t3, p.i3); }
  }

  // ----- linking a new table

  /** m' is m with one frame cleared. */
  ghost predicate Zeroed(m: seq<Word>, m': seq<Word>, f: nat)
  {
    && MemoryOk(m) && MemoryOk(m') && f < FRAMES
    && forall k :: 0 <= k < PHYS_WORDS ==> m'[k] == if f * 512 <= k < f * 512 + 512 then 0 else m[k]
  }

  lemma SlotZeroed(m: seq<Word>, m': seq<Word>, f: nat, t: nat, i: Index)
    requires Zeroed(m, m', f) && t < FRAMES
    ensures Slot(m', t, i) == if t == f then 0 else Slot(m, t, i)
  {
    assert f * 512 <= t * 512 + i < f * 512 + 512 <==> t == f;
  }

  lemma {:induction false} ZeroKeepsTables(m: seq<Word>, m': seq<Word>, root: nat, tables: Tables, f: nat,
                                           p: Path, level: nat)
    requires Tree(m, root, tables) && f !in tables && Zeroed(m, m', f) && level <= 3
    ensures TableOn(m', root, p, level) == TableOn(m, root, p, level)
  {
    if level > 0 {
      ZeroKeepsTables(m, m', root, tables, f, p, level - 1);
      OnTree(m, root, tables, p, level - 1);
      var up := TableOn(m, root, p, level - 1);
      if up >= 0 {
        var j := p.At(level - 1);
        SlotZeroed(m, m', f, up, j);
        assert Next(level - 1, Slot(m', up, j)) == Next(level - 1, Slot(m, up, j));
      }
    }
  }

  /** Clearing a frame that is not a table changes nothing. */
  lemma ZeroKeeps(m: seq<Word>, m': seq<Word>, root: nat, tables: Tables, f: nat)
    requires Tree(m, root, tables) && f !in tables && Zeroed(m, m', f)
    ensures Tree(m', root, tables)
    ensures forall p: Path :: Walk(m', root, p) == Walk(m, root, p)
    ensures forall i: Index :: Slot(m', f, i) == 0
  {
    forall t, i: Index | t in tables ensures LinkRecorded(m', tables, t, i) {
      assert LinkRecorded(m, tables, t, i);
      SlotZeroed(m, m', f, t, i);
    }
    forall t | t in tables && t != root ensures PlaceLinked(m', tables, t) {
      assert PlaceLinked(m, tables, t);
      SlotZeroed(m, m', f, tables[t].parent, tables[t].index);
    }
    forall p: Path ensures Walk(m', root, p) == Walk(m, root, p) {
      ZeroKeepsWalk(m, m', root, tables, f, p);
    }
    forall i: Index ensures Slot(m', f, i) == 0 {
      SlotZeroed(m, m', f, f, i);
    }
  }

  lemma ZeroKeepsWalk(m: seq<Word>, m': seq<Word>, root: nat, tables: Tables, f: nat, p: Path)
    requires Tree(m, root, tables) && f !in tables && Zeroed(m, m', f)
    ensures Walk(m', root, p) == Walk(m, root, p)
  {
    var t2, t3 := TableOn(m, root, p, 2), TableOn(m, root, p, 3);
    ZeroKeepsTables(m, m', root, tables, f, p, 2);
    ZeroKeepsTables(m, m', root, tables, f, p, 3);
    OnTree(m, root, tables, p, 2);
    OnTree(m, root, tables, p, 3);
    if t2 >= 0 { SlotZeroed(m, m', f, t2, p.i2); }
    if t3 >= 0 { SlotZeroed(m, m', f, t3, p.i3); }
  }

  lemma {:induction false} StrayKeepsTables(m: seq<Word>, root: nat, tables: Tables, f: nat, i: Index, e: Word,
                                            p: Path, level: nat)
    requires Tree(m, root, tables) && f !in tables && f < FRAMES && level <= 3
    ensures TableOn(m[f * 512 + i := e], root, p, level) == TableOn(m, root, p, level)
  {
    hide Tree, Frame;
    TreeBasics(m, root, tables);
    if level > 0 {
      StrayKeepsTables(m, root, tables, f, i, e, p, level - 1);
      OnTree(m, root, tables, p, level - 1);
      var up := TableOn(m, root, p, level - 1);
      if up >= 0 { SlotAfter(m, f, i, e, up, p.At(level - 1)); }
    }
  }

  /** Writing a word of a frame that is not a table changes nothing. */
  lemma StrayKeeps(m: seq<Word>, root: nat, tables: Tables, f: nat, i: Index, e: Word)
    requires Tree(m, root, tables) && f !in tables && f < FRAMES
    ensures Tree(m[f * 512 + i := e], root, tables)
    ensures forall p: Path :: Walk(m[f * 512 + i := e], root, p) == Walk(m, root, p)
  {
    var m' := m[f * 512 + i := e];
    forall t, j: Index | t in tables ensures LinkRecorded(m', tables, t, j) {
      assert LinkRecorded(m, tables, t, j);
      SlotAfter(m, f, i, e, t, j);
    }
    forall t | t in tables && t != root ensures PlaceLinked(m', tables, t) {
      assert PlaceLinked(m, tables, t);
      SlotAfter(m, f, i, e, tables[t].parent, tables[t].index);
    }
    forall p: Path ensures Walk(m', root, p) == Walk(m, root, p) {
      StrayKeepsWalk(m, root, tables, f, i, e, p);
    }
  }

  lemma StrayKeepsWalk(m: seq<Word>, root: nat, tables: Tables, f: nat, i: Index, e: Word, p: Path)
    requires Tree(m, root, tables) && f !in tables && f < FRAMES
    ensures Walk(m[f * 512 + i := e], root, p) == Walk(m, root, p)
  {
    hide Tree, TableOn;
    TreeBasics(m, root, tables);
    var t2, t3 := TableOn(m, root, p, 2), TableOn(m, root, p, 3);
    StrayKeepsTables(m, root, tables, f, i, e, p, 2);
    StrayKeepsTables(m, root, tables, f, i, e, p, 3);
    OnTree(m, root, tables, p, 2);
    OnTree(m, root, tables, p, 3);
    if t2 >= 0 { SlotAfter(m, f, i, e, t2, p.i2); }
    if t3 >= 0 { SlotAfter(m, f, i, e, t3, p.i3); }
  }

  /** An empty frame f is about to be linked from slot i of table t by entry e. */
  ghost predicate Linkable(m: seq<Word>, root: nat, tables: Tables, t: nat, i: Index, f: nat, e: Word)
  {
    && Tree(m, root, tables) && t in tables && tables[t].level < 3 && !Present(Slot(m, t, i))
    && f !in tables && f < FRAMES && (forall j: Index :: Slot(m, f, j) == 0)
    && IsLink(tables[t].level, e) && Frame(e) == f
  }

  lemma {:induction false} LinkTables(m: seq<Word>, root: nat, tables: Tables, t: nat, i: Index, f: nat, e: Word,
                                      p: Path, level: nat)
    requires Linkable(m, root, tables, t, i, f, e) && level <= 3
    ensures var top := tables[t].level;
            TableOn(m[t * 512 + i := e], root, p, level) ==
            if level > top && Through(m, root, p, top, t, i) then (if level == top + 1 then f else -1)
            else TableOn(m, root, p, level)
  {
    hide Tree, Frame;
    TreeBasics(m, root, tables);
    if level > 0 {
      LinkTables(m, root, tables, t, i, f, e, p, level - 1);
      OnTree(m, root, tables, p, level - 1);
      var m' := m[t * 512 + i := e];
      var up, j := TableOn(m', root, p, level - 1), p.At(level - 1);
      if up >= 0 {
        SlotAfter(m, t, i, e, up, j);
        assert Next(level - 1, Slot(m', up, j)) ==
               if up == t && j == i then Next(level - 1, e) else Next(level - 1, Slot(m, up, j));
        if up == f { assert Next(level - 1, Slot(m', up, j)) == -1; }
      }
    }
  }

  /** Linking an empty table keeps the tree. */
  lemma LinkTree(m: seq<Word>, root: nat, tables: Tables, t: nat, i: Index, f: nat, e: Word)
    requires Linkable(m, root, tables, t, i, f, e)
    ensures Tree(m[t * 512 + i := e], root, tables[f := Node(tables[t].level + 1, t, i)])
  {
    var m' := m[t * 512 + i := e];
    var tables' := tables[f := Node(tables[t].level + 1, t, i)];
    forall u, j: Index | u in tables' ensures LinkRecorded(m', tables', u, j) {
      SlotAfter(m, t, i, e, u, j);
      if u != f { assert LinkRecorded(m, tables, u, j); }
    }
    forall u | u in tables' && u != root ensures PlaceLinked(m', tables', u) {
      if u != f {
        assert PlaceLinked(m, tables, u);
        SlotAfter(m, t, i, e, tables[u].parent, tables[u].index);
      } else {
        SlotAfter(m, t, i, e, t, i);
      }
    }
  }

  /** It changes no translation. */
  lemma LinkWalk(m: seq<Word>, root: nat, tables: Tables, t: nat, i: Index, f: nat, e: Word, p: Path)
    requires Linkable(m, root, tables, t, i, f, e)
    ensures Walk(m[t * 512 + i := e], root, p) == Walk(m, root, p)
  {
    var m' := m[t * 512 + i := e];
    LinkTables(m, root, tables, t, i, f, e, p, 2);
    LinkTables(m, root, tables, t, i, f, e, p, 3);
    OnTree(m, root, tables, p, 0);
    OnTree(m, root, tables, p, 1);
    OnTree(m, root, tables, p, 2);
    OnTree(m, root, tables, p, 3);
    var t2, t3 := TableOn(m', root, p, 2), TableOn(m', root, p, 3);
    if t2 >= 0 { SlotAfter(m, t, i, e, t2, p.i2); }
    if t3 >= 0 { SlotAfter(m, t, i, e, t3, p.i3); }
  }

  // ----- building entries

  lemma FrameIsField(e: nat, low: nat, width: nat)
    requires low == 12 && width == 40
    ensures Field(e, low, width) == e / 0x1000 % FRAMES
  {
    DropTwelve(e);
    KeepForty(e / 0x1000, width);
  }

  lemma FrameOfOr(a: Word, b: Word)
    ensures Frame(Or64(a, b)) == Or(Frame(a), Frame(b))
  {
    FrameOfOrAt(a, b, 12, 40);
  }

  lemma FrameOfOrAt(a: Word, b: Word, low: nat, width: nat)
    requires low == 12 && width == 40
    ensures Frame(Or64(a, b)) == Or(Frame(a), Frame(b))
  {
    FrameIsField(a, low, width);
    FrameIsField(b, low, width);
    FrameIsField(Or64(a, b), low, width);
    FieldOfOr(a, b, low, width);
  }

  lemma FlagsOfOr(a: Word, b: Word)
    ensures Present(Or64(a, b)) == (Present(a) || Present(b))
    ensures Large(Or64(a, b)) == (Large(a) || Large(b))
  {
    OrBit(a, b, 0);
    OrBit(a, b, 7);
    LargeBit(a);
    LargeBit(b);
    LargeBit(Or64(a, b));
  }

  lemma LargeBit(e: Word)
    ensures Large(e) == Bit(e, 7)
  {
    assert Bit(e, 7) == Bit(e / 2, 6) == Bit(e / 4, 5) == Bit(e / 8, 4) == Bit(e / 16, 3);
    assert Bit(e / 16, 3) == Bit(e / 32, 2) == Bit(e / 64, 1) == Bit(e / 128, 0);
  }

  /** Or-ing in a flag word without address bits. */
  lemma SetFlags(a: Word, flags: Word)
    requires Frame(flags) == 0
    ensures Frame(Or64(a, flags)) == Frame(a)
    ensures Present(Or64(a, flags)) == (Present(a) || Present(flags))
    ensures Large(Or64(a, flags)) == (Large(a) || Large(flags))
  {
    FrameOfOr(a, flags);
    FlagsOfOr(a, flags);
    OrZero(Frame(a));
  }

  lemma PlainFlags()
    ensures Frame(PAGE_PRESENT) == Frame(PAGE_WRITABLE) == Frame(PAGE_LARGE) == 0
    ensures Present(PAGE_PRESENT) && !Present(PAGE_WRITABLE) && !Present(PAGE_LARGE)
    ensures !Large(PAGE_PRESENT) && !Large(PAGE_WRITABLE) && Large(PAGE_LARGE)
  {
  }

  lemma AddressFields(f: nat)
    requires f * 0x1000 < TWO64 && f < FRAMES
    ensures Frame(f * 0x1000) == f && !Large(f * 0x1000)
  {
    assert f * 0x1000 / 0x1000 == f;
    assert f * 0x1000 / 0x80 == 2 * (f * 16);
  }

  const PAGE_PRESENT: Word := 1
  const PAGE_WRITABLE: Word := 2
  const PAGE_LARGE: Word := 0x80

  /** `new_table_phys | PAGE_PRESENT | PAGE_WRITABLE` */
  function LinkEntry(f: nat): (e: Word)
    requires f * 0x1000 < TWO64
  {
    Or64(Or64(f * 0x1000, PAGE_PRESENT), PAGE_WRITABLE)
  }

  lemma LinkEntryFields(f: nat)
    requires f * 0x1000 < TWO64 && f < FRAMES
    ensures Present(LinkEntry(f)) && !Large(LinkEntry(f)) && Frame(LinkEntry(f)) == f
  {
    AddressFields(f);
    PlainFlags();
    SetFlags(f * 0x1000, PAGE_PRESENT);
    SetFlags(Or64(f * 0x1000, PAGE_PRESENT), PAGE_WRITABLE);
  }

  /** `paddr | flags | PAGE_PRESENT` */
  function MapEntry(paddr: Word, flags: Word): Word
  {
    Or64(Or64(paddr, flags), PAGE_PRESENT)
  }

  /** The frame a mapping entry names: the caller's flag word is or-ed in whole. */
  function MappedFrame(paddr: Word, flags: Word): nat
  {
    Or(Frame(paddr), Frame(flags))
  }

  lemma MapEntryFields(paddr: Word, flags: Word)
    ensures Present(MapEntry(paddr, flags)) && Frame(MapEntry(paddr, flags)) == MappedFrame(paddr, flags)
  {
    FrameOfOr(paddr, flags);
    PlainFlags();
    SetFlags(Or64(paddr, flags), PAGE_PRESENT);
  }

  /** Every flag bit: a link is present and writable, a mapping has its caller's flags and is present. */
  lemma EntryBits(f: nat, paddr: Word, flags: Word, i: nat)
    requires f * 0x1000 < TWO64 && i < 12
    ensures Bit(LinkEntry(f), i) <==> i == 0 || i == 1
    ensures Bit(MapEntry(paddr, flags), i) <==> i == 0 || Bit(paddr, i) || Bit(flags, i)
  {
    hide Or;
    OrBit(Or64(f * 0x1000, PAGE_PRESENT), PAGE_WRITABLE, i);
    OrBit(f * 0x1000, PAGE_PRESENT, i);
    OrBit(Or64(paddr, flags), PAGE_PRESENT, i);
    OrBit(paddr, flags, i);
    AlignedBit(f, 12, i);
    SingleBits(i);
  }

  lemma {:induction false} AlignedBit(f: nat, n: nat, i: nat)
    requires i < n <= 12
    ensures !Bit(f * Pow2(n), i) && Pow2(12) == 0x1000
    decreases i
  {
    Pow2Of12();
    var h := f * Pow2(n - 1);
    assert f * Pow2(n) == 2 * h;
    if i > 0 {
      AlignedBit(f, n - 1, i - 1);
      assert 2 * h / 2 == h;
    }
  }

  lemma Pow2Of12()
    ensures Pow2(12) == 0x1000
  {
    Pow2Plus8(4);
    assert Pow2(4) == 16;
  }

  lemma SingleBits(i: nat)
    ensures Bit(PAGE_PRESENT, i) <==> i == 0
    ensures Bit(PAGE_WRITABLE, i) <==> i == 1
  {
    if i > 0 { ZeroBit(i - 1); }
    if i > 1 { ZeroBit(i - 2); }
  }

  /** `paddr | flags | PAGE_PRESENT | PAGE_LARGE` */
  function HugeEntry(paddr: Word, flags: Word): Word
  {
    Or64(MapEntry(paddr, flags), PAGE_LARGE)
  }

  lemma HugeEntryFields(paddr: Word, flags: Word)
    ensures Present(HugeEntry(paddr, flags)) && Large(HugeEntry(paddr, flags))
    ensures Frame(HugeEntry(paddr, flags)) == MappedFrame(paddr, flags)
  {
    MapEntryFields(paddr, flags);
    PlainFlags();
    SetFlags(MapEntry(paddr, flags), PAGE_LARGE);
  }

  /** A mapping names the caller's frame exactly when the flag word carries no
      address bit outside it; plain flag words carry none. */
  lemma FlagsKeepFrame(paddr: Word, flags: Word)
    ensures MappedFrame(paddr, flags) == Frame(paddr) <==> Within(Frame(flags), Frame(paddr))
    ensures flags / 0x1000 % FRAMES == 0 ==> MappedFrame(paddr, flags) == Frame(paddr)
  {
    OrAbsorbs(Frame(paddr), Frame(flags));
    OrZero(Frame(paddr));
  }

  // ----- virtual pages

  /** The indices `vaddr >> (39 - 9 * level) & 0x1FF` of virtual page x. */
  function PathOf(x: nat): Path
  {
    Path(x / 0x800_0000 % 512, x / 0x4_0000 % 512, x / 0x200 % 512, x % 512)
  }

  /** Pages share a path exactly when they agree below bit 48 of the address. */
  lemma PathIdentity(x: nat, y: nat)
    ensures PathOf(x) == PathOf(y) <==> x % 0x10_0000_0000 == y % 0x10_0000_0000
  {
    PathDigits(x);
    PathDigits(y);
    DigitsUnique(PathOf(x), PathOf(y));
  }

  /** The number below 2^36 with a path's indices as its base-512 digits. */
  function Number(p: Path): nat
  {
    ((p.i0 * 512 + p.i1) * 512 + p.i2) * 512 + p.i3
  }

  lemma PathDigits(x: nat)
    ensures x % 0x10_0000_0000 == Number(PathOf(x))
  {
    var a, b, c, d := x / 0x200, x / 0x4_0000, x / 0x800_0000, x / 0x10_0000_0000;
    Quotients(x, a, b, c, d);
    assert x == 512 * a + x % 512 && a == 512 * b + a % 512 && b == 512 * c + b % 512 && c == 512 * d + c % 512;
    var n := Number(PathOf(x));
    assert x == d * 0x10_0000_0000 + n && 0 <= n < 0x10_0000_0000;
  }

  lemma Quotients(x: nat, a: nat, b: nat, c: nat, d: nat)
    requires a == x / 0x200 && b == x / 0x4_0000 && c == x / 0x800_0000 && d == x / 0x10_0000_0000
    ensures b == a / 512 && c == b / 512 && d == c / 512
  {
  }

  lemma DigitsUnique(p: Path, q: Path)
    ensures Number(p) == Number(q) <==> p == q
  {
    if Number(p) == Number(q) {
      LastDigit(((p.i0 * 512 + p.i1) * 512 + p.i2), p.i3, ((q.i0 * 512 + q.i1) * 512 + q.i2), q.i3);
      LastDigit(p.i0 * 512 + p.i1, p.i2, q.i0 * 512 + q.i1, q.i2);
      LastDigit(p.i0, p.i1, q.i0, q.i1);
    }
  }

  lemma LastDigit(a: nat, i: Index, b: nat, j: Index)
    requires a * 512 + i == b * 512 + j
    ensures a == b && i == j
  {
  }

  /** The frame a leaf gives the page with this last index, or -1. */
  function FrameBehind(leaf: Leaf, i3: Index): int
  {
    match leaf
    case Unmapped => -1
    case Page(f) => f
    case HugePage(f) => f / 512 * 512 + i3
  }

  /** The frame behind a virtual page, or -1. */
  function Target(m: seq<Word>, root: nat, p: Path): int
    requires MemoryOk(m) && root < FRAMES
  {
    FrameBehind(Walk(m, root, p), p.i3)
  }
}
