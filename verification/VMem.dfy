/** The virtual memory manager of mm/VMem.cpp over the frame allocator. */
module VMem {
  import opened Words
  import opened PageTable
  import opened PageRanges
  import opened MissingTables
  import opened PMem
  import opened FrameBitmap
  import opened VMemStates

  const VMEM_SUCCESS: int := 0
  const VMEM_ERROR_NOMEM: int := -1
  const VMEM_ERROR_INVALID_ADDR: int := -2
  const VMEM_ERROR_ALREADY_MAPPED: int := -3
  const VMEM_ERROR_ALIGN: int := -5

  /** The three canonical windows: low heap, high heap, kernel. */
  predicate IsValidVirtAddr(v: Word)
  {
    || 0x1000 <= v <= 0x7FFF_FFFF_FFFF
    || 0xFFFF_8000_0000_0000 <= v <= 0xFFFF_FDFF_FFFF_FFFF
    || 0xFFFF_FE00_0000_0000 <= v
  }

  /** The edges of the windows. */
  lemma WindowEdges()
    ensures !IsValidVirtAddr(0xFFF) && IsValidVirtAddr(0x1000)
    ensures IsValidVirtAddr(0x7FFF_FFFF_FFFF) && !IsValidVirtAddr(0x8000_0000_0000)
    ensures !IsValidVirtAddr(0xFFFF_7FFF_FFFF_FFFF) && IsValidVirtAddr(0xFFFF_8000_0000_0000)
    ensures IsValidVirtAddr(0xFFFF_FDFF_FFFF_FFFF) && IsValidVirtAddr(0xFFFF_FE00_0000_0000)
    ensures IsValidVirtAddr(0xFFFF_FFFF_FFFF_FFFF)
  {
  }

  function PageAt(region: Word, i: nat): nat { region + i * PAGE_SIZE }

  /** Every page of the region lies in a canonical window. */
  predicate ValidPages(region: Word, n: nat)
  {
    forall i: nat :: i < n ==> PageAt(region, i) < TWO64 && IsValidVirtAddr(PageAt(region, i))
  }

  lemma PageIsValid(region: Word, n: nat, i: nat)
    requires i < n && region % PAGE_SIZE == 0 && region + n * PAGE_SIZE <= TWO64
    ensures region + i * PAGE_SIZE == (PageOf(region) + i) * PAGE_SIZE < TWO64
    ensures ValidPages(region, n) ==> IsValidVirtAddr(region + i * PAGE_SIZE)
  {
    assert PageAt(region, i) == region + i * PAGE_SIZE;
  }

  class AddressSpace {
    const pmem: FrameAllocator
    /** Physical memory, one word for every eight bytes. */
    const mem: array<Word>
    /** The frame of the top-level table. */
    const pml4: nat
    /** Tables are taken below this physical address. */
    const identityMapSize: nat
    /** Where every table hangs. */
    ghost var tables: Tables

    /** Adopt the tables the boot code left behind CR3. */
    constructor (pmem: FrameAllocator, mem: array<Word>, pml4: nat, identityMapSize: nat, ghost tables: Tables)
      requires pmem.Valid() && pmem.bitmap != mem && mem.Length == PHYS_WORDS && pml4 < FRAMES
      requires Sound(State(mem[..], tables, pmem.InUse()), pml4)
      ensures Valid() && this.pmem == pmem && this.mem == mem && this.pml4 == pml4 && this.tables == tables
    {
      this.pmem, this.mem, this.pml4, this.identityMapSize := pmem, mem, pml4, identityMapSize;
      this.tables := tables;
    }

    ghost function Now(): State
      reads this, pmem, pmem.bitmap, mem
    {
      State(mem[..], tables, pmem.InUse())
    }

    /** What holds even after a stray write. */
    ghost predicate Usable()
      reads this, pmem, pmem.bitmap, mem
    {
      pmem.Valid() && pmem.bitmap != mem && mem.Length == PHYS_WORDS && pml4 < FRAMES
    }

    ghost predicate Valid()
      reads this, pmem, pmem.bitmap, mem
    {
      Usable() && Sound(Now(), pml4)
    }

    /** Fewer than m frames can be handed out for certain. */
    ghost predicate Exhausted(m: nat)
      reads this, pmem, pmem.bitmap
    {
      !Available(pmem.InUse(), pmem.totalPages, identityMapSize, m)
    }

    predicate IsValidPhysAddr(addr: nat) { addr != 0 && addr < pmem.totalPages * PAGE_SIZE }

    // ----- page tables

    /** Clear the 512 words of a frame. */
    method ZeroPage(f: nat)
      requires mem.Length == PHYS_WORDS && f < FRAMES
      modifies mem
      ensures Zeroed(old(mem[..]), mem[..], f)
    {
      var i := 0;
      while i < 512
        invariant i <= 512
        invariant forall k :: 0 <= k < PHYS_WORDS ==>
                    mem[k] == if f * 512 <= k < f * 512 + i then 0 else old(mem[k])
      {
        mem[f * 512 + i] := 0;
        i := i + 1;
      }
    }

    /** No frame for a new table can be had: the allocator's guard fires, or its
        search finds none below the identity limit. */
    ghost predicate NoTableFrame()
      reads this, pmem, pmem.bitmap
    {
      || pmem.usedPages >= pmem.totalPages - 1
      || TableFrame(pmem.bitmap[..], pmem.nextFreeHint, pmem.totalPages, identityMapSize) < 0
    }

    /** The frame of TableFrame, or 0 exactly when there is none. */
    method TakeTableFrame() returns (addr: nat)
      requires pmem.Valid()
      modifies pmem, pmem.bitmap
      ensures pmem.Valid() && pmem.bitmap == old(pmem.bitmap)
      ensures addr == 0 <==> old(NoTableFrame())
      ensures addr == 0 ==> pmem.InUse() == old(pmem.InUse()) && NoTableFrame()
      ensures addr != 0 ==>
                && addr % PAGE_SIZE == 0 && LOWMEM_PAGES <= addr / PAGE_SIZE < pmem.totalPages && addr < identityMapSize
                && addr / PAGE_SIZE ==
                     old(TableFrame(pmem.bitmap[..], pmem.nextFreeHint, pmem.totalPages, identityMapSize))
                && addr / PAGE_SIZE !in old(pmem.InUse())
                && pmem.InUse() == old(pmem.InUse()) + {addr / PAGE_SIZE} && |pmem.InUse()| < pmem.totalPages
    {
      hide FirstFree, Found, TableFrame, Retrying;
      ghost var bm, hint0, total := pmem.bitmap[..], pmem.nextFreeHint, pmem.totalPages;
      FoundOrFull();
      var attempt := 0;
      while attempt < 32
        invariant pmem.Valid() && pmem.bitmap == old(pmem.bitmap) && attempt <= 32
        invariant pmem.bitmap[..] == bm && pmem.usedPages == old(pmem.usedPages)
        invariant attempt == 0 ==> pmem.nextFreeHint == hint0
        invariant attempt > 0 ==> pmem.usedPages < total - 1 && Found(bm, pmem.nextFreeHint, total) >= 0
        invariant attempt > 0 ==> Retrying(bm, hint0, pmem.nextFreeHint, total, identityMapSize, attempt)
      {
        FoundOrFull();
        ghost var hint := pmem.nextFreeHint;
        var candidate := pmem.AllocPage();
        if candidate == 0 {
          SameFound(bm, hint, pmem.nextFreeHint, total, identityMapSize);
          return 0;
        }
        if candidate < identityMapSize {
          RetryFinds(bm, hint0, hint, total, identityMapSize, attempt);
          pmem.CounterIsExact();
          return candidate;
        }
        GiveBack(candidate, bm);
        RetryStep(bm, hint0, hint, total, identityMapSize, attempt);
        attempt := attempt + 1;
      }
      RetryFails(bm, hint0, pmem.nextFreeHint, total, identityMapSize, attempt);
      addr := 0;
    }

    /** Free a frame just taken: bitmap and counter are as before, the hint points back. */
    method GiveBack(addr: nat, ghost bm: seq<Word>)
      requires pmem.Valid() && addr != 0 && addr % PAGE_SIZE == 0 && addr / PAGE_SIZE < pmem.totalPages
      requires |bm| == pmem.bitmap.Length && addr / PAGE_SIZE !in UsedPages(bm)
      requires pmem.InUse() == UsedPages(bm) + {addr / PAGE_SIZE}
      requires pmem.nextFreeHint == HintAfter(addr / PAGE_SIZE, pmem.totalPages)
      modifies pmem, pmem.bitmap
      ensures pmem.Valid() && pmem.bitmap == old(pmem.bitmap) && pmem.bitmap[..] == bm
      ensures pmem.usedPages == Total(bm)
      ensures pmem.nextFreeHint == HintBack(addr / PAGE_SIZE, pmem.totalPages)
    {
      pmem.FreePage(addr);
      SamePagesSameBitmap(pmem.bitmap[..], bm);
    }

    /** The search finds nothing exactly when memory is full. */
    lemma FoundOrFull()
      requires pmem.Valid()
      ensures Found(pmem.bitmap[..], pmem.nextFreeHint, pmem.totalPages) < 0 <==> pmem.Full()
    {
      var bm, total := pmem.bitmap[..], pmem.totalPages;
      Membership(bm);
      FirstFreeMeans(bm, LOWMEM_PAGES, total);
      FirstFreeMeans(bm, StartOf(pmem.nextFreeHint, total), total);
      if pmem.Full() {
        pmem.NoneFree(LOWMEM_PAGES);
        pmem.NoneFree(StartOf(pmem.nextFreeHint, total));
      } else {
        var p: nat :| LOWMEM_PAGES <= p < total && p !in pmem.InUse();
        assert Between(p, LOWMEM_PAGES, total) && !Used(bm, p);
      }
    }

    /** A cleared frame below the identity limit, or 0. The table cache is left
        out: nothing ever fills it. */
    method AllocIdentityPageTable() returns (addr: nat)
      requires Usable()
      modifies pmem, pmem.bitmap, mem
      ensures Usable() && pmem.bitmap == old(pmem.bitmap)
      ensures addr == 0 <==> old(NoTableFrame())
      ensures addr == 0 ==> pmem.InUse() == old(pmem.InUse()) && mem[..] == old(mem[..]) && NoTableFrame()
      ensures addr != 0 ==>
                && addr % PAGE_SIZE == 0 && LOWMEM_PAGES <= addr / PAGE_SIZE < pmem.totalPages && addr < identityMapSize
                && addr / PAGE_SIZE ==
                     old(TableFrame(pmem.bitmap[..], pmem.nextFreeHint, pmem.totalPages, identityMapSize))
                && addr / PAGE_SIZE !in old(pmem.InUse())
                && pmem.InUse() == old(pmem.InUse()) + {addr / PAGE_SIZE} && |pmem.InUse()| < pmem.totalPages
                && Zeroed(old(mem[..]), mem[..], addr / PAGE_SIZE)
    {
      hide TableFrame;
      addr := TakeTableFrame();
      if addr != 0 { ZeroPage(addr / PAGE_SIZE); }
    }

    /** The table below `table` on a path, 0 if there is none: the lookup without creation. */
    method FindTable(table: nat, p: Path, level: nat) returns (r: nat)
      requires Usable() && level <= 2
      ensures r == NextTable(mem[..], pmem.totalPages, table, p.At(level))
    {
      if !IsValidPhysAddr(table) { return 0; }
      var e := mem[table / PAGE_SIZE * 512 + p.At(level)];
      if !Present(e) { return 0; }
      r := Frame(e) * PAGE_SIZE;
    }

    /** The same lookup with creation: 0 when no frame is left, or when the
        entry is a 2 MB page of frame 0. */
    method EnsureTable(table: nat, p: Path, level: nat) returns (r: nat)
      requires Valid() && level <= 2 && table == TableOn(mem[..], pml4, p, level) * PAGE_SIZE
      modifies this, pmem, pmem.bitmap, mem
      ensures Usable() && pmem.bitmap == old(pmem.bitmap) && Grown(old(Now()), Now(), pml4)
      ensures old(TableOn(mem[..], pml4, p, level + 1)) >= 0 ==> r != 0 && Now() == old(Now())
      ensures r == 0 ==> Now() == old(Now()) && (NoTableFrame() || (level == 2 && Walk(mem[..], pml4, p).HugePage?))
      ensures Takes(old(Now()).used, Now().used, pmem.totalPages)
      ensures r != 0 && !(level == 2 && Walk(mem[..], pml4, p).HugePage?) ==>
                Creates(old(Now()), Now(), pml4, p, level + 1)
      ensures r != 0 ==> r % PAGE_SIZE == 0 && r / PAGE_SIZE < FRAMES
      ensures r != 0 ==>
                if level == 2 && Walk(mem[..], pml4, p).HugePage?
                then r == Walk(mem[..], pml4, p).frame * PAGE_SIZE && Now() == old(Now())
                else TableOn(mem[..], pml4, p, level + 1) == r / PAGE_SIZE
      ensures level == 2 && old(Walk(mem[..], pml4, p)).HugePage? ==>
                r == old(Walk(mem[..], pml4, p)).frame * PAGE_SIZE && Now() == old(Now())
    {
      hide Tree, Sound, Grown, Walk, TableOn, Creates;
      GrownSelf(Now(), pml4);
      FramesBelowTotal();
      NextOnTree(Now(), pml4, pmem.totalPages, p, level);
      if !IsValidPhysAddr(table) {
        MetTablesInUse(Now(), pml4, p, level);
        assert false;
      }
      var e := mem[table / PAGE_SIZE * 512 + p.At(level)];
      if !Present(e) {
        if level == 2 { WalkTables(mem[..], pml4, p); }
        r := CreateTable(table / PAGE_SIZE, p, level);
        return;
      }
      PresentEntry(mem[..], pml4, p, level);
      if TableOn(mem[..], pml4, p, level + 1) >= 0 { CreatesNone(Now(), pml4, p, level + 1); }
      r := Frame(e) * PAGE_SIZE;
    }

    /** Link a fresh table from the absent entry; 0 when no frame is left. */
    method CreateTable(t: nat, p: Path, level: nat) returns (r: nat)
      requires Valid() && level <= 2 && t == TableOn(mem[..], pml4, p, level)
      requires !Present(Slot(mem[..], t, p.At(level)))
      modifies this, pmem, pmem.bitmap, mem
      ensures Usable() && pmem.bitmap == old(pmem.bitmap) && Grown(old(Now()), Now(), pml4)
      ensures r == 0 ==> Now() == old(Now()) && NoTableFrame()
      ensures Takes(old(Now()).used, Now().used, pmem.totalPages)
      ensures r != 0 ==> Creates(old(Now()), Now(), pml4, p, level + 1)
      ensures r != 0 ==> r % PAGE_SIZE == 0 && TableOn(mem[..], pml4, p, level + 1) == r / PAGE_SIZE
      ensures r != 0 && level == 2 ==> !Walk(mem[..], pml4, p).HugePage?
    {
      hide Tree, Sound, Grown, Walk, TableOn, LinkEntry, Creates, Takes, NoTableFrame, TableFrame, Zeroed;
      hide FrameAllocator.Valid, FrameAllocator.InUse, FrameAllocator.Counted;
      var i := p.At(level);
      TakesOne(pmem.InUse(), {}, pmem.totalPages);
      GrownSelf(Now(), pml4);
      r := AllocIdentityPageTable();
      if r == 0 {
        assert Now() == old(Now());
        return;
      }
      FramesBelowTotal();
      var f := r / PAGE_SIZE;
      var e := LinkEntry(f);
      LinkEntryFields(f);
      AdoptFrame(old(Now()), mem[..], pml4, f, e, p, level);
      AdoptCreates(old(Now()), mem[..], pml4, f, e, p, level);
      TakesOne(old(Now()).used, {f}, pmem.totalPages);
      ghost var m2 := mem[..][t * 512 + i := e];
      mem[t * 512 + i] := e;
      tables := tables[f := Node(level + 1, t, i)];
      assert mem[..] == m2;
      assert Now() == State(m2, old(tables)[f := Node(level + 1, t, i)], old(pmem.InUse()) + {f});
      WalkTables(m2, pml4, p);
    }

    /** With a frame to spare and every free frame below the identity limit, allocations succeed. */
    lemma FailureMeansExhausted()
      requires pmem.Valid()
      ensures pmem.usedPages >= pmem.totalPages - 1 || pmem.Full() ==> Exhausted(1)
      ensures NoTableFrame() ==> Exhausted(1)
    {
      var bm, used, total := pmem.bitmap[..], pmem.InUse(), pmem.totalPages;
      pmem.CounterIsExact();
      FoundOrFull();
      if pmem.Full() {
        assert FreeHigh(used, total) == {};
      } else if NoTableFrame() && pmem.usedPages < total - 1 {
        var f := Found(bm, pmem.nextFreeHint, total);
        FoundIsFree(bm, pmem.nextFreeHint, total);
        Membership(bm);
        assert f in FreeHigh(used, total);
      }
    }

    /** Every frame in use lies below totalPages, which is bounded itself. */
    lemma FramesBelowTotal()
      requires pmem.Valid()
      ensures forall f :: f in pmem.InUse() ==> f < pmem.totalPages
      ensures pmem.totalPages <= MAX_PAGES
    {
      pmem.CounterIsExact();
    }

    // ----- translation

    /** The entry that ends the walk along a path. */
    method LookUp(p: Path) returns (leaf: Leaf)
      requires Usable()
      ensures leaf == LookUps(mem[..], pmem.totalPages, pml4, p)
    {
      var pdp := FindTable(pml4 * PAGE_SIZE, p, 0);
      if pdp == 0 { return Unmapped; }
      var pd := FindTable(pdp, p, 1);
      if pd == 0 { return Unmapped; }
      var pde := mem[pd / PAGE_SIZE * 512 + p.i2];
      if !Present(pde) { return Unmapped; }
      if Large(pde) { return HugePage(Frame(pde)); }
      var pt := FindTable(pd, p, 2);
      if pt == 0 { return Unmapped; }
      var pte := mem[pt / PAGE_SIZE * 512 + p.i3];
      leaf := if Present(pte) then Page(Frame(pte)) else Unmapped;
    }

    /** The physical address behind v, or 0. */
    method GetPhysAddr(v: Word) returns (r: nat)
      requires Valid()
      ensures var t := Target(mem[..], pml4, PathTo(v));
              r == if t < 0 then 0 else t * PAGE_SIZE + v % PAGE_SIZE
      ensures match Walk(mem[..], pml4, PathTo(v))
              case Unmapped => r == 0
              case Page(f) => r == f * 0x1000 + v % 0x1000
              case HugePage(f) => r == f / 512 * 0x20_0000 + v % 0x20_0000
    {
      hide Tree, Walk, PathOf, LookUps, Assemble, FrameAllocator.Valid, FrameAllocator.InUse;
      ghost var p := PathTo(v);
      FramesBelowTotal();
      LookUpsWalk(Now(), pml4, pmem.totalPages, p);
      var leaf := LookUp(PathTo(v));
      AssembleIsSum(leaf, v);
      AssembleMeans(leaf, v);
      r := Assemble(leaf, v);
    }

    // ----- mapping

    /** The page directory of a path, creating tables on the way; 0 when out of frames. */
    method EnsureDirectory(p: Path) returns (pd: nat)
      requires Valid()
      modifies this, pmem, pmem.bitmap, mem
      ensures Usable() && pmem.bitmap == old(pmem.bitmap) && Grown(old(Now()), Now(), pml4)
      ensures old(TableOn(mem[..], pml4, p, 2)) >= 0 ==> pd != 0 && Now() == old(Now())
      ensures pd == 0 ==> NoTableFrame() && TableOn(mem[..], pml4, p, 2) < 0
      ensures Takes(old(Now()).used, Now().used, pmem.totalPages)
      ensures pd != 0 ==> Creates(old(Now()), Now(), pml4, p, 2)
      ensures pd == 0 ==> |Now().used| < |old(Now()).used| + old(LackCount(mem[..], pml4, p, 2))
      ensures pd != 0 ==> pd == TableOn(mem[..], pml4, p, 2) * PAGE_SIZE
    {
      hide Tree, Sound, TableOn, Walk, FramesForTables, SameTranslation, Takes, Creates, LackCount, NoTableFrame;
      hide FrameAllocator.Valid, FrameAllocator.InUse, FrameAllocator.Counted;
      RootTable(mem[..], pml4, p);
      NoDeeper(mem[..], pml4, p, 1);
      if TableOn(mem[..], pml4, p, 1) < 0 { LacksFirst(mem[..], pml4, p); }
      var pdp := EnsureTable(pml4 * PAGE_SIZE, p, 0);
      if pdp == 0 { return 0; }
      ghost var s1 := Now();
      pd := EnsureTable(pdp, p, 1);
      GrownTwice(old(Now()), s1, Now(), pml4);
      TakesTwice(old(Now()).used, s1.used, Now().used, pmem.totalPages);
      if pd != 0 { CreatesNext(old(Now()), s1, Now(), pml4, p, 1); } else { StillLacks(old(Now()), s1, pml4, p, 1); }
    }

    /** Read as a table, the 2 MB page behind the path has an entry for it. */
    ghost predicate HoldsEntry(p: Path)
      requires Usable()
      reads this, pmem, pmem.bitmap, mem
    {
      var leaf := Walk(mem[..], pml4, p);
      leaf.HugePage? && leaf.frame != 0 && Present(Slot(mem[..], leaf.frame, p.i3))
    }

    /** Walk to the last-level table, creating tables on the way, and enter e. */
    method InstallPage(p: Path, e: Word) returns (rc: int)
      requires Valid() && Present(e)
      modifies this, pmem, pmem.bitmap, mem
      ensures Usable() && pmem.bitmap == old(pmem.bitmap)
      ensures rc in {VMEM_SUCCESS, VMEM_ERROR_NOMEM, VMEM_ERROR_ALREADY_MAPPED}
      // out of memory exactly when the path still lacks a table, for which there is no frame
      ensures !old(Walk(mem[..], pml4, p)).HugePage? ==>
                (rc == VMEM_ERROR_NOMEM <==> TableOn(mem[..], pml4, p, 3) < 0)
      ensures rc == VMEM_ERROR_NOMEM && !old(Walk(mem[..], pml4, p)).HugePage? ==> NoTableFrame()
      // inside a 2 MB page its first frame is taken for a table
      ensures old(Walk(mem[..], pml4, p)).HugePage? ==>
                && (rc == VMEM_ERROR_NOMEM <==> old(Walk(mem[..], pml4, p)).frame == 0)
                && (rc == VMEM_ERROR_ALREADY_MAPPED <==> old(HoldsEntry(p)))
      ensures Takes(old(Now()).used, Now().used, pmem.totalPages)
      ensures rc == VMEM_SUCCESS && !old(Walk(mem[..], pml4, p)).HugePage? ==> Creates(old(Now()), Now(), pml4, p, 3)
      ensures rc == VMEM_ERROR_NOMEM && !old(Walk(mem[..], pml4, p)).HugePage? ==>
                |Now().used| < |old(Now()).used| + old(LackCount(mem[..], pml4, p, 3))
      ensures rc != VMEM_SUCCESS ==> Grown(old(Now()), Now(), pml4)
      ensures old(Walk(mem[..], pml4, p)).Page? ==> rc == VMEM_ERROR_ALREADY_MAPPED
      ensures old(Walk(mem[..], pml4, p)) == Unmapped ==> rc != VMEM_ERROR_ALREADY_MAPPED
      ensures rc == VMEM_SUCCESS && !old(Walk(mem[..], pml4, p)).HugePage? ==>
                MapsPage(old(Now()), Now(), pml4, p, Frame(e))
      ensures rc == VMEM_SUCCESS && old(Walk(mem[..], pml4, p)).HugePage? ==>
                && Walk(mem[..], pml4, p) == old(Walk(mem[..], pml4, p))
                && Now() == old(Now()).(m := old(mem[..])[Walk(mem[..], pml4, p).frame * 512 + p.i3 := e])
    {
      hide Tree, Sound, TableOn, Walk, FramesForTables, SameTranslation, Takes, Creates, LackCount, NoTableFrame;
      hide FrameAllocator.Valid, FrameAllocator.InUse, FrameAllocator.Counted;
      WalkTables(mem[..], pml4, p);
      var pt := EnsureLast(p);
      ghost var s3 := Now();
      SameWalk(old(Now()), s3, pml4, p);
      WalkTables(s3.m, pml4, p);
      if pt == 0 { return VMEM_ERROR_NOMEM; }
      var k := pt / PAGE_SIZE * 512 + p.i3;
      if Present(mem[k]) { return VMEM_ERROR_ALREADY_MAPPED; }
      mem[k] := e;
      assert Now() == s3.(m := s3.m[k := e]);
      if Walk(s3.m, pml4, p).HugePage? {
        StrayWrite(s3.m, pml4, p, k, e);
      } else {
        PageWriteCreates(old(Now()), s3, pml4, p, e);
        WritePage(old(Now()), s3, pml4, p, e);
        WalkTables(mem[..], pml4, p);
      }
      rc := VMEM_SUCCESS;
    }

    /** The last-level table of a path, creating tables on the way. Inside a 2 MB page it is
        the page's own first frame. */
    method EnsureLast(p: Path) returns (pt: nat)
      requires Valid()
      modifies this, pmem, pmem.bitmap, mem
      ensures Usable() && pmem.bitmap == old(pmem.bitmap) && Grown(old(Now()), Now(), pml4)
      ensures Takes(old(Now()).used, Now().used, pmem.totalPages)
      ensures pt % PAGE_SIZE == 0 && pt / PAGE_SIZE < FRAMES
      ensures old(Walk(mem[..], pml4, p)).HugePage? ==>
                Now() == old(Now()) && pt == Walk(mem[..], pml4, p).frame * PAGE_SIZE
      ensures !old(Walk(mem[..], pml4, p)).HugePage? ==>
                if pt == 0 then
                  && TableOn(mem[..], pml4, p, 3) < 0 && NoTableFrame()
                  && |Now().used| < |old(Now()).used| + old(LackCount(mem[..], pml4, p, 3))
                else TableOn(mem[..], pml4, p, 3) == pt / PAGE_SIZE && Creates(old(Now()), Now(), pml4, p, 3)
    {
      hide Tree, Sound, TableOn, Walk, FramesForTables, SameTranslation, Takes, Creates, LackCount, NoTableFrame;
      hide FrameAllocator.Valid, FrameAllocator.InUse, FrameAllocator.Counted;
      WalkTables(mem[..], pml4, p);
      LackMore(mem[..], pml4, p, 2);
      var pd := EnsureDirectory(p);
      if pd == 0 {
        WalkTables(mem[..], pml4, p);
        NoDeeper(mem[..], pml4, p, 2);
        return 0;
      }
      ghost var s2 := Now();
      SameWalk(old(Now()), s2, pml4, p);
      pt := EnsureTable(pd, p, 2);
      ghost var s3 := Now();
      GrownTwice(old(Now()), s2, s3, pml4);
      TakesTwice(old(Now()).used, s2.used, s3.used, pmem.totalPages);
      SameWalk(old(Now()), s3, pml4, p);
      if !Walk(s3.m, pml4, p).HugePage? {
        if pt == 0 { StillLacks(old(Now()), s2, pml4, p, 2); } else { CreatesNext(old(Now()), s2, s3, pml4, p, 2); }
      }
    }

    /** Map the page of v to the page of paddr. */
    method VMemMap(v: Word, paddr: Word, flags: Word) returns (rc: int)
      requires Valid()
      modifies this, pmem, pmem.bitmap, mem
      ensures Usable() && pmem.bitmap == old(pmem.bitmap)
      ensures rc == VMEM_ERROR_ALIGN <==> v % PAGE_SIZE != 0 || paddr % PAGE_SIZE != 0
      ensures rc == VMEM_ERROR_INVALID_ADDR <==>
                v % PAGE_SIZE == 0 && paddr % PAGE_SIZE == 0 && !(IsValidPhysAddr(paddr) && IsValidVirtAddr(v))
      // out of memory exactly when the path still lacks a table, for which there is no frame
      ensures rc in {VMEM_SUCCESS, VMEM_ERROR_NOMEM, VMEM_ERROR_INVALID_ADDR,
                     VMEM_ERROR_ALREADY_MAPPED, VMEM_ERROR_ALIGN}
      ensures rc !in {VMEM_ERROR_ALIGN, VMEM_ERROR_INVALID_ADDR} && !old(Walk(mem[..], pml4, PathTo(v))).HugePage? ==>
                (rc == VMEM_ERROR_NOMEM <==> TableOn(mem[..], pml4, PathTo(v), 3) < 0)
      ensures rc == VMEM_ERROR_NOMEM && !old(Walk(mem[..], pml4, PathTo(v))).HugePage? ==> NoTableFrame()
      // each table created takes one frame; without memory not all were
      ensures Takes(old(Now()).used, Now().used, pmem.totalPages)
      ensures rc == VMEM_SUCCESS && !old(Walk(mem[..], pml4, PathTo(v))).HugePage? ==>
                Creates(old(Now()), Now(), pml4, PathTo(v), 3)
      ensures rc == VMEM_ERROR_NOMEM && !old(Walk(mem[..], pml4, PathTo(v))).HugePage? ==>
                |Now().used| < |old(Now()).used| + old(LackCount(mem[..], pml4, PathTo(v), 3))
      // no failure changes a translation, whatever tables it had linked
      ensures rc != VMEM_SUCCESS ==> Grown(old(Now()), Now(), pml4)
      // outside 2 MB mappings: the flat map is updated at v and nowhere else
      ensures rc == VMEM_ERROR_ALREADY_MAPPED && !old(Walk(mem[..], pml4, PathTo(v))).HugePage? ==>
                old(Walk(mem[..], pml4, PathTo(v))).Page?
      ensures rc == VMEM_SUCCESS && !old(Walk(mem[..], pml4, PathTo(v))).HugePage? ==>
                MapsPage(old(Now()), Now(), pml4, PathTo(v), MappedFrame(paddr, flags))
      // inside one: NOMEM for frame 0, ALREADY_MAPPED if the word in the page's own memory looks like an entry
      ensures rc !in {VMEM_ERROR_ALIGN, VMEM_ERROR_INVALID_ADDR} && old(Walk(mem[..], pml4, PathTo(v))).HugePage? ==>
                && (rc == VMEM_ERROR_NOMEM <==> old(Walk(mem[..], pml4, PathTo(v))).frame == 0)
                && (rc == VMEM_ERROR_ALREADY_MAPPED <==> old(HoldsEntry(PathTo(v))))
      // otherwise success is reported but v keeps its translation: the entry overwrites that word
      ensures rc == VMEM_SUCCESS && old(Walk(mem[..], pml4, PathTo(v))).HugePage? ==>
                && Walk(mem[..], pml4, PathTo(v)) == old(Walk(mem[..], pml4, PathTo(v)))
                && Now() == old(Now()).(m := old(mem[..])[Walk(mem[..], pml4, PathTo(v)).frame * 512 + PathTo(v).i3
                                                          := MapEntry(paddr, flags)])
    {
      hide Tree, Walk, TableOn, MapsPage, PathOf, MapEntry, MappedFrame;
      GrownSelf(Now(), pml4);
      if v % PAGE_SIZE != 0 || paddr % PAGE_SIZE != 0 { return VMEM_ERROR_ALIGN; }
      if !IsValidPhysAddr(paddr) || !IsValidVirtAddr(v) { return VMEM_ERROR_INVALID_ADDR; }
      MapEntryFields(paddr, flags);
      rc := InstallPage(PathTo(v), MapEntry(paddr, flags));
    }

    /** Map the 2 MB block of v to the 2 MB block of paddr. */
    method VMemMapHuge(v: Word, paddr: Word, flags: Word) returns (rc: int)
      requires Valid()
      modifies this, pmem, pmem.bitmap, mem
      ensures Valid() && pmem.bitmap == old(pmem.bitmap)
      ensures rc == VMEM_ERROR_ALIGN <==> v % HUGE_PAGE_SIZE != 0 || paddr % HUGE_PAGE_SIZE != 0
      ensures rc == VMEM_ERROR_INVALID_ADDR <==>
                && v % HUGE_PAGE_SIZE == 0 && paddr % HUGE_PAGE_SIZE == 0
                && !(IsValidPhysAddr(paddr) && IsValidVirtAddr(v))
      ensures rc in {VMEM_SUCCESS, VMEM_ERROR_NOMEM, VMEM_ERROR_INVALID_ADDR,
                     VMEM_ERROR_ALREADY_MAPPED, VMEM_ERROR_ALIGN}
      ensures rc !in {VMEM_ERROR_ALIGN, VMEM_ERROR_INVALID_ADDR} ==>
                (rc == VMEM_ERROR_NOMEM <==> TableOn(mem[..], pml4, PathTo(v), 2) < 0)
      ensures rc == VMEM_ERROR_NOMEM ==> NoTableFrame()
      // already mapped exactly when the directory has an entry, be it a table without a page
      ensures rc !in {VMEM_ERROR_ALIGN, VMEM_ERROR_INVALID_ADDR} ==>
                (rc == VMEM_ERROR_ALREADY_MAPPED <==>
                 old(TableOn(mem[..], pml4, PathTo(v), 3)) >= 0 || old(Walk(mem[..], pml4, PathTo(v))).HugePage?)
      ensures rc != VMEM_SUCCESS ==> Grown(old(Now()), Now(), pml4)
      ensures rc == VMEM_SUCCESS ==> MapsBlock(old(Now()), Now(), pml4, PathTo(v), MappedFrame(paddr, flags))
    {
      hide Tree, Walk, TableOn, PathOf, HugeEntry, MappedFrame, SameTranslation;
      GrownSelf(Now(), pml4);
      if v % HUGE_PAGE_SIZE != 0 || paddr % HUGE_PAGE_SIZE != 0 { return VMEM_ERROR_ALIGN; }
      if !IsValidPhysAddr(paddr) || !IsValidVirtAddr(v) { return VMEM_ERROR_INVALID_ADDR; }
      HugeEntryFields(paddr, flags);
      rc := InstallBlock(PathTo(v), HugeEntry(paddr, flags));
    }

    method InstallBlock(p: Path, e: Word) returns (rc: int)
      requires Valid() && Present(e) && Large(e)
      modifies this, pmem, pmem.bitmap, mem
      ensures Usable() && pmem.bitmap == old(pmem.bitmap)
      ensures rc in {VMEM_SUCCESS, VMEM_ERROR_NOMEM, VMEM_ERROR_ALREADY_MAPPED}
      ensures rc == VMEM_ERROR_NOMEM <==> TableOn(mem[..], pml4, p, 2) < 0
      ensures rc == VMEM_ERROR_NOMEM ==> NoTableFrame()
      ensures rc == VMEM_ERROR_ALREADY_MAPPED <==>
                old(TableOn(mem[..], pml4, p, 3)) >= 0 || old(Walk(mem[..], pml4, p)).HugePage?
      ensures rc != VMEM_SUCCESS ==> Grown(old(Now()), Now(), pml4)
      ensures rc == VMEM_SUCCESS ==> MapsBlock(old(Now()), Now(), pml4, p, Frame(e))
    {
      hide Tree, Sound, TableOn, Walk, FramesForTables, Takes, Creates, LackCount;
      hide FrameAllocator.Valid, FrameAllocator.InUse, FrameAllocator.Counted;
      WalkTables(mem[..], pml4, p);
      var pd := EnsureDirectory(p);
      if pd == 0 { return VMEM_ERROR_NOMEM; }
      SameBelow(old(Now()), Now(), pml4, p, 2);
      var k := pd / PAGE_SIZE * 512 + p.i2;
      WalkTables(mem[..], pml4, p);
      EntryOrNone(mem[..], pml4, p);
      if Present(mem[k]) { return VMEM_ERROR_ALREADY_MAPPED; }
      ghost var s1 := Now();
      WriteBlock(old(Now()), s1, pml4, p, e);
      mem[k] := e;
      assert Now() == s1.(m := s1.m[k := e]);
      WalkTables(mem[..], pml4, p);
      rc := VMEM_SUCCESS;
    }

    /** What was mapped is what is found: every byte of the page leads to the same byte of the frame. */
    method MapThenTranslate(v: Word, paddr: Word, flags: Word, o: nat) returns (rc: int, r: nat)
      requires Valid() && flags / 0x1000 % 0x100_0000_0000 == 0 && o < 0x1000
      modifies this, pmem, pmem.bitmap, mem
      ensures rc == VMEM_SUCCESS && !old(Walk(mem[..], pml4, PathTo(v))).HugePage? ==> r == paddr + o
    {
      hide Tree, Sound, TableOn, Walk, PathOf, MapsPage, MappedFrame, Target, HoldsEntry, MapEntry, LackCount, Creates;
      r := 0;
      FramesBelowTotal();
      LookUpsWalk(Now(), pml4, pmem.totalPages, PathTo(v));
      var before := LookUp(PathTo(v));
      rc := VMemMap(v, paddr, flags);
      if rc != VMEM_SUCCESS || before.HugePage? { return; }
      PageBytes(old(Now()), Now(), pml4, v, paddr, flags, o);
      r := GetPhysAddr(v + o);
    }

    /** The same for the 2 MB of a large page. */
    method MapHugeThenTranslate(v: Word, paddr: Word, flags: Word, o: nat) returns (rc: int, r: nat)
      requires Valid() && flags / 0x1000 % 0x100_0000_0000 == 0 && o < 0x20_0000
      modifies this, pmem, pmem.bitmap, mem
      ensures rc == VMEM_SUCCESS ==> r == paddr + o
    {
      hide Tree, Sound, TableOn, Walk, PathOf, MapsBlock, MappedFrame, Target, NoTableFrame, Grown;
      r := 0;
      rc := VMemMapHuge(v, paddr, flags);
      if rc != VMEM_SUCCESS { return; }
      FramesBelowTotal();
      BlockBytes(old(Now()), Now(), pml4, v, paddr, flags, o);
      r := GetPhysAddr(v + o);
    }

    // ----- unmapping

    /** The path leads to a 2 MB page that does not start in a table. */
    ghost predicate HugeApart(p: Path)
      requires Usable()
      reads this, pmem, pmem.bitmap, mem
    {
      var leaf := Walk(mem[..], pml4, p);
      leaf.HugePage? && leaf.frame !in tables
    }

    /** One turn of the loop at the page with path p. `whole` says that the page
        starts a 2 MB block that the rest of the range covers. The result is the
        number of pages dealt with. */
    method UnmapAt(p: Path, whole: bool) returns (pages: nat)
      requires Usable()
      modifies mem
      ensures Usable() && OnlyCleared(old(mem[..]), mem[..])
      ensures pages == 1 || (pages == 512 && whole)
      ensures old(Valid()) && old(Walk(mem[..], pml4, p)).HugePage? && whole ==>
                pages == 512 && RemovesBlock(old(Now()), Now(), pml4, p)
      ensures old(Valid()) && !old(Walk(mem[..], pml4, p)).HugePage? ==>
                pages == 1 && RemovesPage(old(Now()), Now(), pml4, p)
      // a 2 MB page that is not removed as a whole stays, unless it starts in the frame of a table
      ensures old(Valid()) && !whole && old(HugeApart(p)) ==> KeepsAll(old(Now()), Now(), pml4)
    {
      hide Tree, Sound, TableOn, Walk, NextTable, RemovesPage, RemovesBlock, KeepsAll;
      ghost var s := Now();
      if Valid() {
        FramesBelowTotal();
        LookUpsMeetTables(s, pml4, pmem.totalPages, p);
        WalkTables(s.m, pml4, p);
        if Walk(s.m, pml4, p) == Unmapped { NothingToRemove(s, pml4, p); }
      }
      var pdp := FindTable(pml4 * PAGE_SIZE, p, 0);
      if pdp == 0 { return 1; }
      var pd := FindTable(pdp, p, 1);
      if pd == 0 { return 1; }
      var pde := mem[pd / PAGE_SIZE * 512 + p.i2];
      if Present(pde) && Large(pde) && whole {
        if Valid() { ClearBlock(s, pml4, p); }
        mem[pd / PAGE_SIZE * 512 + p.i2] := 0;
        assert Now() == s.(m := s.m[pd / PAGE_SIZE * 512 + p.i2 := 0]);
        return 512;
      }
      ClearLast(pd, p);
      pages := 1;
    }

    /** Clear the entry for p in the table below pd, be it a table or the memory of a 2 MB page. */
    method ClearLast(pd: nat, p: Path)
      requires Usable() && pd / PAGE_SIZE < FRAMES
      modifies mem
      ensures Usable() && OnlyCleared(old(mem[..]), mem[..])
      ensures old(Valid()) && pd == old(TableOn(mem[..], pml4, p, 2)) * PAGE_SIZE ==>
                && (!old(Walk(mem[..], pml4, p)).HugePage? ==> RemovesPage(old(Now()), Now(), pml4, p))
                && (old(HugeApart(p)) ==> KeepsAll(old(Now()), Now(), pml4))
    {
      hide Tree, Sound, TableOn, Walk, NextTable, RemovesPage, KeepsAll;
      hide FrameAllocator.Valid, FrameAllocator.InUse, FrameAllocator.Counted;
      ghost var s := Now();
      ghost var met := Valid() && pd == TableOn(s.m, pml4, p, 2) * PAGE_SIZE;
      if met {
        FramesBelowTotal();
        NextOnTree(s, pml4, pmem.totalPages, p, 2);
        WalkTables(s.m, pml4, p);
        HugeFrame(s.m, pml4, p);
        EntryOrNone(s.m, pml4, p);
        if Walk(s.m, pml4, p) == Unmapped { NothingToRemove(s, pml4, p); }
        KeepsSelf(s, pml4);
      }
      var pt := FindTable(pd, p, 2);
      if pt == 0 { return; }
      var k := pt / PAGE_SIZE * 512 + p.i3;
      if Present(mem[k]) {
        if met {
          if !Walk(s.m, pml4, p).HugePage? { ClearEntry(s, pml4, p); }
          else if HugeApart(p) { StrayClear(s, pml4, Walk(s.m, pml4, p).frame, p.i3); }
        }
        mem[k] := 0;
        assert Now() == s.(m := s.m[k := 0]);
      }
    }

    /** Remove every mapping of the pages touched by [v, v + size). */
    method VMemUnmap(v: Word, size: nat) returns (rc: int)
      requires Valid() && (size == 0 || RangeOk(v, size))
      modifies mem
      ensures rc == VMEM_SUCCESS && Usable() && OnlyCleared(old(mem[..]), mem[..])
      ensures size == 0 ==> Now() == old(Now())
      // exactly the range goes, if and only if no 2 MB page is cut by it
      ensures size > 0 ==>
                (RemovedFrames(old(mem[..]), mem[..], pml4, PageOf(v), PagesTouched(v, size)) <==>
                 WholeHugePages(old(mem[..]), pml4, PageOf(v), PagesTouched(v, size)))
      // in any case the pages of 2 MB pages that are cut stay and the rest of the range goes,
      // as long as no cut page starts in the frame of a table
      ensures size > 0 && CutsNoTable(old(Now()), pml4, PageOf(v), PagesTouched(v, size)) ==>
                Valid() && RemovedBut(old(mem[..]), mem[..], pml4, PageOf(v),
                                      PagesTouched(v, size), PagesTouched(v, size))
      // the tables stay the tree they were
      ensures size > 0 && WholeHugePages(old(mem[..]), pml4, PageOf(v), PagesTouched(v, size)) ==>
                Valid() && Removed(old(mem[..]), mem[..], pml4, PageOf(v), PagesTouched(v, size))
    {
      hide Tree, Sound, Walk, TableOn, PathOf, Removed, RemovedFrames, WholeHugePages, OnlyCleared, RemovedBut, CutAt;
      hide CutsNoTable, RemovesPage, RemovesBlock, KeepsAll, U64, AlignDown, AlignUp, PagesTouched;
      rc := VMEM_SUCCESS;
      ClearedSelf(mem[..]);
      if size == 0 { return; }
      var start, end := AlignDown(v), AlignUp(U64(v + size));
      var numPages := U64(end - start) / PAGE_SIZE;
      PageCount(v, size);
      ghost var m0, s := mem[..], PageOf(v);
      ghost var whole, safe := WholeHugePages(m0, pml4, s, numPages), CutsNoTable(Now(), pml4, s, numPages);
      WholeIsSafe(Now(), pml4, s, numPages);
      NothingRemovedBut(m0, pml4, s, numPages);
      var i := 0;
      while i < numPages
        invariant i <= numPages && Usable() && OnlyCleared(m0, mem[..])
        invariant safe ==> Valid() && RemovedBut(m0, mem[..], pml4, s, numPages, i)
      {
        var cur := U64(start + i * PAGE_SIZE);
        PageAddress(v, size, i);
        var fits := cur % HUGE_PAGE_SIZE == 0 && U64(end - cur) >= HUGE_PAGE_SIZE;
        ghost var s1 := Now();
        if safe { UnmapMeets(old(Now()), s1, pml4, s, numPages, i); }
        var pages := UnmapAt(PathTo(cur), fits);
        if safe { UnmapStep(m0, s1, Now(), pml4, s, numPages, i, pages); }
        ClearedTwice(m0, s1.m, mem[..]);
        i := i + pages;
      }
      if whole {
        ButIsRemoved(m0, mem[..], pml4, s, numPages);
        RemovedIsRemovedFrames(m0, mem[..], pml4, s, numPages);
      } else {
        PartialIsImpossible(m0, mem[..], pml4, s, numPages);
      }
    }

    /** Unmap a range handed out by the allocator and give its frames back. */
    method VMemFree(v: Word, sizeP: nat)
      requires Valid()
      requires v != 0 && sizeP > 0 ==>
                 && sizeP <= 0x7FFF_FFFF_F000 && AlignDown(v) + AlignUp(sizeP) <= TWO64
                 && Freeable(Now(), pml4, PageOf(v), AlignUp(sizeP) / PAGE_SIZE)
      modifies pmem, pmem.bitmap, mem
      ensures Valid() && pmem.bitmap == old(pmem.bitmap)
      ensures v == 0 || sizeP == 0 ==> Now() == old(Now())
      ensures v != 0 && sizeP > 0 ==>
                PartlyFreed(old(Now()), Now(), pml4, PageOf(v), AlignUp(sizeP) / PAGE_SIZE)
    {
      hide Tree, Walk, PathOf, PartlyFreed, Freeable;
      if v == 0 || sizeP == 0 { return; }
      var start, n := AlignDown(v), AlignUp(sizeP) / PAGE_SIZE;
      ghost var s0, s := Now(), PageOf(v);
      NothingFreed(s0, pml4, s);
      var i := 0;
      while i < n
        invariant i <= n && Usable() && pmem.bitmap == old(pmem.bitmap) && tables == s0.tables
        invariant PartlyFreed(s0, Now(), pml4, s, i)
      {
        FreeAt(start + i * PAGE_SIZE, s0, s, i, n);
        i := i + 1;
      }
      FreedIsSound(s0, Now(), pml4, s, n);
    }

    method FreeAt(cur: Word, ghost s0: State, ghost s: nat, ghost i: nat, ghost n: nat)
      requires Usable() && PartlyFreed(s0, Now(), pml4, s, i) && Freeable(s0, pml4, s, n)
      requires i < n <= MAX_RANGE && cur == (s + i) * PAGE_SIZE
      modifies pmem, pmem.bitmap, mem
      ensures Usable() && pmem.bitmap == old(pmem.bitmap)
      ensures PartlyFreed(s0, Now(), pml4, s, i + 1)
    {
      hide Tree, Walk, PathOf, RemovedFrames;
      hide FrameAllocator.Valid, FrameAllocator.InUse, FrameAllocator.Counted;
      ghost var st := Now();
      StillThere(s0, st, pml4, s, i);
      assert InRange(s + i, s, n);
      var paddr := GetPhysAddr(cur);
      if paddr != 0 {
        OnePage(cur);
        var rc := VMemUnmap(cur, PAGE_SIZE);
        ghost var m1 := mem[..];
        pmem.FreePage(paddr);
        FreeOne(s0, st, Now(), pml4, s, i, paddr / PAGE_SIZE);
      } else {
        SkipUnmapped(s0, st, pml4, s, i);
      }
    }

    /** The frames an allocation spends. */
    ghost function Need(region: Word, sizeP: nat): nat
      requires mem.Length == PHYS_WORDS && pml4 < FRAMES && sizeP < TWO64
      reads mem
    {
      var n := AlignUp(sizeP) / PAGE_SIZE;
      n + |Missing(mem[..], pml4, PageOf(region), n)|
    }

    /** Back the region the address-space allocator chose (0 if it had none) with
        fresh frames: all of it, or nothing. */
    method VMemAlloc(sizeP: nat, region: Word) returns (ptr: nat, ghost frames: seq<nat>)
      requires Valid()
      requires sizeP <= 0x7FFF_FFFF_F000
      requires region % PAGE_SIZE == 0 && region + AlignUp(sizeP) <= TWO64
      requires forall x: nat :: InRange(x, PageOf(region), AlignUp(sizeP) / PAGE_SIZE) ==>
                 Walk(mem[..], pml4, PathOf(x)) == Unmapped
      modifies this, pmem, pmem.bitmap, mem
      ensures Valid() && pmem.bitmap == old(pmem.bitmap)
      ensures ptr == 0 || ptr == region
      // a page takes one frame and so does every table missing on the range: with as many frames it cannot fail
      ensures ptr == 0 && sizeP > 0 && region != 0 && ValidPages(region, AlignUp(sizeP) / PAGE_SIZE) ==>
                old(Exhausted(Need(region, sizeP)))
      // and with fewer it cannot succeed
      ensures ptr != 0 ==>
                && old(Enough(pmem.InUse(), pmem.totalPages, Need(region, sizeP)))
                && |pmem.InUse()| == |old(pmem.InUse())| + old(Need(region, sizeP))
      // nothing: every translation is as before, and only new tables hold frames
      ensures ptr == 0 ==> Grown(old(Now()), Now(), pml4)
      // all: every page has its own frame, free before
      ensures ptr != 0 ==>
                && |frames| == AlignUp(sizeP) / PAGE_SIZE
                && PartlyBacked(old(Now()), Now(), pml4, PageOf(region), frames)
    {
      hide Tree, Walk, PathOf, PartlyBacked, Grown, Available, IsValidVirtAddr, ValidPages, Missing, Enough;
      hide Spent;
      ghost var s0 := Now();
      GrownSelf(s0, pml4);
      frames := [];
      if sizeP == 0 || region == 0 { return 0, []; }
      var n := AlignUp(sizeP) / PAGE_SIZE;
      var ok;
      ok, frames := BackPages(region, n);
      if !ok {
        UndoBacking(region, sizeP, s0, frames);
        return 0, [];
      }
      BackedIsSound(s0, Now(), pml4, PageOf(region), frames);
      SpentAll(s0, Now(), pml4, PageOf(region), frames, pmem.totalPages);
      ptr := region;
    }

    /** The loop: a frame for each page in turn, until one cannot be had. */
    method BackPages(region: Word, n: nat) returns (ok: bool, ghost frames: seq<nat>)
      requires Valid() && n <= MAX_RANGE && region % PAGE_SIZE == 0 && region + n * PAGE_SIZE <= TWO64
      requires forall x: nat :: InRange(x, PageOf(region), n) ==> Walk(mem[..], pml4, PathOf(x)) == Unmapped
      modifies this, pmem, pmem.bitmap, mem
      ensures Usable() && pmem.bitmap == old(pmem.bitmap) && |frames| <= n && (ok ==> |frames| == n)
      ensures PartlyBacked(old(Now()), Now(), pml4, PageOf(region), frames)
      ensures ok ==> Spent(old(Now()), Now(), pml4, PageOf(region), n, n, pmem.totalPages)
      ensures !ok && ValidPages(region, n) ==> old(Exhausted(n + |Missing(mem[..], pml4, PageOf(region), n)|))
    {
      hide Tree, Sound, Walk, PathOf, PageOf, PartlyBacked, Available, IsValidVirtAddr, ValidPages, Spent, Missing;
      ghost var s0, s := Now(), PageOf(region);
      frames := [];
      NothingBacked(s0, pml4, s);
      NothingSpent(s0, pml4, s, n, pmem.totalPages);
      var i := 0;
      while i < n
        invariant i <= n && Usable() && pmem.bitmap == old(pmem.bitmap) && |frames| == i
        invariant PartlyBacked(s0, Now(), pml4, s, frames) && Spent(s0, Now(), pml4, s, n, i, pmem.totalPages)
      {
        assert InRange(s + i, s, n);
        PageIsValid(region, n, i);
        ok, frames := BackPage(region + i * PAGE_SIZE, s0, s, n, frames);
        if !ok { return; }
        i := i + 1;
      }
      ok := true;
    }

    /** One turn of the loop: a fresh frame for the next page. */
    method BackPage(cur: Word, ghost s0: State, ghost s: nat, ghost n: nat, ghost frames: seq<nat>)
      returns (ok: bool, ghost frames': seq<nat>)
      requires Usable() && PartlyBacked(s0, Now(), pml4, s, frames) && |frames| < n <= MAX_RANGE
      requires cur == (s + |frames|) * PAGE_SIZE && Walk(s0.m, pml4, PathOf(s + |frames|)) == Unmapped
      requires Spent(s0, Now(), pml4, s, n, |frames|, pmem.totalPages)
      modifies this, pmem, pmem.bitmap, mem
      ensures Usable() && pmem.bitmap == old(pmem.bitmap)
      ensures PartlyBacked(s0, Now(), pml4, s, frames')
      ensures if ok then |frames'| == |frames| + 1 else frames' == frames
      ensures ok ==> Spent(s0, Now(), pml4, s, n, |frames'|, pmem.totalPages)
      ensures !ok ==> !IsValidVirtAddr(cur)
                      || !Available(s0.used, pmem.totalPages, identityMapSize, n + |Missing(s0.m, pml4, s, n)|)
    {
      hide Tree, Sound, Walk, PathOf, Grown, MapsPage, Frame, MappedFrame, Available, PartlyBacked, IsValidVirtAddr;
      hide Spent, Spends, Takes, LackCount, Missing;
      hide FrameAllocator.Valid, FrameAllocator.InUse, FrameAllocator.Counted;
      ghost var st := Now();
      BackedIsSound(s0, st, pml4, s, frames);
      NextIsUnmapped(s0, st, pml4, s, frames);
      var f;
      ghost var taken, st2;
      ok, f, taken, st2 := MapFresh(cur);
      if ok {
        SpentMore(s0, st, st2, pml4, s, n, |frames|, pmem.totalPages);
        BackOneMore(s0, st, st2, pml4, s, frames, f);
        return true, frames + [f];
      }
      if IsValidVirtAddr(cur) { SpentShort(s0, st, pml4, s, n, |frames|, pmem.totalPages, identityMapSize); }
      BackNoMore(s0, st, st2, pml4, s, frames, taken);
      return false, frames;
    }

    /** Take a frame and map the page to it; on failure give the frame back. */
    method MapFresh(cur: Word) returns (ok: bool, f: nat, ghost taken: set<nat>, ghost st2: State)
      requires Valid() && cur % PAGE_SIZE == 0 && Walk(mem[..], pml4, PathTo(cur)) == Unmapped
      modifies this, pmem, pmem.bitmap, mem
      ensures Usable() && pmem.bitmap == old(pmem.bitmap) && taken !! old(Now()).used
      ensures ok ==> taken == {f} && f > 0 && Now() == st2
      ensures ok ==> MapsPage(old(Now()).(used := old(Now()).used + taken), st2, pml4, PathTo(cur), f)
      ensures !ok ==> Grown(old(Now()).(used := old(Now()).used + taken), st2, pml4)
      ensures !ok ==> Now() == st2.(used := st2.used - taken)
      ensures Takes(old(Now()).used, Now().used, pmem.totalPages)
      ensures ok ==> Spends(old(Now()), st2, pml4, PathTo(cur))
      ensures !ok ==> !IsValidVirtAddr(cur) || old(Exhausted(1 + LackCount(mem[..], pml4, PathTo(cur), 3)))
    {
      hide Tree, Sound, Walk, PathOf, MapsPage, Available, Grown, LackCount, Spends, Creates, Takes, IsValidVirtAddr;
      hide FrameAllocator.Valid, FrameAllocator.InUse, FrameAllocator.Counted;
      ghost var st := Now();
      var paddr;
      paddr, taken := TakeFrame();
      ghost var st1 := Now();
      ok := MapTaken(cur, paddr);
      st2 := Now();
      f := paddr / PAGE_SIZE;
      TakesTwice(st.used, st1.used, st2.used, pmem.totalPages);
      if ok {
        FrameAndTables(st, f, st2, pml4, PathTo(cur));
        return true, f, taken, st2;
      }
      GrownUses(st1, st2, pml4);
      if IsValidVirtAddr(cur) {
        FreshShort(st.used, taken, st2.used, pmem.totalPages, identityMapSize, LackCount(st.m, pml4, PathTo(cur), 3));
      }
      TakesLess(st.used, st2.used, taken, pmem.totalPages);
      ReturnFrame(paddr, taken);
    }

    /** Map an unmapped page to a frame at hand, or to none. */
    method MapTaken(cur: Word, paddr: Word) returns (ok: bool)
      requires Valid() && cur % PAGE_SIZE == 0 && Walk(mem[..], pml4, PathTo(cur)) == Unmapped
      requires paddr % PAGE_SIZE == 0 && paddr / PAGE_SIZE < FRAMES
      modifies this, pmem, pmem.bitmap, mem
      ensures Usable() && pmem.bitmap == old(pmem.bitmap)
      ensures Takes(old(Now()).used, Now().used, pmem.totalPages)
      ensures ok ==> IsValidPhysAddr(paddr) && Creates(old(Now()), Now(), pml4, PathTo(cur), 3)
      ensures ok ==> MapsPage(old(Now()), Now(), pml4, PathTo(cur), paddr / PAGE_SIZE)
      ensures !ok ==> Grown(old(Now()), Now(), pml4)
      ensures !ok && IsValidPhysAddr(paddr) && IsValidVirtAddr(cur) ==>
                Exhausted(1) && |Now().used| < |old(Now()).used| + old(LackCount(mem[..], pml4, PathTo(cur), 3))
    {
      hide Tree, Sound, Walk, TableOn, PathOf, MapsPage, Frame, MappedFrame, Available, SameTranslation, HoldsEntry;
      hide FramesForTables, NoTableFrame, LackCount, Creates, Takes, MapEntry, IsValidVirtAddr;
      hide FrameAllocator.Valid, FrameAllocator.InUse, FrameAllocator.Counted;
      PlainFrame(paddr);
      var rc := VMemMap(cur, paddr, PAGE_WRITABLE);
      if rc == VMEM_ERROR_NOMEM { FailureMeansExhausted(); }
      ok := rc == VMEM_SUCCESS;
    }

    method ReturnFrame(paddr: Word, ghost taken: set<nat>)
      requires Usable() && paddr % PAGE_SIZE == 0 && taken == if paddr == 0 then {} else {paddr / PAGE_SIZE}
      modifies pmem, pmem.bitmap
      ensures Usable() && pmem.bitmap == old(pmem.bitmap)
      ensures Now() == old(Now()).(used := old(Now()).used - taken)
    {
      pmem.FreePage(paddr);
    }

    /** A frame for a page, as a change of state; 0 takes none. */
    method TakeFrame() returns (paddr: Word, ghost taken: set<nat>)
      requires Valid()
      modifies pmem, pmem.bitmap
      ensures Valid() && pmem.bitmap == old(pmem.bitmap) && taken !! old(Now()).used
      ensures Now() == old(Now()).(used := old(Now()).used + taken)
      ensures Takes(old(Now()).used, Now().used, pmem.totalPages)
      ensures taken == (if paddr == 0 then {} else {paddr / PAGE_SIZE}) && |taken| <= 1
      ensures paddr % PAGE_SIZE == 0 && paddr / PAGE_SIZE < FRAMES && (paddr != 0 ==> IsValidPhysAddr(paddr))
      ensures paddr == 0 ==> old(Exhausted(1))
    {
      hide Tree, Available, NoTableFrame, Takes, FirstFree, Found;
      FailureMeansExhausted();
      ghost var used := pmem.InUse();
      paddr := pmem.AllocPage();
      taken := if paddr == 0 then {} else {paddr / PAGE_SIZE};
      assert pmem.InUse() == used + taken;
      pmem.CounterIsExact();
      TakesOne(used, taken, pmem.totalPages);
      GrowUsed(old(Now()), taken, pml4);
    }

    method UndoBacking(region: Word, sizeP: nat, ghost s0: State, ghost frames: seq<nat>)
      requires Usable() && PartlyBacked(s0, Now(), pml4, PageOf(region), frames)
      requires region % PAGE_SIZE == 0 && 0 < sizeP <= 0x7FFF_FFFF_F000 && region + AlignUp(sizeP) <= TWO64
      requires region != 0 && |frames| <= AlignUp(sizeP) / PAGE_SIZE
      requires forall x: nat :: InRange(x, PageOf(region), AlignUp(sizeP) / PAGE_SIZE) ==>
                 Walk(s0.m, pml4, PathOf(x)) == Unmapped
      modifies pmem, pmem.bitmap, mem
      ensures Valid() && pmem.bitmap == old(pmem.bitmap) && Grown(s0, Now(), pml4)
    {
      hide Tree, Walk, PathOf, PartlyBacked, Grown, PartlyFreed, Freeable;
      ghost var st, n := Now(), AlignUp(sizeP) / PAGE_SIZE;
      BackedIsSound(s0, st, pml4, PageOf(region), frames);
      BackedIsFreeable(s0, st, pml4, PageOf(region), frames, n);
      VMemFree(region, sizeP);
      BackedThenFreed(s0, st, Now(), pml4, PageOf(region), frames, n);
    }
  }
}
