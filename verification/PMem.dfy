/** The physical frame allocator of mm/PMem.c. */
module PMem {
  import opened Words
  import opened FrameBitmap

  const PAGE_SIZE: nat := 4096
  const HUGE_PAGE_SIZE: nat := 0x20_0000
  const PAGES_PER_HUGE: nat := 512
  /** Pages below 1 MB, never handed out. */
  const LOWMEM_PAGES: nat := 256
  /** The bitmap is placed at 16 MB, so memory must reach beyond it. */
  const BITMAP_PAGE: nat := 0x1000
  const MAX_PAGES: nat := 0x200_0000

  /** 64-bit arithmetic. */
  function U64(x: int): Word { x % TWO64 }

  /** The last page of a range as the code computes it. */
  function EndOf(start: Word, count: Word): Word { U64(start + count - 1) }

  /** The pages masked by the path over several words. */
  predicate AcrossWords(p: nat, start: nat, end: nat)
  {
    || (p / 64 == start / 64 && start <= p)
    || start / 64 < p / 64 < end / 64
    || (p / 64 == end / 64 && p <= end)
  }

  /** The pages a range operation on (start, count) touches, the last page being
      computed in 64 bits. An empty range that starts on a word boundary has its
      last page in the word before its first, and the two-word path then treats
      both whole words as the range. */
  predicate InSpan(p: nat, start: Word, count: Word)
  {
    var end := EndOf(start, count);
    if start / 64 == end / 64 then start <= p <= end else AcrossWords(p, start, end)
  }

  /** The span is the range exactly when the range is not empty and ends by 2^64,
      or is empty and starts inside a word. */
  lemma SpanIsRange(start: Word, count: Word)
    ensures (forall p: nat :: InSpan(p, start, count) <==> start <= p < start + count)
            <==> if count == 0 then start % 64 != 0 else start + count <= TWO64
  {
    if count == 0 {
      if start % 64 == 0 { assert InSpan(start, start, count); }
    } else if start + count <= TWO64 {
      assert EndOf(start, count) == start + count - 1;
    } else {
      BeyondSpan(start, count);
      assert start <= TWO64 < start + count;
    }
  }

  lemma BeyondSpan(start: Word, count: Word)
    ensures !InSpan(TWO64, start, count)
  {
    assert start / 64 < TWO64 / 64 && EndOf(start, count) / 64 < TWO64 / 64;
  }

  /** An empty range on a word boundary touches the two words around it. */
  lemma EmptySpan(start: Word)
    requires start % 64 == 0 && start > 0
    ensures forall p: nat :: InSpan(p, start, 0) <==> start - 64 <= p < start + 64
  {
    assert EndOf(start, 0) == start - 1;
  }

  /** A number of 2 MB pages as frames, in 64 bits. */
  function HugeCount(numPages: Word): Word { U64(numPages * PAGES_PER_HUGE) }

  /** A request for numPages 2 MB pages touches the frames asked for exactly when they end by 2^64. */
  lemma AskedIsTouched(start: Word, numPages: Word)
    requires start % PAGES_PER_HUGE == 0 && numPages >= 1
    ensures (forall p: nat :: InSpan(p, start, HugeCount(numPages)) <==> start <= p < start + numPages * PAGES_PER_HUGE)
            <==> start + numPages * PAGES_PER_HUGE <= TWO64
  {
    var asked := numPages * PAGES_PER_HUGE;
    if asked < TWO64 {
      assert HugeCount(numPages) == asked;
      SpanIsRange(start, asked);
    } else if start + asked > TWO64 {
      BeyondSpan(start, HugeCount(numPages));
      assert start <= TWO64 < start + asked;
    } else {
      assert start == 0 && asked == TWO64;
      assert HugeCount(numPages) == 0;
      assert EndOf(start, 0) == TWO64 - 1;
    }
  }

  /** Freeing 2^55 pages at 2 MB passes every check as a request for none, and frees 128 frames. */
  lemma WrappedRequest()
    ensures HugeCount(0x80_0000_0000_0000) == 0
    ensures forall p: nat :: InSpan(p, 512, HugeCount(0x80_0000_0000_0000)) <==> 448 <= p < 576
  {
    EmptySpan(512);
  }

  ghost function Span(start: Word, count: Word): set<nat>
  {
    set p: nat | p < TWO64 && InSpan(p, start, count)
  }

  lemma InSpanBelow(start: Word, count: Word)
    ensures forall p: nat :: InSpan(p, start, count) ==> p < TWO64
  {
    assert start / 64 < TWO64 / 64 && EndOf(start, count) / 64 < TWO64 / 64;
  }

  predicate Between(p: nat, lo: nat, hi: nat) { lo <= p < hi }

  ghost function Range(lo: nat, hi: nat): set<nat>
  {
    set p: nat | p < hi && Between(p, lo, hi)
  }

  ghost predicate SpanFree(bm: seq<Word>, start: Word, count: Word)
  {
    forall p: nat :: InSpan(p, start, count) ==> !Used(bm, p)
  }

  /** The k-th 2 MB boundary, above the first megabyte, has n free pages from it. */
  ghost predicate Room(bm: seq<Word>, total: nat, k: nat, n: Word)
  {
    1 <= k && k * PAGES_PER_HUGE + n <= total <= MAX_PAGES && SpanFree(bm, k * PAGES_PER_HUGE, n)
  }

  /** A request for no pages that finds room, on an empty bitmap, and the 128 frames it touches. */
  lemma EmptyRequestMarks()
    ensures Room(seq(128, _ => 0), 0x2000, 1, 0)
    ensures Span(512, 0) == Range(448, 576)
  {
    AllFree(seq(128, _ => 0));
    EmptySpan(512);
  }

  // ----- the frame the search finds

  /** The lowest free frame in [from, total), or -1. */
  ghost function FirstFree(bm: seq<Word>, from: nat, total: nat): (p: int)
    ensures p == -1 || from <= p < total
    decreases total - from
  {
    if from >= total then -1 else if !Used(bm, from) then from else FirstFree(bm, from + 1, total)
  }

  lemma {:induction false} FirstFreeMeans(bm: seq<Word>, from: nat, total: nat)
    ensures var p := FirstFree(bm, from, total);
            if p == -1 then forall q: nat :: Between(q, from, total) ==> Used(bm, q)
            else !Used(bm, p) && forall q: nat :: Between(q, from, p) ==> Used(bm, q)
    decreases total - from
  {
    if from < total && Used(bm, from) {
      FirstFreeMeans(bm, from + 1, total);
      var p := FirstFree(bm, from, total);
      forall q: nat | Between(q, from, if p == -1 then total else p) ensures Used(bm, q) {
        if q > from { assert Between(q, from + 1, if p == -1 then total else p); }
      }
    }
  }

  lemma {:induction false} FirstFreeNone(bm: seq<Word>, from: nat, total: nat)
    requires forall q: nat :: Between(q, from, total) ==> Used(bm, q)
    ensures FirstFree(bm, from, total) == -1
    decreases total - from
  {
    if from < total {
      assert Between(from, from, total);
      FirstFreeNone(bm, from + 1, total);
    }
  }

  lemma {:induction false} FirstFreeIs(bm: seq<Word>, from: nat, total: nat, page: nat)
    requires from <= page < total && !Used(bm, page) && forall q: nat :: Between(q, from, page) ==> Used(bm, q)
    ensures FirstFree(bm, from, total) == page
    decreases page - from
  {
    if from < page {
      assert Between(from, from, page);
      FirstFreeIs(bm, from + 1, total, page);
    }
  }

  /** The frame the search starts at: the first of the hint's word, the hint brought into range. */
  function StartOf(hint: nat, total: nat): nat
  {
    (if hint < LOWMEM_PAGES || hint >= total then LOWMEM_PAGES else hint) / 64 * 64
  }

  /** The frame the search finds: the lowest free one from there on, else the lowest from 1 MB on. */
  ghost function Found(bm: seq<Word>, hint: nat, total: nat): int
  {
    var p := FirstFree(bm, StartOf(hint, total), total);
    if p >= 0 then p else FirstFree(bm, LOWMEM_PAGES, total)
  }

  /** The hint after a frame was handed out. */
  function HintAfter(page: nat, total: nat): nat
  {
    if page + 1 >= total then LOWMEM_PAGES else page + 1
  }

  class FrameAllocator {
    var bitmap: array<Word>
    const totalPages: nat
    var usedPages: nat
    var nextFreeHint: nat

    /** The bitmap fits the memory and the counter is the number of its set bits. */
    ghost predicate Counted()
      reads this`bitmap, this`usedPages, bitmap
    {
      && BITMAP_PAGE < totalPages <= MAX_PAGES
      && bitmap.Length == (totalPages + 63) / 64
      && usedPages == Total(bitmap[..])
    }

    ghost predicate Valid()
      reads this`bitmap, this`usedPages, bitmap
    {
      Counted() && forall p: nat :: Used(bitmap[..], p) ==> p < totalPages
    }

    /** The frames currently marked used. */
    ghost function InUse(): set<nat>
      reads this`bitmap, bitmap
    {
      UsedPages(bitmap[..])
    }

    /** In every state the counter is the number of used frames, all of them below totalPages. */
    lemma CounterIsExact()
      requires Valid()
      ensures usedPages == |InUse()|
      ensures forall p :: p in InUse() <==> 0 <= p < totalPages && Used(bitmap[..], p)
    {
      TotalIsCardinality(bitmap[..]);
      assert forall p: nat :: Used(bitmap[..], p) ==> p < 64 * bitmap.Length;
    }

    /** The initial state: a zeroed bitmap with the low megabyte and the boot-time
        reservations marked used. */
    constructor (total: nat, reserved: seq<nat>)
      requires BITMAP_PAGE < total <= MAX_PAGES
      ensures Valid() && fresh(bitmap) && totalPages == total
      ensures forall p :: p in InUse() <==> 0 <= p < total && (p < LOWMEM_PAGES || p in reserved)
    {
      totalPages := total;
      bitmap := new Word[(total + 63) / 64](_ => 0);
      usedPages := 0;
      nextFreeHint := LOWMEM_PAGES;
      new;
      AllFree(bitmap[..]);
      ReserveBelow(LOWMEM_PAGES);
      Reserve(reserved);
    }

    method ReserveBelow(n: nat)
      requires Valid() && n <= totalPages
      modifies this`usedPages, bitmap
      ensures Valid() && bitmap == old(bitmap)
      ensures InUse() == old(InUse()) + Range(0, n)
    {
      var i := 0;
      while i < n
        invariant i <= n && Valid() && bitmap == old(bitmap)
        invariant InUse() == old(InUse()) + Range(0, i)
      {
        MarkPageUsed(i);
        i := i + 1;
      }
    }

    method Reserve(pages: seq<nat>)
      requires Valid()
      modifies this`usedPages, bitmap
      ensures Valid() && bitmap == old(bitmap)
      ensures InUse() == old(InUse()) + set p | p in pages && p < totalPages
    {
      var i := 0;
      while i < |pages|
        invariant i <= |pages| && Valid() && bitmap == old(bitmap)
        invariant InUse() == old(InUse()) + set p | p in pages[..i] && p < totalPages
      {
        MarkPageUsed(pages[i]);
        assert pages[..i + 1] == pages[..i] + [pages[i]];
        i := i + 1;
      }
      assert pages[..i] == pages;
    }

    // ----- single pages

    method MarkPageUsed(page: nat)
      requires Valid()
      modifies this`usedPages, bitmap
      ensures Valid() && bitmap == old(bitmap)
      ensures InUse() == old(InUse()) + if page < totalPages then {page} else {}
      ensures usedPages == old(usedPages) + if page < totalPages && page !in old(InUse()) then 1 else 0
    {
      if page >= totalPages { return; }
      var word, mask := page / 64, OneMask(page % 64);
      ghost var bm := bitmap[..];
      PageBit(bm, page);
      if And64(bitmap[word], mask) == 0 {
        var w := Or64(bitmap[word], mask);
        SetPage(bm, page, w);
        bitmap[word] := w;
        usedPages := usedPages + 1;
        assert bitmap[..] == bm[word := w];
        Membership(bm);
        Membership(bitmap[..]);
      }
    }

    method MarkPageFree(page: nat)
      requires Valid()
      modifies this`usedPages, bitmap
      ensures Valid() && bitmap == old(bitmap)
      ensures InUse() == old(InUse()) - {page}
      ensures usedPages == old(usedPages) - if page in old(InUse()) then 1 else 0
    {
      if page >= totalPages { return; }
      var word, mask := page / 64, OneMask(page % 64);
      ghost var bm := bitmap[..];
      PageBit(bm, page);
      if And64(bitmap[word], mask) != 0 {
        var w := And64(bitmap[word], Not(mask));
        ClearPage(bm, page, w);
        bitmap[word] := w;
        usedPages := usedPages - 1;
        assert bitmap[..] == bm[word := w];
        Membership(bm);
        Membership(bitmap[..]);
      }
    }

    method IsPageFree(page: nat) returns (free: bool)
      requires Valid()
      ensures free <==> page < totalPages && page !in InUse()
    {
      if page >= totalPages { return false; }
      PageBit(bitmap[..], page);
      free := And64(bitmap[page / 64], OneMask(page % 64)) == 0;
    }

    /** The result is an address, 0 standing for NULL. */
    method AllocPage() returns (addr: nat)
      requires Valid()
      modifies this`usedPages, this`nextFreeHint, bitmap
      ensures Valid() && bitmap == old(bitmap)
      // the search is complete: it fails only when the guard fires or memory from 1 MB up is full
      ensures addr == 0 <==> old(usedPages) >= totalPages - 1 || old(Full())
      ensures addr == 0 ==> bitmap[..] == old(bitmap[..]) && usedPages == old(usedPages)
      // the search is sound
      ensures addr != 0 ==>
                && addr % PAGE_SIZE == 0 && LOWMEM_PAGES <= addr / PAGE_SIZE < totalPages
                && addr / PAGE_SIZE !in old(InUse())
                && InUse() == old(InUse()) + {addr / PAGE_SIZE}
                && usedPages == old(usedPages) + 1
      // and finds the lowest free frame from the hint's word on, else from 1 MB on
      ensures addr != 0 ==>
                && addr / PAGE_SIZE == Found(old(bitmap[..]), old(nextFreeHint), totalPages)
                && nextFreeHint == HintAfter(addr / PAGE_SIZE, totalPages)
      ensures addr == 0 ==> StartOf(nextFreeHint, totalPages) == StartOf(old(nextFreeHint), totalPages)
    {
      hide FirstFree;
      if usedPages >= totalPages - 1 { return 0; }
      var startWord := StartWord();
      var page := Search(startWord);
      if page < 0 { return 0; }
      addr := Claim(page);
    }

    /** Bring the hint into range and give its word. */
    method StartWord() returns (word: nat)
      requires Valid()
      modifies this`nextFreeHint
      ensures LOWMEM_PAGES / 64 <= word && word * 64 <= totalPages
      ensures word * 64 == StartOf(old(nextFreeHint), totalPages)
      ensures nextFreeHint == if old(nextFreeHint) < LOWMEM_PAGES || old(nextFreeHint) >= totalPages then LOWMEM_PAGES
                              else old(nextFreeHint)
    {
      if nextFreeHint < LOWMEM_PAGES { nextFreeHint := LOWMEM_PAGES; }
      if nextFreeHint >= totalPages { nextFreeHint := LOWMEM_PAGES; }
      word := nextFreeHint / 64;
    }

    method Search(startWord: nat) returns (page: int)
      requires Valid() && LOWMEM_PAGES / 64 <= startWord && startWord * 64 <= totalPages
      ensures page < 0 <==> Full()
      ensures page >= 0 ==> LOWMEM_PAGES <= page < totalPages && page !in InUse()
      ensures page >= 0 ==>
                var p := FirstFree(bitmap[..], startWord * 64, totalPages);
                page == if p >= 0 then p else FirstFree(bitmap[..], LOWMEM_PAGES, totalPages)
    {
      hide FirstFree;
      page := SearchUp(startWord);
      if page >= 0 {
        LowestFree(startWord * 64, page);
        return;
      }
      NoneFree(startWord * 64);
      page := SearchLow(startWord);
      if page >= 0 {
        LowestFree(LOWMEM_PAGES, page);
        return;
      }
      forall p: nat | LOWMEM_PAGES <= p < totalPages ensures p in InUse() {
        assert LOWMEM_PAGES / 64 <= p / 64;
      }
    }

    lemma LowestFree(from: nat, page: nat)
      requires from <= page < totalPages && page !in InUse()
      requires forall p: nat :: from <= p < page ==> p in InUse()
      ensures FirstFree(bitmap[..], from, totalPages) == page
    {
      Membership(bitmap[..]);
      FirstFreeIs(bitmap[..], from, totalPages, page);
    }

    lemma NoneFree(from: nat)
      requires forall p: nat :: from <= p < totalPages ==> p in InUse()
      ensures FirstFree(bitmap[..], from, totalPages) == -1
    {
      forall q: nat | Between(q, from, totalPages) ensures Used(bitmap[..], q) {
        assert q in InUse();
      }
      FirstFreeNone(bitmap[..], from, totalPages);
    }

    /** No free frame at or above 1 MB. */
    ghost predicate Full()
      reads this`bitmap, bitmap
    {
      forall p: nat :: LOWMEM_PAGES <= p < totalPages ==> p in InUse()
    }

    /** The first loop: from the hint's word to the end of the bitmap. Its
        low-memory branch is dead, since 1 MB is a whole number of words. */
    method SearchUp(startWord: nat) returns (page: int)
      requires Valid() && LOWMEM_PAGES / 64 <= startWord <= bitmap.Length
      ensures page < 0 <==> forall p: nat :: startWord <= p / 64 && p < totalPages ==> p in InUse()
      ensures page >= 0 ==> LOWMEM_PAGES <= page < totalPages && page !in InUse()
      ensures page >= 0 ==> startWord <= page / 64 && forall p: nat :: startWord <= p / 64 && p < page ==> p in InUse()
    {
      var word := startWord;
      while word < bitmap.Length
        invariant startWord <= word <= bitmap.Length
        invariant forall p: nat :: startWord <= p / 64 < word && p < totalPages ==> p in InUse()
      {
        var bit := FindFirstFreeBit(bitmap[word]);
        if bit >= 0 {
          page := word * 64 + bit;
          assert page / 64 == word && page % 64 == bit;
          if page >= totalPages {
            FullBefore(word, bit);
            return -1;
          }
          assert page !in InUse();
          FullBefore(word, bit);
          return;
        }
        FullBefore(word, 64);
        word := word + 1;
      }
      page := -1;
    }

    /** The second loop: from 1 MB to the hint's word. */
    method SearchLow(startWord: nat) returns (page: int)
      requires Valid() && LOWMEM_PAGES / 64 <= startWord && startWord * 64 <= totalPages
      ensures page < 0 <==> forall p: nat :: LOWMEM_PAGES / 64 <= p / 64 < startWord ==> p in InUse()
      ensures page >= 0 ==> LOWMEM_PAGES <= page < totalPages && page !in InUse()
      ensures page >= 0 ==> forall p: nat :: LOWMEM_PAGES <= p < page ==> p in InUse()
    {
      var word := LOWMEM_PAGES / 64;
      while word < startWord
        invariant LOWMEM_PAGES / 64 <= word <= startWord
        invariant forall p: nat :: LOWMEM_PAGES / 64 <= p / 64 < word ==> p in InUse()
      {
        var bit := FindFirstFreeBit(bitmap[word]);
        if bit >= 0 {
          page := word * 64 + bit;
          assert page / 64 == word && page % 64 == bit;
          assert page !in InUse();
          FullBefore(word, bit);
          return;
        }
        FullBefore(word, 64);
        word := word + 1;
      }
      page := -1;
    }

    /** Take a free page found by the search and move the hint past it. */
    method Claim(page: nat) returns (addr: nat)
      requires Valid() && LOWMEM_PAGES <= page < totalPages && page !in InUse()
      modifies this`usedPages, this`nextFreeHint, bitmap
      ensures Valid() && bitmap == old(bitmap)
      ensures addr == page * PAGE_SIZE && InUse() == old(InUse()) + {page}
      ensures usedPages == old(usedPages) + 1 && nextFreeHint == HintAfter(page, totalPages)
    {
      MarkPageUsed(page);
      nextFreeHint := page + 1;
      if nextFreeHint >= totalPages { nextFreeHint := LOWMEM_PAGES; }
      addr := page * PAGE_SIZE;
    }

    lemma FullBefore(word: nat, bit: nat)
      requires Valid() && word < bitmap.Length && bit <= 64
      requires forall j: nat :: j < bit ==> Bit(bitmap[word], j)
      ensures forall p: nat :: p / 64 == word && p < word * 64 + bit ==> p in InUse()
    {
      forall p: nat | p / 64 == word && p < word * 64 + bit ensures p in InUse() {
        assert p % 64 < bit;
        assert Used(bitmap[..], p);
      }
    }

    method FreePage(addr: nat)
      requires Valid()
      modifies this`usedPages, this`nextFreeHint, bitmap
      ensures Valid() && bitmap == old(bitmap)
      // NULL, unaligned, out-of-range and double frees change nothing
      ensures InUse() == old(InUse()) - if addr != 0 && addr % PAGE_SIZE == 0 then {addr / PAGE_SIZE} else {}
      ensures InUse() == old(InUse()) ==> bitmap[..] == old(bitmap[..]) && usedPages == old(usedPages)
      // the hint is moved back to a frame that was freed
      ensures nextFreeHint == if InUse() != old(InUse()) && addr / PAGE_SIZE < old(nextFreeHint) then addr / PAGE_SIZE
                              else old(nextFreeHint)
    {
      if addr == 0 || addr % PAGE_SIZE != 0 { return; }
      var page := addr / PAGE_SIZE;
      if page >= totalPages { return; }
      var free := IsPageFree(page);
      if free { return; }
      MarkPageFree(page);
      if page < nextFreeHint { nextFreeHint := page; }
    }

    // ----- ranges of pages

    /** The words of the first and the last page are words of the bitmap. */
    ghost predicate InBounds(start: Word, count: Word)
    {
      start / 64 < (totalPages + 63) / 64 && EndOf(start, count) / 64 < (totalPages + 63) / 64
    }

    method RangeIsFree(start: Word, count: Word) returns (free: bool)
      requires Counted()
      requires U64(start + count) <= totalPages ==> InBounds(start, count)
      ensures free <==> U64(start + count) <= totalPages && SpanFree(bitmap[..], start, count)
    {
      if U64(start + count) > totalPages { return false; }
      ghost var bm := bitmap[..];
      var end := EndOf(start, count);
      var startWord, endWord := start / 64, end / 64;
      SpanByWords(start, count);
      if startWord == endWord {
        var mask := And64(LowMask(end % 64), HighMask(start % 64));
        BothSelect(start, end);
        MaskedZero(bm, startWord, mask, start, end + 1);
        free := And64(bitmap[startWord], mask) == 0;
        assert free <==> SpanFree(bitmap[..], start, count);
        return;
      }
      HighSelects(start, 64 * startWord + 64);
      MaskedZero(bm, startWord, HighMask(start % 64), start, 64 * startWord + 64);
      if And64(bitmap[startWord], HighMask(start % 64)) != 0 { return false; }
      var w := startWord + 1;
      while w < endWord
        invariant startWord + 1 <= w && (startWord < endWord ==> w <= endWord)
        invariant forall p: nat :: startWord < p / 64 < w ==> !Used(bm, p)
      {
        ZeroWord(bm, w);
        if bitmap[w] != 0 { return false; }
        w := w + 1;
      }
      LowSelects(end, 64 * endWord);
      MaskedZero(bm, endWord, LowMask(end % 64), 64 * endWord, end + 1);
      free := And64(bitmap[endWord], LowMask(end % 64)) == 0;
    }

    method RangeSetUsed(start: Word, count: Word)
      requires Counted() && InBounds(start, count)
      modifies this`usedPages, bitmap
      ensures Counted() && bitmap == old(bitmap)
      ensures InUse() == old(InUse()) + Span(start, count)
      ensures old(Valid()) ==> (Valid() <==> forall p: nat :: InSpan(p, start, count) ==> p < totalPages)
    {
      var end := EndOf(start, count);
      SpanByWords(start, count);
      if start / 64 == end / 64 {
        BothSelect(start, end);
        OrWord(start / 64, And64(LowMask(end % 64), HighMask(start % 64)), start, end + 1);
      } else {
        SetUsedWords(start, end);
      }
      UnionOf(old(bitmap[..]), bitmap[..], Span(start, count));
      if old(Valid()) { SpanBelow(old(bitmap[..]), bitmap[..], start, count, totalPages); }
    }

    /** The path that starts and ends in different words. */
    method SetUsedWords(start: nat, end: nat)
      requires start / 64 != end / 64
      requires start / 64 < bitmap.Length && end / 64 < bitmap.Length && usedPages == Total(bitmap[..])
      modifies this`usedPages, bitmap
      ensures bitmap == old(bitmap) && usedPages == Total(bitmap[..])
      ensures forall p: nat :: Used(bitmap[..], p) <==> Used(old(bitmap[..]), p) || AcrossWords(p, start, end)
    {
      var startWord, endWord := start / 64, end / 64;
      HighSelects(start, 64 * startWord + 64);
      OrWord(startWord, HighMask(start % 64), start, 64 * startWord + 64);
      var w := startWord + 1;
      while w < endWord
        invariant startWord + 1 <= w && w <= if startWord < endWord then endWord else startWord + 1
        invariant bitmap == old(bitmap) && usedPages == Total(bitmap[..])
        invariant forall p: nat :: Used(bitmap[..], p) <==>
                                   Used(old(bitmap[..]), p) || (start <= p && startWord <= p / 64 < w)
      {
        if bitmap[w] != ONES {
          FillWord(w);
        } else {
          FullWord(bitmap[..], w, ONES);
          assert bitmap[..][w := ONES] == bitmap[..];
        }
        w := w + 1;
      }
      LowSelects(end, 64 * endWord);
      ghost var middle := bitmap[..];
      OrWord(endWord, LowMask(end % 64), 64 * endWord, end + 1);
      forall p: nat ensures Used(bitmap[..], p) <==> Used(old(bitmap[..]), p) || AcrossWords(p, start, end) {
        assert Used(bitmap[..], p) <==> Used(middle, p) || (p / 64 == endWord && 64 * endWord <= p < end + 1);
      }
    }

    /** `after = before | mask`, the counter raised by the difference of the counts. */
    method OrWord(k: nat, mask: Word, ghost lo: int, ghost hi: int)
      requires k < bitmap.Length && usedPages == Total(bitmap[..])
      requires Selects(mask, k, lo, hi)
      modifies this`usedPages, bitmap
      ensures bitmap == old(bitmap) && usedPages == Total(bitmap[..])
      ensures forall p: nat :: Used(bitmap[..], p) <==> Used(old(bitmap[..]), p) || (p / 64 == k && lo <= p < hi)
    {
      ghost var bm := bitmap[..];
      var before := bitmap[k];
      var after := Or64(before, mask);
      TotalUpdate(bm, k, after);
      OrMask(bm, k, mask, lo, hi);
      usedPages := usedPages + PopCount(after) - PopCount(before);
      bitmap[k] := after;
      assert bitmap[..] == bm[k := after];
    }

    method FillWord(k: nat)
      requires k < bitmap.Length && usedPages == Total(bitmap[..])
      modifies this`usedPages, bitmap
      ensures bitmap == old(bitmap) && usedPages == Total(bitmap[..])
      ensures forall p: nat :: Used(bitmap[..], p) <==> Used(old(bitmap[..]), p) || p / 64 == k
    {
      ghost var bm := bitmap[..];
      var full: Word := ONES;
      TotalUpdate(bm, k, full);
      ghost var bm' := bm[k := full];
      FullWord(bm, k, full);
      assert forall p: nat :: Used(bm', p) == (Used(bm, p) || p / 64 == k);
      PopCountOnes();
      usedPages := usedPages + 64 - PopCount(bitmap[k]);
      bitmap[k] := full;
      assert bitmap[..] == bm';
    }

    method RangeSetFree(start: Word, count: Word)
      requires Counted() && InBounds(start, count)
      modifies this`usedPages, bitmap
      ensures Counted() && bitmap == old(bitmap)
      ensures InUse() == old(InUse()) - Span(start, count)
      ensures old(Valid()) ==> Valid()
    {
      var end := EndOf(start, count);
      SpanByWords(start, count);
      if start / 64 == end / 64 {
        BothSelect(start, end);
        AndNotWord(start / 64, And64(LowMask(end % 64), HighMask(start % 64)), start, end + 1);
      } else {
        SetFreeWords(start, end);
      }
      DifferenceOf(old(bitmap[..]), bitmap[..], Span(start, count));
      if old(Valid()) { KeepsBelow(old(bitmap[..]), bitmap[..], totalPages); }
    }

    method SetFreeWords(start: nat, end: nat)
      requires start / 64 != end / 64
      requires start / 64 < bitmap.Length && end / 64 < bitmap.Length && usedPages == Total(bitmap[..])
      modifies this`usedPages, bitmap
      ensures bitmap == old(bitmap) && usedPages == Total(bitmap[..])
      ensures forall p: nat :: Used(bitmap[..], p) <==> Used(old(bitmap[..]), p) && !AcrossWords(p, start, end)
    {
      var startWord, endWord := start / 64, end / 64;
      HighSelects(start, 64 * startWord + 64);
      AndNotWord(startWord, HighMask(start % 64), start, 64 * startWord + 64);
      var w := startWord + 1;
      while w < endWord
        invariant startWord + 1 <= w && w <= if startWord < endWord then endWord else startWord + 1
        invariant bitmap == old(bitmap) && usedPages == Total(bitmap[..])
        invariant forall p: nat :: Used(bitmap[..], p) <==>
                                   Used(old(bitmap[..]), p) && !(start <= p && startWord <= p / 64 < w)
      {
        if bitmap[w] != 0 {
          ZeroOut(w);
        } else {
          ZeroWord(bitmap[..], w);
        }
        w := w + 1;
      }
      LowSelects(end, 64 * endWord);
      ghost var middle := bitmap[..];
      AndNotWord(endWord, LowMask(end % 64), 64 * endWord, end + 1);
      forall p: nat ensures Used(bitmap[..], p) <==> Used(old(bitmap[..]), p) && !AcrossWords(p, start, end) {
        assert Used(bitmap[..], p) <==> Used(middle, p) && !(p / 64 == endWord && 64 * endWord <= p < end + 1);
      }
    }

    method AndNotWord(k: nat, mask: Word, ghost lo: int, ghost hi: int)
      requires k < bitmap.Length && usedPages == Total(bitmap[..])
      requires Selects(mask, k, lo, hi)
      modifies this`usedPages, bitmap
      ensures bitmap == old(bitmap) && usedPages == Total(bitmap[..])
      ensures forall p: nat :: Used(bitmap[..], p) <==> Used(old(bitmap[..]), p) && !(p / 64 == k && lo <= p < hi)
    {
      ghost var bm := bitmap[..];
      var before := bitmap[k];
      var after := And64(before, Not(mask));
      TotalUpdate(bm, k, after);
      AndNotMask(bm, k, mask, lo, hi);
      usedPages := usedPages - (PopCount(before) - PopCount(after));
      bitmap[k] := after;
      assert bitmap[..] == bm[k := after];
    }

    method ZeroOut(k: nat)
      requires k < bitmap.Length && usedPages == Total(bitmap[..])
      modifies this`usedPages, bitmap
      ensures bitmap == old(bitmap) && usedPages == Total(bitmap[..])
      ensures forall p: nat :: Used(bitmap[..], p) <==> Used(old(bitmap[..]), p) && p / 64 != k
    {
      ghost var bm := bitmap[..];
      TotalUpdate(bm, k, 0);
      EmptyWord(bm, k, 0);
      usedPages := usedPages - PopCount(bitmap[k]);
      bitmap[k] := 0;
      assert bitmap[..] == bm[k := 0];
    }

    // ----- 2 MB pages

    /** The search reads no word past the bitmap: an empty request may reach the
        end of memory, and one that wraps to 2^64 - 512 frames starts beyond it. */
    ghost predicate SearchInBounds(needed: Word)
    {
      needed % PAGES_PER_HUGE == 0 && needed != TWO64 - PAGES_PER_HUGE
        && (needed == 0 ==> totalPages % PAGES_PER_HUGE != 0)
    }

    method AllocHugePages(numPages: Word) returns (addr: nat)
      requires Valid() && SearchInBounds(HugeCount(numPages))
      modifies this`usedPages, this`nextFreeHint, bitmap
      ensures Counted() && bitmap == old(bitmap)
      // NULL exactly when no aligned free run exists
      ensures addr == 0 <==> forall k: nat :: !Room(old(bitmap[..]), totalPages, k, HugeCount(numPages))
      ensures addr == 0 ==> bitmap[..] == old(bitmap[..]) && usedPages == old(usedPages)
      // otherwise the lowest such run, now used
      ensures addr != 0 ==>
                && addr % HUGE_PAGE_SIZE == 0
                && Room(old(bitmap[..]), totalPages, addr / HUGE_PAGE_SIZE, HugeCount(numPages))
                && (forall k: nat :: k < addr / HUGE_PAGE_SIZE ==>
                      !Room(old(bitmap[..]), totalPages, k, HugeCount(numPages)))
                && InUse() == old(InUse()) + Span(addr / PAGE_SIZE, HugeCount(numPages))
                && InUse() - Span(addr / PAGE_SIZE, HugeCount(numPages)) == old(InUse())
      // an empty request near the end of memory marks frames that do not exist
      ensures Valid() <==> addr == 0 || HugeCount(numPages) >= 1 || addr / PAGE_SIZE + 64 <= totalPages
    {
      hide InSpan, HugeCount, Room;
      var needed := HugeCount(numPages);
      var k := FindRoom(needed);
      if k < 0 { return 0; }
      addr := ClaimRange(k, needed);
    }

    /** The search loop, over 2 MB boundaries from 2 MB up. */
    method FindRoom(needed: Word) returns (k: int)
      requires Valid() && SearchInBounds(needed)
      ensures k < 0 ==> forall j: nat :: !Room(bitmap[..], totalPages, j, needed)
      ensures k >= 0 ==> Room(bitmap[..], totalPages, k, needed)
      ensures k >= 0 ==> forall j: nat :: j < k ==> !Room(bitmap[..], totalPages, j, needed)
    {
      k := 1;
      while U64(k * PAGES_PER_HUGE + needed) <= totalPages
        invariant 1 <= k && k * PAGES_PER_HUGE <= totalPages + PAGES_PER_HUGE
        invariant k > 1 ==> (k - 1) * PAGES_PER_HUGE + needed <= totalPages
        invariant forall j: nat :: j < k ==> !Room(bitmap[..], totalPages, j, needed)
        decreases totalPages - k * PAGES_PER_HUGE
      {
        NoWrap(k, needed);
        RoomInBounds(k, needed);
        var free := RangeIsFree(k * PAGES_PER_HUGE, needed);
        if free { return; }
        assert !Room(bitmap[..], totalPages, k, needed);
        k := k + 1;
      }
      NoWrap(k, needed);
      k := -1;
    }

    /** The sum in the loop's guard never wraps: the first one would have to. */
    lemma NoWrap(k: nat, needed: Word)
      requires Valid() && SearchInBounds(needed) && 1 <= k && k * PAGES_PER_HUGE <= totalPages + PAGES_PER_HUGE
      requires k > 1 ==> (k - 1) * PAGES_PER_HUGE + needed <= totalPages
      ensures U64(k * PAGES_PER_HUGE + needed) <= totalPages <==> k * PAGES_PER_HUGE + needed <= totalPages
    {
      assert needed <= TWO64 - 2 * PAGES_PER_HUGE;
    }

    lemma RoomInBounds(k: nat, needed: Word)
      requires Valid() && SearchInBounds(needed) && 1 <= k && k * PAGES_PER_HUGE + needed <= totalPages
      ensures InBounds(k * PAGES_PER_HUGE, needed)
    {
      assert EndOf(k * PAGES_PER_HUGE, needed) == k * PAGES_PER_HUGE + needed - 1;
      assert needed == 0 ==> k * PAGES_PER_HUGE != totalPages;
    }

    method ClaimRange(k: nat, n: Word) returns (addr: nat)
      requires Valid() && SearchInBounds(n) && Room(bitmap[..], totalPages, k, n)
      modifies this`usedPages, this`nextFreeHint, bitmap
      ensures Counted() && bitmap == old(bitmap)
      ensures addr == k * HUGE_PAGE_SIZE
      ensures InUse() == old(InUse()) + Span(k * PAGES_PER_HUGE, n)
      ensures InUse() - Span(k * PAGES_PER_HUGE, n) == old(InUse())
      ensures Valid() <==> n >= 1 || k * PAGES_PER_HUGE + 64 <= totalPages
    {
      var start: Word := k * PAGES_PER_HUGE;
      RoomInBounds(k, n);
      SpanDisjoint(start, n);
      SpanExists(k, n);
      RangeSetUsed(start, n);
      nextFreeHint := start + n;
      if nextFreeHint >= totalPages { nextFreeHint := LOWMEM_PAGES; }
      addr := start * PAGE_SIZE;
    }

    /** The frames of a claim exist, except for an empty one in the last word. */
    lemma SpanExists(k: nat, n: Word)
      requires Valid() && 1 <= k && k * PAGES_PER_HUGE + n <= totalPages
      ensures (forall p: nat :: InSpan(p, k * PAGES_PER_HUGE, n) ==> p < totalPages)
              <==> n >= 1 || k * PAGES_PER_HUGE + 64 <= totalPages
    {
      var start: Word := k * PAGES_PER_HUGE;
      if n >= 1 {
        SpanIsRange(start, n);
      } else {
        EmptySpan(start);
        assert InSpan(start + 63, start, n);
      }
    }

    lemma SpanDisjoint(start: Word, n: Word)
      requires SpanFree(bitmap[..], start, n)
      ensures Span(start, n) !! InUse()
    {
    }

    /** The request passes the checks: not NULL, not empty, aligned, and ending inside memory, in 64 bits. */
    predicate Accepted(addr: Word, numPages: Word)
    {
      && addr != 0 && numPages != 0 && addr % HUGE_PAGE_SIZE == 0
      && U64(addr / PAGE_SIZE + HugeCount(numPages)) <= totalPages
    }

    /** The request of WrappedRequest, at 2 MB, passes the bounds test. */
    lemma WrappedIsAccepted()
      requires totalPages >= 576
      ensures Accepted(HUGE_PAGE_SIZE, 0x80_0000_0000_0000) && InBounds(512, HugeCount(0x80_0000_0000_0000))
    {
      WrappedRequest();
    }

    /** What AskedIsTouched says of the span makes this exactly the frames asked
        for, or nothing, unless the 64-bit sums wrap. */
    method FreeHugePages(addr: Word, numPages: Word)
      requires Counted()
      requires Accepted(addr, numPages) ==> InBounds(addr / PAGE_SIZE, HugeCount(numPages))
      modifies this`usedPages, this`nextFreeHint, bitmap
      ensures Counted() && bitmap == old(bitmap) && (old(Valid()) ==> Valid())
      ensures InUse() == old(InUse()) -
                if Accepted(addr, numPages) then Span(addr / PAGE_SIZE, HugeCount(numPages)) else {}
      ensures !Accepted(addr, numPages) ==> bitmap[..] == old(bitmap[..]) && usedPages == old(usedPages)
    {
      if addr == 0 || numPages == 0 { return; }
      if addr % HUGE_PAGE_SIZE != 0 { return; }
      var start := addr / PAGE_SIZE;
      var count := HugeCount(numPages);
      if U64(start + count) > totalPages { return; }
      RangeSetFree(start, count);
      if start < nextFreeHint { nextFreeHint := start; }
    }

    /** Freeing what was allocated restores bitmap and counter, except when an
        empty request finds room: it leaves two words marked for good. */
    method AllocThenFreeHuge(numPages: Word) returns (addr: nat)
      requires Valid() && SearchInBounds(HugeCount(numPages))
      modifies this`usedPages, this`nextFreeHint, bitmap
      ensures Counted() && bitmap == old(bitmap)
      ensures bitmap[..] == old(bitmap[..]) && usedPages == old(usedPages) <==>
                numPages >= 1 || forall k: nat :: !Room(old(bitmap[..]), totalPages, k, HugeCount(numPages))
    {
      hide Room, InSpan, HugeCount, Span, SearchInBounds, InBounds, Accepted, SpanFree, U64;
      ghost var bm := bitmap[..];
      addr := AllocHugePages(numPages);
      if addr != 0 { RoomAccepted(bm, addr, numPages); }
      NullRefused(numPages);
      FreeHugePages(addr, numPages);
      if addr == 0 || numPages >= 1 {
        SamePagesSameBitmap(bitmap[..], bm);
      } else {
        assert addr / PAGE_SIZE == addr / HUGE_PAGE_SIZE * PAGES_PER_HUGE;
        StartMarked(addr / PAGE_SIZE);
      }
    }

    lemma NullRefused(numPages: Word)
      ensures !Accepted(0, numPages)
    {
    }

    lemma StartMarked(start: Word)
      requires start > 0 && start % PAGES_PER_HUGE == 0
      ensures start in Span(start, HugeCount(0))
    {
      assert InSpan(start, start, 0);
    }

    lemma RoomAccepted(bm: seq<Word>, addr: nat, numPages: Word)
      requires Counted() && SearchInBounds(HugeCount(numPages)) && addr % HUGE_PAGE_SIZE == 0 && addr != 0
      requires Room(bm, totalPages, addr / HUGE_PAGE_SIZE, HugeCount(numPages))
      ensures addr < TWO64
      ensures InBounds(addr / PAGE_SIZE, HugeCount(numPages)) && (Accepted(addr, numPages) <==> numPages != 0)
    {
      var k := addr / HUGE_PAGE_SIZE;
      assert addr / PAGE_SIZE == k * PAGES_PER_HUGE;
      var n := HugeCount(numPages);
      assert EndOf(addr / PAGE_SIZE, n) == k * PAGES_PER_HUGE + n - 1;
    }
  }

  lemma KeepsBelow(a: seq<Word>, b: seq<Word>, total: nat)
    requires UsedPages(b) <= UsedPages(a) && forall p: nat :: Used(a, p) ==> p < total
    ensures forall p: nat :: Used(b, p) ==> p < total
  {
    Membership(a);
    Membership(b);
  }

  lemma SpanBelow(a: seq<Word>, b: seq<Word>, start: Word, count: Word, total: nat)
    requires UsedPages(b) == UsedPages(a) + Span(start, count) && forall p: nat :: Used(a, p) ==> p < total
    ensures (forall p: nat :: Used(b, p) ==> p < total) <==> (forall p: nat :: InSpan(p, start, count) ==> p < total)
  {
    Membership(a);
    Membership(b);
    InSpanBelow(start, count);
    forall p: nat ensures Used(b, p) <==> Used(a, p) || InSpan(p, start, count) {
      assert p in UsedPages(b) <==> p in UsedPages(a) || p in Span(start, count);
    }
  }

  /** The touched pages, word by word. */
  lemma SpanByWords(start: Word, count: Word)
    ensures var end := EndOf(start, count);
            forall p: nat :: InSpan(p, start, count) <==>
              if start / 64 == end / 64 then p / 64 == start / 64 && start <= p < end + 1
              else AcrossWords(p, start, end)
  {
  }

  lemma AllFree(bm: seq<Word>)
    requires forall k :: 0 <= k < |bm| ==> bm[k] == 0
    ensures Total(bm) == 0 && UsedPages(bm) == {}
    ensures forall p: nat :: !Used(bm, p)
  {
    forall p: nat ensures !Used(bm, p) {
      ZeroBit(p % 64);
    }
    assert UsedPages(bm) == {};
    TotalIsCardinality(bm);
  }
}
