/** The page bitmap as a value: which pages it marks used, and how many. */
module FrameBitmap {
  import opened Words

  predicate Used(bm: seq<Word>, p: nat)
  {
    p / 64 < |bm| && Bit(bm[p / 64], p % 64)
  }

  /** The pages the bitmap marks used. */
  ghost function UsedPages(bm: seq<Word>): set<nat>
  {
    set p: nat | p < 64 * |bm| && Used(bm, p)
  }

  lemma Membership(bm: seq<Word>)
    ensures forall p: nat {:trigger p in UsedPages(bm)} {:trigger Used(bm, p)} :: p in UsedPages(bm) <==> Used(bm, p)
  {
  }

  lemma UnionOf(a: seq<Word>, b: seq<Word>, s: set<nat>)
    requires forall p: nat :: Used(b, p) <==> Used(a, p) || p in s
    ensures UsedPages(b) == UsedPages(a) + s
  {
    Membership(a);
    Membership(b);
  }

  lemma DifferenceOf(a: seq<Word>, b: seq<Word>, s: set<nat>)
    requires forall p: nat :: Used(b, p) <==> Used(a, p) && p !in s
    ensures UsedPages(b) == UsedPages(a) - s
  {
    Membership(a);
    Membership(b);
  }

  /** The sum of the words' population counts. */
  function Total(bm: seq<Word>): nat
  {
    if bm == [] then 0 else Total(bm[..|bm| - 1]) + PopCount(bm[|bm| - 1])
  }

  lemma {:induction false} TotalUpdate(bm: seq<Word>, k: nat, w: Word)
    requires k < |bm|
    ensures Total(bm[k := w]) == Total(bm) - PopCount(bm[k]) + PopCount(w)
  {
    var n := |bm| - 1;
    if k == n {
      assert bm[k := w][..n] == bm[..n];
    } else {
      assert bm[k := w][..n] == bm[..n][k := w];
      TotalUpdate(bm[..n], k, w);
    }
  }

  // ----- the popcount sum is the number of used pages

  ghost function UsedBelow(bm: seq<Word>, n: nat): set<nat>
  {
    set p: nat | p < n && Used(bm, p)
  }

  lemma {:induction false} CountInWord(bm: seq<Word>, k: nat, i: nat)
    requires k < |bm| && i <= 64
    ensures |UsedBelow(bm, 64 * k + i)| == |UsedBelow(bm, 64 * k)| + CountBits(bm[k], i)
  {
    if i > 0 {
      CountInWord(bm, k, i - 1);
      var p := 64 * k + i - 1;
      assert p / 64 == k && p % 64 == i - 1;
      if Bit(bm[k], i - 1) {
        assert UsedBelow(bm, p + 1) == UsedBelow(bm, p) + {p};
      } else {
        assert UsedBelow(bm, p + 1) == UsedBelow(bm, p);
      }
    }
  }

  lemma {:induction false} TotalIsCardinality(bm: seq<Word>)
    ensures Total(bm) == |UsedPages(bm)|
  {
    if bm == [] {
      assert UsedPages(bm) == {};
    } else {
      var n := |bm| - 1;
      var rest := bm[..n];
      TotalIsCardinality(rest);
      CountInWord(bm, n, 64);
      Pow2Of64();
      PopCountIsCount(bm[n], 64);
      assert UsedPages(bm) == UsedBelow(bm, 64 * n + 64);
      assert UsedPages(rest) == UsedBelow(bm, 64 * n) by {
        forall p: nat | p < 64 * n ensures Used(rest, p) == Used(bm, p) {
          assert p / 64 < n;
        }
      }
    }
  }

  /** A bitmap is determined by the set of pages it marks. */
  lemma SamePagesSameBitmap(a: seq<Word>, b: seq<Word>)
    requires |a| == |b|
    requires UsedPages(a) == UsedPages(b)
    ensures a == b
  {
    Pow2Of64();
    forall k | 0 <= k < |a| ensures a[k] == b[k] {
      forall i: nat ensures Bit(a[k], i) == Bit(b[k], i) {
        if i < 64 {
          var p := 64 * k + i;
          assert p / 64 == k && p % 64 == i;
          assert p in UsedPages(a) <==> p in UsedPages(b);
        } else {
          HighBitsClear(a[k], 64, i);
          HighBitsClear(b[k], 64, i);
        }
      }
      SameBitsSameWord(a[k], b[k]);
    }
  }

  // ----- rewriting one word

  /** A mask that selects exactly the pages of [lo, hi) lying in word k. */
  ghost predicate Selects(mask: Word, k: nat, lo: int, hi: int)
  {
    forall i: nat :: i < 64 ==> Bit(mask, i) == (lo <= 64 * k + i < hi)
  }

  /** `page_bitmap[k] |= mask` marks the selected pages used. */
  lemma OrMask(bm: seq<Word>, k: nat, mask: Word, lo: int, hi: int)
    requires k < |bm| && Selects(mask, k, lo, hi)
    ensures forall p: nat :: Used(bm[k := Or64(bm[k], mask)], p) == (Used(bm, p) || (p / 64 == k && lo <= p < hi))
  {
    var w := Or64(bm[k], mask);
    forall p: nat ensures Used(bm[k := w], p) == (Used(bm, p) || (p / 64 == k && lo <= p < hi)) {
      OrBit(bm[k], mask, p % 64);
      assert p == 64 * (p / 64) + p % 64;
    }
  }

  /** `page_bitmap[k] &= ~mask` marks the selected pages free. */
  lemma AndNotMask(bm: seq<Word>, k: nat, mask: Word, lo: int, hi: int)
    requires k < |bm| && Selects(mask, k, lo, hi)
    ensures forall p: nat :: Used(bm[k := And64(bm[k], Not(mask))], p) ==
              (Used(bm, p) && !(p / 64 == k && lo <= p < hi))
  {
    var w := And64(bm[k], Not(mask));
    forall p: nat ensures Used(bm[k := w], p) == (Used(bm, p) && !(p / 64 == k && lo <= p < hi)) {
      AndBit(bm[k], Not(mask), p % 64);
      NotBit(mask, p % 64);
      assert p == 64 * (p / 64) + p % 64;
    }
  }

  /** `(page_bitmap[k] & mask) == 0` exactly when the selected pages are free. */
  lemma MaskedZero(bm: seq<Word>, k: nat, mask: Word, lo: int, hi: int)
    requires k < |bm| && Selects(mask, k, lo, hi)
    ensures And64(bm[k], mask) == 0 <==> forall p: nat :: p / 64 == k && lo <= p < hi ==> !Used(bm, p)
  {
    var w := And64(bm[k], mask);
    forall i: nat | i < 64
      ensures Bit(w, i) == (Used(bm, 64 * k + i) && lo <= 64 * k + i < hi)
    {
      AndBit(bm[k], mask, i);
      assert (64 * k + i) / 64 == k && (64 * k + i) % 64 == i;
    }
    NoBitsIsZero(w);
    if w == 0 {
      forall p: nat | p / 64 == k && lo <= p < hi ensures !Used(bm, p) {
        assert p == 64 * k + p % 64;
        assert !Bit(w, p % 64);
      }
    } else {
      var i: nat :| Bit(w, i);
      Pow2Of64();
      if i >= 64 { HighBitsClear(w, 64, i); }
      assert (64 * k + i) / 64 == k;
    }
  }

  // ----- the masks of the range operations

  lemma HighSelects(s: nat, hi: int)
    requires hi >= 64 * (s / 64) + 64
    ensures Selects(HighMask(s % 64), s / 64, s, hi)
  {
    forall i: nat | i < 64 ensures Bit(HighMask(s % 64), i) == (s <= 64 * (s / 64) + i < hi) {
      HighMaskBit(s % 64, i);
    }
  }

  lemma LowSelects(e: nat, lo: int)
    requires lo <= 64 * (e / 64)
    ensures Selects(LowMask(e % 64), e / 64, lo, e + 1)
  {
    forall i: nat | i < 64 ensures Bit(LowMask(e % 64), i) == (lo <= 64 * (e / 64) + i < e + 1) {
      LowMaskBit(e % 64, i);
    }
  }

  lemma BothSelect(s: nat, e: nat)
    requires s / 64 == e / 64
    ensures Selects(And64(LowMask(e % 64), HighMask(s % 64)), s / 64, s, e + 1)
  {
    var mask := And64(LowMask(e % 64), HighMask(s % 64));
    forall i: nat | i < 64 ensures Bit(mask, i) == (s <= 64 * (s / 64) + i < e + 1) {
      AndBit(LowMask(e % 64), HighMask(s % 64), i);
      LowMaskBit(e % 64, i);
      HighMaskBit(s % 64, i);
    }
  }

  lemma OneSelects(p: nat)
    ensures Selects(OneMask(p % 64), p / 64, p, p + 1)
  {
    forall i: nat | i < 64 ensures Bit(OneMask(p % 64), i) == (p <= 64 * (p / 64) + i < p + 1) {
      OneMaskBit(p % 64, i);
    }
  }

  lemma FullWord(bm: seq<Word>, k: nat, w: Word)
    requires k < |bm| && w == ONES
    ensures forall p: nat :: Used(bm[k := w], p) == (Used(bm, p) || p / 64 == k)
  {
    forall p: nat ensures Used(bm[k := w], p) == (Used(bm, p) || p / 64 == k) {
      OnesBit(p % 64);
    }
  }

  lemma EmptyWord(bm: seq<Word>, k: nat, w: Word)
    requires k < |bm| && w == 0
    ensures forall p: nat :: Used(bm[k := w], p) == (Used(bm, p) && p / 64 != k)
  {
    forall p: nat ensures Used(bm[k := w], p) == (Used(bm, p) && p / 64 != k) {
      ZeroBit(p % 64);
    }
  }

  lemma ZeroWord(bm: seq<Word>, k: nat)
    requires k < |bm|
    ensures bm[k] == 0 <==> forall p: nat :: p / 64 == k ==> !Used(bm, p)
  {
    forall i: nat | i < 64 ensures Bit(ONES, i) { OnesBit(i); }
    MaskedZero(bm, k, ONES, 64 * k, 64 * k + 64);
    AndOnes(bm[k]);
  }

  lemma AndOnes(w: Word)
    ensures And64(w, ONES) == w
  {
    Pow2Of64();
    forall i: nat ensures Bit(And64(w, ONES), i) == Bit(w, i) {
      AndBit(w, ONES, i);
      if i < 64 { OnesBit(i); } else { HighBitsClear(w, 64, i); }
    }
    SameBitsSameWord(And64(w, ONES), w);
  }

  // ----- one page

  lemma PageBit(bm: seq<Word>, p: nat)
    requires p / 64 < |bm|
    ensures And64(bm[p / 64], OneMask(p % 64)) != 0 <==> p in UsedPages(bm)
  {
    OneSelects(p);
    MaskedZero(bm, p / 64, OneMask(p % 64), p, p + 1);
  }

  /** Setting the bit of a free page. */
  lemma SetPage(bm: seq<Word>, p: nat, w: Word)
    requires p / 64 < |bm| && p !in UsedPages(bm)
    requires w == Or64(bm[p / 64], OneMask(p % 64))
    ensures UsedPages(bm[p / 64 := w]) == UsedPages(bm) + {p}
    ensures Total(bm[p / 64 := w]) == Total(bm) + 1
  {
    OneSelects(p);
    OrMask(bm, p / 64, OneMask(p % 64), p, p + 1);
    TotalIsCardinality(bm);
    TotalIsCardinality(bm[p / 64 := w]);
    UnionOf(bm, bm[p / 64 := w], {p});
  }

  /** Clearing the bit of a used page. */
  lemma ClearPage(bm: seq<Word>, p: nat, w: Word)
    requires p / 64 < |bm| && p in UsedPages(bm)
    requires w == And64(bm[p / 64], Not(OneMask(p % 64)))
    ensures UsedPages(bm[p / 64 := w]) == UsedPages(bm) - {p}
    ensures Total(bm[p / 64 := w]) == Total(bm) - 1
  {
    OneSelects(p);
    AndNotMask(bm, p / 64, OneMask(p % 64), p, p + 1);
    TotalIsCardinality(bm);
    TotalIsCardinality(bm[p / 64 := w]);
    DifferenceOf(bm, bm[p / 64 := w], {p});
  }
}
