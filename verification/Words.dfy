/** 64-bit machine words as numbers below 2^64: bit tests, the bitwise
    operators, shifts, and trailing-zero and population counts. */
module Words {

  const TWO64: nat := 0x1_0000_0000_0000_0000
  const ONES: Word := TWO64 - 1

  type Word = w: nat | w < TWO64

  function Pow2(n: nat): (p: nat)
    ensures p >= 1
  {
    if n == 0 then 1 else 2 * Pow2(n - 1)
  }

  lemma Pow2Plus8(n: nat)
    ensures Pow2(n + 8) == 256 * Pow2(n)
  {
    assert Pow2(n + 8) == 2 * Pow2(n + 7) == 4 * Pow2(n + 6) == 8 * Pow2(n + 5) == 16 * Pow2(n + 4);
    assert Pow2(n + 4) == 2 * Pow2(n + 3) == 4 * Pow2(n + 2) == 8 * Pow2(n + 1) == 16 * Pow2(n);
  }

  lemma Pow2Of40()
    ensures Pow2(40) == 0x100_0000_0000 && Pow2(16) == 0x1_0000 && Pow2(8) == 0x100
  {
    Pow2Plus8(0);
    Pow2Plus8(8);
    Pow2Plus8(16);
    Pow2Plus8(24);
    Pow2Plus8(32);
  }

  lemma Pow2Of64()
    ensures Pow2(64) == TWO64
  {
    Pow2Of40();
    Pow2Plus8(40);
    Pow2Plus8(48);
    Pow2Plus8(56);
  }

  predicate Bit(w: nat, i: nat)
  {
    if i == 0 then w % 2 == 1 else Bit(w / 2, i - 1)
  }

  function Or(a: nat, b: nat): nat
    decreases a + b
  {
    if a == 0 && b == 0 then 0
    else 2 * Or(a / 2, b / 2) + if a % 2 == 1 || b % 2 == 1 then 1 else 0
  }

  function And(a: nat, b: nat): nat
    decreases a
  {
    if a == 0 then 0
    else 2 * And(a / 2, b / 2) + if a % 2 == 1 && b % 2 == 1 then 1 else 0
  }

  /** `~w` */
  function Not(w: Word): Word { ONES - w }

  /** `a | b` on words. */
  function Or64(a: Word, b: Word): Word
  {
    Pow2Of64();
    OrBound(a, b, 64);
    Or(a, b)
  }

  /** `a & b` on words. */
  function And64(a: Word, b: Word): Word
  {
    AndBound(a, b);
    And(a, b)
  }

  /** `w << s`, dropping what leaves the word. */
  function Shl(w: nat, s: nat): Word
  {
    if s == 0 then w % TWO64 else Shl(w, s - 1) * 2 % TWO64
  }

  /** `w >> s` */
  function Shr(w: Word, s: nat): Word
  {
    if s == 0 then w else Shr(w, s - 1) / 2
  }

  // ----- bits of the operators

  lemma {:induction false} OrBit(a: nat, b: nat, i: nat)
    ensures Bit(Or(a, b), i) == (Bit(a, i) || Bit(b, i))
    decreases i
  {
    if a == 0 && b == 0 {
      ZeroBit(i);
    } else if i > 0 {
      OrBit(a / 2, b / 2, i - 1);
    }
  }

  lemma {:induction false} AndBit(a: nat, b: nat, i: nat)
    ensures Bit(And(a, b), i) == (Bit(a, i) && Bit(b, i))
    decreases i
  {
    if a == 0 {
      ZeroBit(i);
    } else if i > 0 {
      AndBit(a / 2, b / 2, i - 1);
    }
  }

  lemma {:induction false} ZeroBit(i: nat)
    ensures !Bit(0, i)
  {
    if i > 0 { ZeroBit(i - 1); }
  }

  lemma {:induction false} ComplementBit(w: nat, n: nat, i: nat)
    requires w < Pow2(n) && i < n
    ensures Bit(Pow2(n) - 1 - w, i) == !Bit(w, i)
    decreases i
  {
    ComplementHalf(w, Pow2(n - 1));
    if i > 0 {
      ComplementBit(w / 2, n - 1, i - 1);
    }
  }

  lemma ComplementHalf(w: nat, p: nat)
    requires w < 2 * p
    ensures (2 * p - 1 - w) / 2 == p - 1 - w / 2
    ensures (2 * p - 1 - w) % 2 == 1 - w % 2
  {
  }

  lemma NotBit(w: nat, i: nat)
    requires w < TWO64 && i < 64
    ensures Bit(Not(w), i) == !Bit(w, i)
  {
    Pow2Of64();
    ComplementBit(w, 64, i);
  }

  /** A word has no bit at or above position n when it is below 2^n. */
  lemma {:induction false} HighBitsClear(w: nat, n: nat, i: nat)
    requires w < Pow2(n) && n <= i
    ensures !Bit(w, i)
    decreases n
  {
    if n == 0 {
      ZeroBit(i);
    } else {
      HighBitsClear(w / 2, n - 1, i - 1);
    }
  }

  lemma {:induction false} OrBound(a: nat, b: nat, n: nat)
    requires a < Pow2(n) && b < Pow2(n)
    ensures Or(a, b) < Pow2(n)
    decreases n
  {
    if n > 0 && !(a == 0 && b == 0) {
      OrBound(a / 2, b / 2, n - 1);
    }
  }

  lemma {:induction false} AndBound(a: nat, b: nat)
    ensures And(a, b) <= a
    decreases a
  {
    if a > 0 { AndBound(a / 2, b / 2); }
  }

  // ----- fields of a word

  /** x without its lowest n bits. */
  function Drop(x: nat, n: nat): nat
  {
    if n == 0 then x else Drop(x / 2, n - 1)
  }

  /** The lowest n bits of x. */
  function Keep(x: nat, n: nat): nat
  {
    if n == 0 then 0 else 2 * Keep(x / 2, n - 1) + x % 2
  }

  lemma {:induction false} DropBit(x: nat, n: nat, i: nat)
    ensures Bit(Drop(x, n), i) == Bit(x, n + i)
    decreases n
  {
    if n > 0 { DropBit(x / 2, n - 1, i); }
  }

  lemma {:induction false} KeepBit(x: nat, n: nat, i: nat)
    ensures Bit(Keep(x, n), i) == (i < n && Bit(x, i))
    decreases n
  {
    if n == 0 {
      ZeroBit(i);
    } else if i > 0 {
      KeepBit(x / 2, n - 1, i - 1);
    }
  }

  lemma {:induction false} DropKeep(x: nat, n: nat)
    ensures x == Drop(x, n) * Pow2(n) + Keep(x, n) && Keep(x, n) < Pow2(n)
    decreases n
  {
    if n > 0 {
      DropKeep(x / 2, n - 1);
      DoubleProduct(Drop(x, n), Pow2(n - 1));
    }
  }

  lemma DoubleProduct(d: nat, p: nat)
    ensures d * (2 * p) == 2 * (d * p)
  {
  }

  lemma DropTwelve(x: nat)
    ensures Drop(x, 12) == x / 0x1000
  {
    DropKeep(x, 12);
    Pow2Plus8(4);
    assert Pow2(4) == 16;
    var d := Drop(x, 12);
    assert x == d * 0x1000 + Keep(x, 12);
  }

  lemma KeepForty(x: nat, n: nat)
    requires n == 40
    ensures Keep(x, n) == x % 0x100_0000_0000
  {
    DropKeep(x, n);
    Pow2Of40();
    RemainderForty(x, Drop(x, n), Keep(x, n));
  }

  lemma RemainderForty(x: nat, d: nat, k: nat)
    requires x == d * 0x100_0000_0000 + k && k < 0x100_0000_0000
    ensures x % 0x100_0000_0000 == k
  {
  }

  /** The `width` bits of x from position `low` up. */
  function Field(x: nat, low: nat, width: nat): nat
  {
    Keep(Drop(x, low), width)
  }

  lemma FieldBit(x: nat, low: nat, width: nat, i: nat)
    ensures Bit(Field(x, low, width), i) == (i < width && Bit(x, low + i))
  {
    KeepBit(Drop(x, low), width, i);
    DropBit(x, low, i);
  }

  lemma FieldOfOr(a: nat, b: nat, low: nat, width: nat)
    ensures Field(Or(a, b), low, width) == Or(Field(a, low, width), Field(b, low, width))
  {
    var l, r := Field(Or(a, b), low, width), Or(Field(a, low, width), Field(b, low, width));
    forall i: nat ensures Bit(l, i) == Bit(r, i) {
      FieldBit(Or(a, b), low, width, i);
      OrBit(a, b, low + i);
      FieldBit(a, low, width, i);
      FieldBit(b, low, width, i);
      OrBit(Field(a, low, width), Field(b, low, width), i);
    }
    SameBitsSameWord(l, r);
  }

  lemma OrZero(a: nat)
    ensures Or(a, 0) == a && Or(0, a) == a
  {
    forall i: nat ensures Bit(Or(a, 0), i) == Bit(a, i) == Bit(Or(0, a), i) {
      OrBit(a, 0, i);
      OrBit(0, a, i);
      ZeroBit(i);
    }
    SameBitsSameWord(Or(a, 0), a);
    SameBitsSameWord(Or(0, a), a);
  }

  /** Or-ing in bits below a multiple of 2^n is addition. */
  lemma {:induction false} OrLow(a: nat, b: nat, n: nat)
    requires b < Pow2(n)
    ensures Or(a * Pow2(n), b) == a * Pow2(n) + b
    decreases n
  {
    if n == 0 {
      OrZero(a * Pow2(n));
    } else {
      var x := a * Pow2(n - 1);
      DoubleProduct(a, Pow2(n - 1));
      OrLow(a, b / 2, n - 1);
      OrDouble(x, b);
    }
  }

  lemma OrDouble(x: nat, b: nat)
    ensures Or(2 * x, b) == 2 * Or(x, b / 2) + b % 2
  {
  }

  ghost predicate Within(b: nat, a: nat)
  {
    forall i: nat :: Bit(b, i) ==> Bit(a, i)
  }

  /** Or-ing b in leaves a as it is exactly when b has no bit outside a. */
  lemma OrAbsorbs(a: nat, b: nat)
    ensures Or(a, b) == a <==> Within(b, a)
  {
    var w := Or(a, b);
    if Within(b, a) {
      forall i: nat ensures Bit(w, i) == Bit(a, i) { OrBit(a, b, i); }
      SameBitsSameWord(w, a);
    }
    if w == a {
      forall i: nat | Bit(b, i) ensures Bit(a, i) { OrBit(a, b, i); }
    }
  }

  // ----- the masks of the range operations

  /** `~0ULL << s`: the bits from s up. */
  function HighMask(s: nat): Word { Shl(ONES, s) }

  /** `~0ULL >> (63 - e)`: the bits up to and including e. */
  function LowMask(e: nat): Word
    requires e < 64
  {
    Shr(ONES, 63 - e)
  }

  /** `1ULL << s`. */
  function OneMask(s: nat): Word { Shl(1, s) }

  lemma {:induction false} Pow2Grows(i: nat, j: nat)
    requires i < j
    ensures 2 * Pow2(i) <= Pow2(j)
    decreases j
  {
    if i + 1 < j { Pow2Grows(i, j - 1); }
  }

  lemma Pow2Below64(s: nat)
    requires s < 64
    ensures 2 * Pow2(s) <= TWO64
  {
    Pow2Of64();
    Pow2Grows(s, 64);
  }

  lemma {:induction false} HighMaskValue(s: nat)
    requires s < 64
    ensures HighMask(s) == TWO64 - Pow2(s)
  {
    Pow2Below64(s);
    if s > 0 { HighMaskValue(s - 1); }
  }

  lemma {:induction false} ShrOnes(n: nat)
    requires n <= 64
    ensures Shr(ONES, n) == Pow2(64 - n) - 1
  {
    Pow2Of64();
    if n > 0 { ShrOnes(n - 1); }
  }

  lemma {:induction false} OneMaskValue(s: nat)
    requires s < 64
    ensures OneMask(s) == Pow2(s) < TWO64
  {
    Pow2Below64(s);
    if s > 0 { OneMaskValue(s - 1); }
  }

  lemma {:induction false} LowOnesBit(n: nat, i: nat)
    ensures Bit(Pow2(n) - 1, i) == (i < n)
  {
    if n == 0 {
      ZeroBit(i);
    } else if i > 0 {
      assert (Pow2(n) - 1) / 2 == Pow2(n - 1) - 1;
      LowOnesBit(n - 1, i - 1);
    }
  }

  lemma {:induction false} PowerBit(s: nat, i: nat)
    ensures Bit(Pow2(s), i) == (i == s)
  {
    if i == 0 {
    } else if s == 0 {
      ZeroBit(i - 1);
    } else {
      PowerBit(s - 1, i - 1);
    }
  }

  lemma HighMaskBit(s: nat, i: nat)
    requires s < 64 && i < 64
    ensures Bit(HighMask(s), i) == (s <= i)
  {
    HighMaskValue(s);
    Pow2Below64(s);
    LowOnesBit(s, i);
    NotBit(Pow2(s) - 1, i);
  }

  lemma LowMaskBit(e: nat, i: nat)
    requires e < 64
    ensures Bit(LowMask(e), i) == (i <= e)
  {
    ShrOnes(63 - e);
    LowOnesBit(e + 1, i);
  }

  lemma OneMaskBit(s: nat, i: nat)
    requires s < 64
    ensures Bit(OneMask(s), i) == (i == s)
  {
    OneMaskValue(s);
    PowerBit(s, i);
  }

  lemma OnesBit(i: nat)
    requires i < 64
    ensures Bit(ONES, i)
  {
    Pow2Of64();
    LowOnesBit(64, i);
  }

  // ----- words are determined by their bits

  /** Trailing zeros: the least set bit. */
  function Ctz(w: nat): (n: nat)
    requires w != 0
    ensures Bit(w, n) && Pow2(n) <= w
    ensures forall j: nat :: j < n ==> !Bit(w, j)
  {
    if w % 2 == 1 then 0
    else
      assert forall j: nat :: j > 0 ==> Bit(w, j) == Bit(w / 2, j - 1);
      1 + Ctz(w / 2)
  }

  lemma {:induction false} SameBitsSameWord(a: nat, b: nat)
    requires forall i: nat :: Bit(a, i) == Bit(b, i)
    ensures a == b
    decreases a + b
  {
    assert Bit(a, 0) == Bit(b, 0);
    if a + b > 0 {
      forall i: nat ensures Bit(a / 2, i) == Bit(b / 2, i) {
        assert Bit(a, i + 1) == Bit(b, i + 1);
      }
      SameBitsSameWord(a / 2, b / 2);
    }
  }

  lemma NoBitsIsZero(w: nat)
    ensures w == 0 <==> forall i: nat :: !Bit(w, i)
  {
    if w == 0 {
      forall i: nat ensures !Bit(w, i) { ZeroBit(i); }
    } else {
      var n := Ctz(w);
      assert exists i: nat :: Bit(w, i) by { assert Bit(w, n); }
    }
  }

  /** `FindFirstFreeBit`: -1 for a full word, else the lowest clear bit. */
  function FindFirstFreeBit(w: nat): (r: int)
    requires w < TWO64
    ensures r == -1 <==> forall i: nat :: i < 64 ==> Bit(w, i)
    ensures r != -1 ==> 0 <= r < 64 && !Bit(w, r) && forall j: nat :: j < r ==> Bit(w, j)
  {
    if w == ONES then
      assert forall i: nat :: i < 64 ==> Bit(w, i) by {
        forall i: nat | i < 64 ensures Bit(w, i) { OnesBit(i); }
      }
      -1
    else
      var n := Ctz(Not(w));
      FirstClear(w, n);
      n
  }

  lemma FirstClear(w: nat, n: nat)
    requires w < ONES && n == Ctz(Not(w))
    ensures n < 64 && !Bit(w, n) && forall j: nat :: j < n ==> Bit(w, j)
  {
    Pow2Of64();
    if n > 64 { Pow2Grows(64, n); }
    var u := Not(w);
    assert Pow2(n) <= u < Pow2(64);
    assert n < 64;
    forall j: nat | j <= n ensures Bit(w, j) == !Bit(u, j) { NotBit(w, j); }
  }

  // ----- population count

  function PopCount(w: nat): nat
  {
    if w == 0 then 0 else w % 2 + PopCount(w / 2)
  }

  /** The number of set bits among the lowest n. */
  function CountBits(w: nat, n: nat): nat
  {
    if n == 0 then 0 else CountBits(w, n - 1) + if Bit(w, n - 1) then 1 else 0
  }

  lemma {:induction false} CountBitsHalf(w: nat, n: nat)
    requires n > 0
    ensures CountBits(w, n) == w % 2 + CountBits(w / 2, n - 1)
  {
    if n > 1 { CountBitsHalf(w, n - 1); }
  }

  lemma {:induction false} PopCountIsCount(w: nat, n: nat)
    requires w < Pow2(n)
    ensures PopCount(w) == CountBits(w, n)
    decreases n
  {
    if n > 0 {
      CountBitsHalf(w, n);
      PopCountIsCount(w / 2, n - 1);
    }
  }

  lemma PopCountOnes()
    ensures PopCount(ONES) == 64
  {
    Pow2Of64();
    CountLowOnes(64);
  }

  lemma {:induction false} CountLowOnes(n: nat)
    ensures PopCount(Pow2(n) - 1) == n
  {
    if n > 0 {
      assert (Pow2(n) - 1) / 2 == Pow2(n - 1) - 1 && (Pow2(n) - 1) % 2 == 1;
      CountLowOnes(n - 1);
    }
  }

  // ----- exclusive or

  function Xor(a: nat, b: nat): nat
    decreases a + b
  {
    if a == 0 && b == 0 then 0
    else 2 * Xor(a / 2, b / 2) + if a % 2 != b % 2 then 1 else 0
  }

  lemma {:induction false} XorBit(a: nat, b: nat, i: nat)
    ensures Bit(Xor(a, b), i) == (Bit(a, i) != Bit(b, i))
    decreases i
  {
    if a == 0 && b == 0 {
      ZeroBit(i);
    } else if i > 0 {
      XorBit(a / 2, b / 2, i - 1);
    }
  }

  lemma XorHalf(a: nat, b: nat)
    ensures Xor(a, b) / 2 == Xor(a / 2, b / 2)
    ensures Xor(a, b) % 2 == if a % 2 != b % 2 then 1 else 0
  {
  }

  lemma XorComm(a: nat, b: nat)
    ensures Xor(a, b) == Xor(b, a)
  {
    forall i: nat ensures Bit(Xor(a, b), i) == Bit(Xor(b, a), i) {
      XorBit(a, b, i);
      XorBit(b, a, i);
    }
    SameBitsSameWord(Xor(a, b), Xor(b, a));
  }

  lemma XorAssoc(a: nat, b: nat, c: nat)
    ensures Xor(Xor(a, b), c) == Xor(a, Xor(b, c))
  {
    forall i: nat ensures Bit(Xor(Xor(a, b), c), i) == Bit(Xor(a, Xor(b, c)), i) {
      XorBit(a, b, i);
      XorBit(Xor(a, b), c, i);
      XorBit(b, c, i);
      XorBit(a, Xor(b, c), i);
    }
    SameBitsSameWord(Xor(Xor(a, b), c), Xor(a, Xor(b, c)));
  }

  lemma XorZero(a: nat)
    ensures Xor(a, 0) == a && Xor(a, a) == 0
  {
    forall i: nat ensures Bit(Xor(a, 0), i) == Bit(a, i) && !Bit(Xor(a, a), i) {
      XorBit(a, 0, i);
      XorBit(a, a, i);
      ZeroBit(i);
    }
    SameBitsSameWord(Xor(a, 0), a);
    NoBitsIsZero(Xor(a, a));
  }

  lemma {:induction false} XorBound(a: nat, b: nat, n: nat)
    requires a < Pow2(n) && b < Pow2(n)
    ensures Xor(a, b) < Pow2(n)
    decreases n
  {
    if n > 0 && a + b > 0 { XorBound(a / 2, b / 2, n - 1); }
  }

  /** The same value entering on both sides cancels. */
  lemma XorCancel(p: nat, x: nat, y: nat)
    ensures Xor(Xor(p, x), Xor(p, y)) == Xor(x, y)
    ensures Xor(p, Xor(x, y)) == Xor(Xor(p, x), y) == Xor(x, Xor(p, y))
  {
    hide Xor;
    XorComm(p, x);
    XorAssoc(x, p, Xor(p, y));
    XorAssoc(p, p, y);
    XorZero(p);
    XorComm(0, y);
    XorZero(y);
    XorAssoc(p, x, y);
    XorAssoc(x, p, y);
  }

  // ----- 32-bit words and bytes

  type Byte = b: nat | b < 256
  type Word32 = w: nat | w < 0x1_0000_0000

  lemma Pow2Of32()
    ensures Pow2(32) == 0x1_0000_0000
  {
    Pow2Of40();
    Pow2Plus8(16);
    Pow2Plus8(24);
  }

  function Xor32(a: Word32, b: Word32): Word32
  {
    Pow2Of32();
    XorBound(a, b, 32);
    Xor(a, b)
  }

  function Or32(a: Word32, b: Word32): Word32
  {
    Pow2Of32();
    OrBound(a, b, 32);
    Or(a, b)
  }

  function And32(a: Word32, b: Word32): Word32
  {
    AndBound(a, b);
    And(a, b)
  }

  function Not32(a: Word32): Word32 { 0xFFFF_FFFF - a }

  function Add32(a: Word32, b: Word32): Word32 { (a + b) % 0x1_0000_0000 }

  function Shr32(a: Word32, n: nat): Word32
  {
    if n == 0 then a else Shr32(a, n - 1) / 2
  }

  function Shl32(a: Word32, n: nat): Word32
  {
    if n == 0 then a else Shl32(a, n - 1) * 2 % 0x1_0000_0000
  }
}
