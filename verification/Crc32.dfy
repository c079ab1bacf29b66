/** The table-driven CRC-32 of crypto/CRC32.c. Registers are numbers below 2^32. */
module Crc32 {
  import opened Words

  const POLYNOMIAL: nat := 0xEDB8_8320
  const ALL_ONES: nat := 0xFFFF_FFFF

  // ----- the shift register

  /** One turn of the reflected shift register. */
  function Step(c: nat): nat
  {
    if c % 2 == 1 then Xor(POLYNOMIAL, c / 2) else c / 2
  }

  function Steps(c: nat, n: nat): nat
    decreases n
  {
    if n == 0 then c else Steps(Step(c), n - 1)
  }

  lemma StepLinear(a: nat, b: nat)
    ensures Step(Xor(a, b)) == Xor(Step(a), Step(b))
  {
    XorHalf(a, b);
    hide Xor;
    XorCancel(POLYNOMIAL, a / 2, b / 2);
  }

  lemma {:induction false} StepsLinear(a: nat, b: nat, n: nat)
    ensures Steps(Xor(a, b), n) == Xor(Steps(a, n), Steps(b, n))
    decreases n
  {
    hide Xor, Step;
    if n > 0 {
      StepLinear(a, b);
      StepsLinear(Step(a), Step(b), n - 1);
    }
  }

  // ----- the bit-serial definition

  /** Shift in one message bit. */
  function ShiftBit(c: nat, bit: nat): nat
  {
    if c % 2 != bit then Xor(POLYNOMIAL, c / 2) else c / 2
  }

  /** Shift in the lowest n bits of b, least significant first. */
  function ShiftBits(c: nat, b: nat, n: nat): nat
    decreases n
  {
    if n == 0 then c else ShiftBits(ShiftBit(c, b % 2), b / 2, n - 1)
  }

  function Register(c: nat, data: seq<Byte>): nat
  {
    if data == [] then c
    else ShiftBits(Register(c, data[..|data| - 1]), data[|data| - 1], 8)
  }

  /** CRC-32 as section 8 of RFC 1952 defines it, one message bit at a time. */
  function Crc(data: seq<Byte>): nat
  {
    Xor(Register(ALL_ONES, data), ALL_ONES)
  }

  /** Shifting in a bit of b leaves the rest of b to be xor-ed in. */
  lemma TurnTakesBit(c: nat, b: nat)
    ensures Step(Xor(c, b)) == Xor(ShiftBit(c, b % 2), b / 2)
  {
    XorHalf(c, b);
    hide Xor;
    XorCancel(POLYNOMIAL, c / 2, b / 2);
  }

  /** Shifting in n bits is xor-ing them in and taking n turns. */
  lemma {:induction false} ShiftBitsIsSteps(c: nat, b: nat, n: nat)
    ensures Steps(Xor(c, b), n) == Xor(ShiftBits(c, b, n), Drop(b, n))
    decreases n
  {
    hide Xor, Step, ShiftBit;
    if n > 0 {
      TurnTakesBit(c, b);
      ShiftBitsIsSteps(ShiftBit(c, b % 2), b / 2, n - 1);
    }
  }

  lemma {:induction false} DropSmall(b: nat, n: nat)
    requires b < Pow2(n)
    ensures Drop(b, n) == 0
    decreases n
  {
    if n > 0 { DropSmall(b / 2, n - 1); }
  }

  lemma WordIsSteps(c: nat, b: nat, n: nat)
    requires b < Pow2(n)
    ensures ShiftBits(c, b, n) == Steps(Xor(c, b), n)
  {
    ShiftBitsIsSteps(c, b, n);
    DropSmall(b, n);
    XorZero(ShiftBits(c, b, n));
  }

  // ----- the table

  /** The eight turns precomputed for every byte. */
  function Entry(i: nat): nat { Steps(i, 8) }

  /** `crc32_table[(crc ^ p[i]) & 0xFF] ^ (crc >> 8)` */
  function TableByte(c: nat, b: Byte): nat
  {
    Xor(Entry(Xor(c, b) % 256), c / 256)
  }

  lemma {:induction false} XorLow(a: nat, b: nat, n: nat)
    requires b < Pow2(n)
    ensures Xor(a * Pow2(n), b) == a * Pow2(n) + b
    decreases n
  {
    if n == 0 {
      XorZero(a * Pow2(n));
    } else {
      DoubleProduct(a, Pow2(n - 1));
      XorLow(a, b / 2, n - 1);
      XorDouble(a * Pow2(n - 1), b);
    }
  }

  lemma XorDouble(x: nat, b: nat)
    ensures Xor(2 * x, b) == 2 * Xor(x, b / 2) + b % 2
  {
  }

  lemma {:induction false} ZeroBitsDrop(x: nat, n: nat)
    ensures Steps(x * Pow2(n), n) == x
    decreases n
  {
    if n > 0 {
      DoubleProduct(x, Pow2(n - 1));
      ZeroBitsDrop(x, n - 1);
    }
  }

  lemma {:induction false} DropXor(a: nat, b: nat, n: nat)
    ensures Drop(Xor(a, b), n) == Xor(Drop(a, n), Drop(b, n))
    decreases n
  {
    if n > 0 {
      XorHalf(a, b);
      DropXor(a / 2, b / 2, n - 1);
    }
  }

  lemma DropEight(w: nat, n: nat)
    requires n == 8
    ensures Drop(w, n) == w / 256 && Keep(w, n) == w % 256
  {
    DropKeep(w, n);
    Pow2Of40();
  }

  /** A register is turned eight times by looking its low byte up. */
  lemma StepsByByte(x: nat, n: nat)
    requires n == 8
    ensures Steps(x, n) == Xor(Steps(x % 256, n), x / 256)
  {
    hide Xor, Steps;
    var low, high := x % 256, x / 256;
    Pow2Of40();
    XorLow(high, low, n);
    assert high * Pow2(n) + low == x;
    StepsLinear(high * Pow2(n), low, n);
    ZeroBitsDrop(high, n);
    XorComm(high, Steps(low, n));
  }

  /** One table step is eight bit-serial shifts. */
  lemma TableByteIsShift(c: nat, b: Byte)
    ensures TableByte(c, b) == ShiftBits(c, b, 8)
  {
    TableByteIsShiftBy(c, b, 8);
  }

  lemma TableByteIsShiftBy(c: nat, b: Byte, n: nat)
    requires n == 8
    ensures TableByte(c, b) == ShiftBits(c, b, n)
  {
    hide Xor, Steps, ShiftBits, Drop, Keep;
    StepsByByte(Xor(c, b), n);
    DropXor(c, b, n);
    DropEight(Xor(c, b), n);
    DropEight(c, n);
    DropEight(b, n);
    XorZero(c / 256);
    Pow2Of40();
    WordIsSteps(c, b, n);
  }

  /** The static table and its lazy initialisation. */
  class Crc32State {
    var table: array<nat>
    var generated: bool

    ghost predicate Valid()
      reads this, table
    {
      table.Length == 256 && (generated ==> forall i :: 0 <= i < 256 ==> table[i] == Entry(i))
    }

    constructor ()
      ensures Valid() && fresh(table) && !generated
    {
      table := new nat[256];
      generated := false;
    }

    method CRC32Init()
      requires Valid()
      modifies table
      ensures forall i :: 0 <= i < 256 ==> table[i] == Entry(i)
    {
      var i := 0;
      while i < 256
        invariant i <= 256
        invariant forall k :: 0 <= k < i ==> table[k] == Entry(k)
      {
        var c, j := i, 0;
        while j < 8
          invariant j <= 8 && Steps(c, 8 - j) == Entry(i)
        {
          if c % 2 == 1 {
            c := Xor(POLYNOMIAL, c / 2);
          } else {
            c := c / 2;
          }
          j := j + 1;
        }
        table[i] := c;
        i := i + 1;
      }
    }

    method CRC32(data: seq<Byte>) returns (crc: nat)
      requires Valid()
      modifies this, table
      ensures Valid() && generated && table == old(table)
      ensures crc == Crc(data)
    {
      if !generated {
        CRC32Init();
        generated := true;
      }
      crc := ALL_ONES;
      var i := 0;
      while i < |data|
        invariant i <= |data| && Valid() && generated && table == old(table)
        invariant crc == Register(ALL_ONES, data[..i])
      {
        TableByteIsShift(crc, data[i]);
        assert data[..i + 1][..i] == data[..i];
        crc := Xor(table[Xor(crc, data[i]) % 256], crc / 256);
        i := i + 1;
      }
      assert data[..i] == data;
      crc := Xor(crc, ALL_ONES);
    }
  }

  // ----- the residue

  lemma {:induction false} ShiftConcat(c: nat, w: nat, n: nat, m: nat)
    ensures ShiftBits(c, w, n + m) == ShiftBits(ShiftBits(c, w, n), Drop(w, n), m)
    decreases n
  {
    hide ShiftBit;
    if n > 0 { ShiftConcat(ShiftBit(c, w % 2), w / 2, n - 1, m); }
  }

  lemma {:induction false} ShiftKeep(c: nat, w: nat, n: nat)
    ensures ShiftBits(c, Keep(w, n), n) == ShiftBits(c, w, n)
    decreases n
  {
    hide ShiftBit;
    if n > 0 { ShiftKeep(ShiftBit(c, w % 2), w / 2, n - 1); }
  }

  /** The four bytes of a word, least significant first. */
  function LittleEndian(w: nat): seq<Byte>
  {
    [w % 256, w / 0x100 % 256, w / 0x1_0000 % 256, w / 0x100_0000 % 256]
  }

  /** Feeding the low byte and then the rest. */
  lemma FeedByte(c: nat, w: nat, m: nat)
    ensures ShiftBits(c, w, 8 + m) == ShiftBits(ShiftBits(c, w % 256, 8), w / 256, m)
  {
    ShiftConcat(c, w, 8, m);
    ShiftKeep(c, w, 8);
    DropEight(w, 8);
  }

  lemma RegisterAppend(c: nat, data: seq<Byte>, b: Byte)
    ensures Register(c, data + [b]) == ShiftBits(Register(c, data), b, 8)
  {
    assert (data + [b])[..|data|] == data;
  }

  lemma FeedWord(c: nat, data: seq<Byte>, w: nat)
    requires w < 0x1_0000_0000
    ensures Register(c, data + LittleEndian(w)) == ShiftBits(Register(c, data), w, 32)
  {
    hide ShiftBits;
    var r := Register(c, data);
    var w1, w2, w3 := w / 256, w / 0x1_0000, w / 0x100_0000;
    var b0: Byte, b1: Byte, b2: Byte, b3: Byte := w % 256, w1 % 256, w2 % 256, w3 % 256;
    FeedByte(r, w, 24);
    FeedByte(ShiftBits(r, b0, 8), w1, 16);
    FeedByte(ShiftBits(ShiftBits(r, b0, 8), b1, 8), w2, 8);
    var d1 := data + [b0];
    var d2 := d1 + [b1];
    var d3 := d2 + [b2];
    RegisterAppend(c, data, b0);
    RegisterAppend(c, d1, b1);
    RegisterAppend(c, d2, b2);
    RegisterAppend(c, d3, b3);
    assert data + LittleEndian(w) == d3 + [b3];
  }

  /** Four bytes of ones empty the register, so their CRC is all ones. */
  lemma CrcOfOnes()
    ensures Crc([0xFF, 0xFF, 0xFF, 0xFF]) == 0xFFFF_FFFF
  {
    hide Xor, Register, ShiftBits;
    var one: seq<Byte> := [0xFF];
    FeedOnes([], 0xFF_FFFF);
    assert [] + one == one;
    FeedOnes(one, 0xFFFF);
    FeedOnes(one + one, 0xFF);
    FeedOnes(one + one + one, 0);
    assert one + one + one + one == [0xFF, 0xFF, 0xFF, 0xFF];
    XorComm(0, ALL_ONES);
    XorZero(ALL_ONES);
  }

  lemma FeedOnes(data: seq<Byte>, rest: nat)
    requires data == [] || Register(ALL_ONES, data) == 256 * rest + 255
    requires data == [] ==> ALL_ONES == 256 * rest + 255
    ensures Register(ALL_ONES, data + [0xFF]) == rest
  {
    hide Xor, ShiftBits;
    var d := data + [0xFF];
    assert d[..|d| - 1] == data && d[|d| - 1] == 0xFF;
    assert Pow2(8) == 256 by { Pow2Plus8(0); }
    OnesOut(256 * rest + 255, 0xFF, 8, rest);
  }

  /** Equal bits leave without feedback. */
  lemma {:induction false} OnesOut(c: nat, b: nat, n: nat, rest: nat)
    requires c == Pow2(n) * rest + Pow2(n) - 1 && b == Pow2(n) - 1
    ensures ShiftBits(c, b, n) == rest
    decreases n
  {
    if n > 0 {
      hide Xor;
      var p := Pow2(n - 1);
      assert Pow2(n) * rest == 2 * (p * rest);
      HalfOfOnes(p * rest, p);
      OnesOut(c / 2, b / 2, n - 1, rest);
    }
  }

  lemma HalfOfOnes(m: nat, p: nat)
    requires p > 0
    ensures (2 * m + 2 * p - 1) / 2 == m + p - 1 && (2 * m + 2 * p - 1) % 2 == 1
    ensures (2 * p - 1) / 2 == p - 1 && (2 * p - 1) % 2 == 1
  {
  }

  /** Byte 0x80 of the table is the reflected polynomial of IEEE 802.3, and no bytes give 0. */
  lemma TableAt128()
    ensures Steps(0x80, 8) == 0xEDB8_8320 && Crc([]) == 0
  {
    hide Xor;
    assert Steps(0x80, 8) == Steps(1, 1) by {
      assert Step(0x80) == 0x40 && Step(0x40) == 0x20 && Step(0x20) == 0x10 && Step(0x10) == 8;
      assert Step(8) == 4 && Step(4) == 2 && Step(2) == 1;
      assert Steps(0x80, 8) == Steps(0x40, 7) == Steps(0x20, 6) == Steps(0x10, 5) == Steps(8, 4);
      assert Steps(8, 4) == Steps(4, 3) == Steps(2, 2) == Steps(1, 1);
    }
    assert Steps(1, 1) == Step(1) == Xor(POLYNOMIAL, 0);
    XorZero(POLYNOMIAL);
    XorZero(ALL_ONES);
  }

  /** What every message followed by its own CRC checks to. */
  function Residue(): nat { Xor(Steps(ALL_ONES, 32), ALL_ONES) }

  /** Appending a message's CRC in little-endian order always gives the same residue. */
  lemma ConstantResidue(data: seq<Byte>)
    ensures Crc(data) < 0x1_0000_0000
    ensures Crc(data + LittleEndian(Crc(data))) == Residue()
  {
    hide Xor, ShiftBits, Steps;
    var r := Register(ALL_ONES, data);
    var w := Crc(data);
    CrcIsWord(data);
    FeedWord(ALL_ONES, data, w);
    Pow2Of32();
    WordIsSteps(r, w, 32);
    XorAssoc(r, r, ALL_ONES);
    XorZero(r);
    XorComm(0, ALL_ONES);
    XorZero(ALL_ONES);
  }

  lemma CrcIsWord(data: seq<Byte>)
    ensures Crc(data) < 0x1_0000_0000
  {
    Pow2Of32();
    RegisterIsWord(data);
    XorBound(Register(ALL_ONES, data), ALL_ONES, 32);
  }

  lemma {:induction false} RegisterIsWord(data: seq<Byte>)
    ensures Register(ALL_ONES, data) < 0x1_0000_0000
  {
    if data != [] {
      RegisterIsWord(data[..|data| - 1]);
      ShiftIsWord(Register(ALL_ONES, data[..|data| - 1]), data[|data| - 1], 8);
    }
  }

  lemma {:induction false} ShiftIsWord(c: nat, b: nat, n: nat)
    requires c < 0x1_0000_0000
    ensures ShiftBits(c, b, n) < 0x1_0000_0000
    decreases n
  {
    if n > 0 {
      Pow2Of32();
      XorBound(POLYNOMIAL, c / 2, 32);
      ShiftIsWord(ShiftBit(c, b % 2), b / 2, n - 1);
    }
  }
}
