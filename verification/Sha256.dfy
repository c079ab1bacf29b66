/** The streaming SHA-256 of crypto/SHA256.c against FIPS 180-4. */
module Sha256 {
  import opened Divisors
  import opened Words

  // ----- FIPS 180-4, section 4.1.2 and 4.2.2

  function Rotr(x: Word32, n: nat): Word32
    requires 0 < n < 32
  {
    Or32(Shr32(x, n), Shl32(x, 32 - n))
  }

  function Xor3(x: Word32, y: Word32, z: Word32): Word32 { Xor32(Xor32(x, y), z) }

  function Ch(x: Word32, y: Word32, z: Word32): Word32 { Xor32(And32(x, y), And32(Not32(x), z)) }
  function Maj(x: Word32, y: Word32, z: Word32): Word32 { Xor3(And32(x, y), And32(x, z), And32(y, z)) }
  function Ep0(x: Word32): Word32 { Xor3(Rotr(x, 2), Rotr(x, 13), Rotr(x, 22)) }
  function Ep1(x: Word32): Word32 { Xor3(Rotr(x, 6), Rotr(x, 11), Rotr(x, 25)) }
  function Sig0(x: Word32): Word32 { Xor3(Rotr(x, 7), Rotr(x, 18), Shr32(x, 3)) }
  function Sig1(x: Word32): Word32 { Xor3(Rotr(x, 17), Rotr(x, 19), Shr32(x, 10)) }

  const K_0: seq<Word32> := [
    0x428a2f98, 0x71374491, 0xb5c0fbcf, 0xe9b5dba5, 0x3956c25b, 0x59f111f1, 0x923f82a4, 0xab1c5ed5,
    0xd807aa98, 0x12835b01, 0x243185be, 0x550c7dc3, 0x72be5d74, 0x80deb1fe, 0x9bdc06a7, 0xc19bf174
  ]
  const K_16: seq<Word32> := [
    0xe49b69c1, 0xefbe4786, 0x0fc19dc6, 0x240ca1cc, 0x2de92c6f, 0x4a7484aa, 0x5cb0a9dc, 0x76f988da,
    0x983e5152, 0xa831c66d, 0xb00327c8, 0xbf597fc7, 0xc6e00bf3, 0xd5a79147, 0x06ca6351, 0x14292967
  ]
  const K_32: seq<Word32> := [
    0x27b70a85, 0x2e1b2138, 0x4d2c6dfc, 0x53380d13, 0x650a7354, 0x766a0abb, 0x81c2c92e, 0x92722c85,
    0xa2bfe8a1, 0xa81a664b, 0xc24b8b70, 0xc76c51a3, 0xd192e819, 0xd6990624, 0xf40e3585, 0x106aa070
  ]
  const K_48: seq<Word32> := [
    0x19a4c116, 0x1e376c08, 0x2748774c, 0x34b0bcb5, 0x391c0cb3, 0x4ed8aa4a, 0x5b9cca4f, 0x682e6ff3,
    0x748f82ee, 0x78a5636f, 0x84c87814, 0x8cc70208, 0x90befffa, 0xa4506ceb, 0xbef9a3f7, 0xc67178f2
  ]
  const K: seq<Word32> := K_0 + K_16 + (K_32 + K_48)

  function Initial(): Chain
  {
    Chain(0x6a09e667, 0xbb67ae85, 0x3c6ef372, 0xa54ff53a, 0x510e527f, 0x9b05688c, 0x1f83d9ab, 0x5be0cd19)
  }

  /** The eight chaining words, also the eight working variables. */
  datatype Chain = Chain(a: Word32, b: Word32, c: Word32, d: Word32, e: Word32, f: Word32, g: Word32, h: Word32)

  /** Bit by bit: a choice, a majority, and a turn to the right. */
  lemma ChBit(x: Word32, y: Word32, z: Word32, i: nat)
    requires i < 32
    ensures Bit(Ch(x, y, z), i) == if Bit(x, i) then Bit(y, i) else Bit(z, i)
  {
    hide Xor, And, Bit;
    XorBit(And(x, y), And(Not32(x), z), i);
    AndBit(x, y, i);
    AndBit(Not32(x), z, i);
    Pow2Of32();
    ComplementBit(x, 32, i);
  }

  lemma MajBit(x: Word32, y: Word32, z: Word32, i: nat)
    ensures Bit(Maj(x, y, z), i) <==>
              (Bit(x, i) && Bit(y, i)) || (Bit(x, i) && Bit(z, i)) || (Bit(y, i) && Bit(z, i))
  {
    hide Xor, And, Bit;
    XorBit(Xor32(And32(x, y), And32(x, z)), And32(y, z), i);
    XorBit(And32(x, y), And32(x, z), i);
    AndBit(x, y, i);
    AndBit(x, z, i);
    AndBit(y, z, i);
  }

  lemma RotrBit(x: Word32, n: nat, i: nat)
    requires 0 < n < 32 && i < 32
    ensures Bit(Rotr(x, n), i) == Bit(x, (i + n) % 32)
  {
    hide Or, Bit, Shr32, Shl32;
    OrBit(Shr32(x, n), Shl32(x, 32 - n), i);
    Shr32Bit(x, n, i);
    Shl32Bit(x, 32 - n, i);
    if i + n >= 32 {
      Pow2Of32();
      HighBitsClear(x, 32, i + n);
    }
  }

  lemma {:induction false} Shr32Bit(x: Word32, n: nat, i: nat)
    ensures Bit(Shr32(x, n), i) == Bit(x, i + n)
    decreases n
  {
    if n > 0 { Shr32Bit(x, n - 1, i + 1); }
  }

  lemma {:induction false} Shl32Bit(x: Word32, n: nat, i: nat)
    requires i < 32
    ensures Bit(Shl32(x, n), i) == (i >= n && Bit(x, i - n))
    decreases n
  {
    hide Shl32;
    Shl32Step(x, n);
    if n > 0 {
      var y: nat := Shl32(x, n - 1);
      Pow2Of32();
      ModBit(2 * y, 32, i);
      DoubleBit(y, i);
      hide Bit;
      if i > 0 { Shl32Bit(x, n - 1, i - 1); }
    }
  }

  lemma Shl32Step(x: Word32, n: nat)
    ensures Shl32(x, n) == if n == 0 then x else 2 * Shl32(x, n - 1) % 0x1_0000_0000
  {
  }

  lemma DoubleBit(y: nat, i: nat)
    ensures Bit(2 * y, i) == (i > 0 && Bit(y, i - 1))
  {
  }

  lemma {:induction false} ModBit(y: nat, n: nat, i: nat)
    requires i < n
    ensures Bit(y % Pow2(n), i) == Bit(y, i)
    decreases i
  {
    HalfOfMod(y, Pow2(n - 1));
    if i > 0 { ModBit(y / 2, n - 1, i - 1); }
  }

  lemma HalfOfMod(y: nat, p: nat)
    requires p > 0
    ensures y % (2 * p) / 2 == y / 2 % p && y % (2 * p) % 2 == y % 2
  {
    var q, r := y / (2 * p), y % (2 * p);
    assert y == 2 * (q * p) + r;
    DivisionUnique(y / 2, p, q, r / 2);
  }

  /** The constants are the first 32 bits of the fractional parts of the cube roots of the first 64 primes. */
  predicate CubeRoot(prime: nat, floor: nat, k: nat)
  {
    var x := floor * 0x1_0000_0000 + k;
    x * x * x <= prime * 0x1_0000_0000_0000_0000_0000_0000 < (x + 1) * (x + 1) * (x + 1)
  }

  /** The initial words are those of the square roots of the first eight. */
  predicate SquareRoot(prime: nat, floor: nat, k: nat)
  {
    var x := floor * 0x1_0000_0000 + k;
    x * x <= prime * 0x1_0000_0000_0000_0000 < (x + 1) * (x + 1)
  }

  lemma Roots0()
    ensures CubeRoot(2, 1, K_0[0]) && CubeRoot(3, 1, K_0[1]) && CubeRoot(5, 1, K_0[2]) && CubeRoot(7, 1, K_0[3])
  {
  }

  lemma Roots4()
    ensures CubeRoot(11, 2, K_0[4]) && CubeRoot(13, 2, K_0[5]) && CubeRoot(17, 2, K_0[6]) && CubeRoot(19, 2, K_0[7])
  {
  }

  lemma Roots8()
    ensures CubeRoot(23, 2, K_0[8]) && CubeRoot(29, 3, K_0[9]) && CubeRoot(31, 3, K_0[10]) && CubeRoot(37, 3, K_0[11])
  {
  }

  lemma Roots12()
    ensures CubeRoot(41, 3, K_0[12]) && CubeRoot(43, 3, K_0[13]) && CubeRoot(47, 3, K_0[14]) && CubeRoot(53, 3, K_0[15])
  {
  }

  lemma Roots16()
    ensures CubeRoot(59, 3, K_16[0]) && CubeRoot(61, 3, K_16[1]) && CubeRoot(67, 4, K_16[2]) && CubeRoot(71, 4, K_16[3])
  {
  }

  lemma Roots20()
    ensures CubeRoot(73, 4, K_16[4]) && CubeRoot(79, 4, K_16[5]) && CubeRoot(83, 4, K_16[6]) && CubeRoot(89, 4, K_16[7])
  {
  }

  lemma Roots24()
    ensures CubeRoot(97, 4, K_16[8]) && CubeRoot(101, 4, K_16[9])
    ensures CubeRoot(103, 4, K_16[10]) && CubeRoot(107, 4, K_16[11])
  {
  }

  lemma Roots28()
    ensures CubeRoot(109, 4, K_16[12]) && CubeRoot(113, 4, K_16[13])
    ensures CubeRoot(127, 5, K_16[14]) && CubeRoot(131, 5, K_16[15])
  {
  }

  lemma Roots32()
    ensures CubeRoot(137, 5, K_32[0]) && CubeRoot(139, 5, K_32[1])
    ensures CubeRoot(149, 5, K_32[2]) && CubeRoot(151, 5, K_32[3])
  {
  }

  lemma Roots36()
    ensures CubeRoot(157, 5, K_32[4]) && CubeRoot(163, 5, K_32[5])
    ensures CubeRoot(167, 5, K_32[6]) && CubeRoot(173, 5, K_32[7])
  {
  }

  lemma Roots40()
    ensures CubeRoot(179, 5, K_32[8]) && CubeRoot(181, 5, K_32[9])
    ensures CubeRoot(191, 5, K_32[10]) && CubeRoot(193, 5, K_32[11])
  {
  }

  lemma Roots44()
    ensures CubeRoot(197, 5, K_32[12]) && CubeRoot(199, 5, K_32[13])
    ensures CubeRoot(211, 5, K_32[14]) && CubeRoot(223, 6, K_32[15])
  {
  }

  lemma Roots48()
    ensures CubeRoot(227, 6, K_48[0]) && CubeRoot(229, 6, K_48[1])
    ensures CubeRoot(233, 6, K_48[2]) && CubeRoot(239, 6, K_48[3])
  {
  }

  lemma Roots52()
    ensures CubeRoot(241, 6, K_48[4]) && CubeRoot(251, 6, K_48[5])
    ensures CubeRoot(257, 6, K_48[6]) && CubeRoot(263, 6, K_48[7])
  {
  }

  lemma Roots56()
    ensures CubeRoot(269, 6, K_48[8]) && CubeRoot(271, 6, K_48[9])
    ensures CubeRoot(277, 6, K_48[10]) && CubeRoot(281, 6, K_48[11])
  {
  }

  lemma Roots60()
    ensures CubeRoot(283, 6, K_48[12]) && CubeRoot(293, 6, K_48[13])
    ensures CubeRoot(307, 6, K_48[14]) && CubeRoot(311, 6, K_48[15])
  {
  }

  lemma RowsOfK()
    ensures |K| == 64
    ensures forall j :: 0 <= j < 16 ==>
              K[j] == K_0[j] && K[16 + j] == K_16[j] && K[32 + j] == K_32[j] && K[48 + j] == K_48[j]
  {
  }

  lemma InitialRoots()
    ensures var h := Initial();
            && SquareRoot(2, 1, h.a) && SquareRoot(3, 1, h.b) && SquareRoot(5, 2, h.c) && SquareRoot(7, 2, h.d)
            && SquareRoot(11, 3, h.e) && SquareRoot(13, 3, h.f) && SquareRoot(17, 4, h.g) && SquareRoot(19, 4, h.h)
  {
  }

  // ----- section 6.2.2: one block

  function BigEndianWord(block: seq<Byte>, i: nat): Word32
    requires 4 * i + 4 <= |block|
  {
    (block[4 * i] as nat) * 0x100_0000 + (block[4 * i + 1] as nat) * 0x1_0000
    + (block[4 * i + 2] as nat) * 0x100 + block[4 * i + 3]
  }

  /** The message schedule. */
  function W(block: seq<Byte>, i: nat): Word32
    requires |block| == 64
  {
    if i < 16 then BigEndianWord(block, i)
    else Add32(Add32(Add32(Sig1(W(block, i - 2)), W(block, i - 7)), Sig0(W(block, i - 15))), W(block, i - 16))
  }

  function Turn(v: Chain, k: Word32, w: Word32): Chain
  {
    var t1 := Add32(Add32(Add32(Add32(v.h, Ep1(v.e)), Ch(v.e, v.f, v.g)), k), w);
    var t2 := Add32(Ep0(v.a), Maj(v.a, v.b, v.c));
    Chain(Add32(t1, t2), v.a, v.b, v.c, Add32(v.d, t1), v.e, v.f, v.g)
  }

  function Turns(v: Chain, block: seq<Byte>, n: nat): Chain
    requires |block| == 64 && n <= 64
  {
    if n == 0 then v else Turn(Turns(v, block, n - 1), K[n - 1], W(block, n - 1))
  }

  function Add(x: Chain, y: Chain): Chain
  {
    Chain(Add32(x.a, y.a), Add32(x.b, y.b), Add32(x.c, y.c), Add32(x.d, y.d),
          Add32(x.e, y.e), Add32(x.f, y.f), Add32(x.g, y.g), Add32(x.h, y.h))
  }

  function Compress(h: Chain, block: seq<Byte>): Chain
    requires |block| == 64
  {
    Add(h, Turns(h, block, 64))
  }

  /** The fold of the compression function over whole blocks. */
  function Fold(h: Chain, bytes: seq<Byte>): Chain
    requires |bytes| % 64 == 0
  {
    if bytes == [] then h
    else
      var n := |bytes| - 64;
      Compress(Fold(h, bytes[..n]), bytes[n..])
  }

  // ----- section 5.1.1: padding

  function ByteOf(n: nat): Byte { n % 256 }

  /** The length field: 64 bits, most significant byte first. */
  function Length64(n: nat): (r: seq<Byte>)
    ensures |r| == 8
  {
    [ByteOf(n / 0x100_0000_0000_0000), ByteOf(n / 0x1_0000_0000_0000), ByteOf(n / 0x100_0000_0000),
     ByteOf(n / 0x1_0000_0000), ByteOf(n / 0x100_0000), ByteOf(n / 0x1_0000), ByteOf(n / 0x100), ByteOf(n)]
  }

  function Zeros(n: nat): (r: seq<Byte>)
    ensures |r| == n
  {
    seq(n, _ => 0)
  }

  /** The number of zero bytes between the 1 bit and the length field. */
  function ZeroCount(len: nat): nat { (119 - len % 64) % 64 }

  function Pad(msg: seq<Byte>): seq<Byte>
  {
    msg + [0x80] + Zeros(ZeroCount(|msg|)) + Length64(8 * |msg|)
  }

  lemma PadFillsBlocks(msg: seq<Byte>)
    ensures |Pad(msg)| % 64 == 0
  {
    hide Length64, Zeros;
    var q, r := |msg| / 64, |msg| % 64;
    assert ZeroCount(|msg|) == if r < 56 then 55 - r else 119 - r;
    assert |Pad(msg)| == if r < 56 then 64 * q + 64 else 64 * q + 128;
  }

  /** No shorter padding fills whole blocks. */
  lemma PadIsShortest(len: nat, k: nat)
    requires (len + 1 + k + 8) % 64 == 0
    ensures ZeroCount(len) <= k
  {
    var r := len % 64;
    assert (r + k + 9) % 64 == 0;
  }

  function Bytes(w: Word32): seq<Byte>
  {
    [w / 0x100_0000, w / 0x1_0000 % 256, w / 0x100 % 256, w % 256]
  }

  function Digest(h: Chain): seq<Byte>
  {
    Bytes(h.a) + Bytes(h.b) + Bytes(h.c) + Bytes(h.d) + Bytes(h.e) + Bytes(h.f) + Bytes(h.g) + Bytes(h.h)
  }

  /** Words, length and digest are big-endian. */
  lemma BigEndian(block: seq<Byte>, h: Chain)
    requires |block| >= 4 && block[..4] == [1, 2, 3, 4]
    ensures BigEndianWord(block, 0) == 0x01020304
    ensures Length64(0x0102_0304_0506_0708) == [1, 2, 3, 4, 5, 6, 7, 8]
    ensures h.a == 0x01020304 && h.h == 0x05060708 ==>
              |Digest(h)| == 32 && Digest(h)[..4] == [1, 2, 3, 4] && Digest(h)[28..] == [5, 6, 7, 8]
  {
    assert forall k :: 0 <= k < 4 ==> block[k] == block[..4][k];
  }

  /** SHA-256 of a message below 2^64 bits. */
  function Sha256(msg: seq<Byte>): seq<Byte>
  {
    PadFillsBlocks(msg);
    Digest(Fold(Initial(), Pad(msg)))
  }

  // ----- the last one or two blocks

  lemma FoldNothing(h: Chain)
    ensures Fold(h, []) == h
  {
  }

  lemma FoldAppend(h: Chain, bytes: seq<Byte>, block: seq<Byte>)
    requires |bytes| % 64 == 0 && |block| == 64
    ensures Fold(h, bytes + block) == Compress(Fold(h, bytes), block)
  {
    assert (bytes + block)[..|bytes|] == bytes && (bytes + block)[|bytes|..] == block;
  }

  lemma ShaByPad(msg: seq<Byte>)
    ensures |Pad(msg)| % 64 == 0 && Sha256(msg) == Digest(Fold(Initial(), Pad(msg)))
  {
    PadFillsBlocks(msg);
  }

  /** The tail fits with its length into one block. */
  lemma OneBlock(msg: seq<Byte>, done: seq<Byte>, tail: seq<Byte>)
    requires msg == done + tail && |done| % 64 == 0 && |tail| < 56
    ensures Pad(msg) == done + (tail + [0x80] + Zeros(55 - |tail|) + Length64(8 * |msg|))
  {
    assert ZeroCount(|msg|) == 55 - |tail|;
  }

  /** The tail leaves no room for the length: it takes a block of its own. */
  lemma TwoBlocks(msg: seq<Byte>, done: seq<Byte>, tail: seq<Byte>)
    requires msg == done + tail && |done| % 64 == 0 && 56 <= |tail| < 64
    ensures Pad(msg) == done + (tail + [0x80] + Zeros(63 - |tail|)) + (Zeros(56) + Length64(8 * |msg|))
  {
    assert ZeroCount(|msg|) == 119 - |tail|;
    assert Zeros(119 - |tail|) == Zeros(63 - |tail|) + Zeros(56);
  }

  // ----- the streaming implementation

  /** The bit counter advances with the blocks, modulo 2^64. */
  lemma CountBlock(n: nat)
    ensures (8 * n % TWO64 + 512) % TWO64 == 8 * (n + 64) % TWO64
    ensures (n + 64) % 64 == n % 64
  {
  }

  class Sha256Ctx {
    var data: array<Byte>
    var datalen: nat
    var bitlen: nat
    var state: Chain
    /** The whole blocks compressed so far. */
    ghost var blocks: seq<Byte>

    ghost predicate Valid()
      reads this, data
    {
      && data.Length == 64 && datalen < 64
      && |blocks| % 64 == 0
      && bitlen == 8 * |blocks| % TWO64
      && state == Fold(Initial(), blocks)
    }

    /** Everything absorbed so far. */
    ghost function Message(): seq<Byte>
      requires data.Length == 64 && datalen <= 64
      reads this, data
    {
      blocks + data[..datalen]
    }

    constructor ()
      ensures Valid() && Message() == [] && fresh(data)
    {
      hide Compress, Initial;
      data := new Byte[64];
      datalen := 0;
      bitlen := 0;
      blocks := [];
      state := Initial();
      new;
      FoldNothing(state);
    }

    /** The message schedule of the buffered block. */
    method Expand() returns (m: array<Word32>)
      requires data.Length == 64
      ensures fresh(m) && m.Length == 64 && forall k :: 0 <= k < 64 ==> m[k] == W(data[..], k)
    {
      hide Sig0, Sig1, Add32, BigEndianWord;
      m := new Word32[64];
      var i := 0;
      while i < 16
        invariant i <= 16
        invariant forall k :: 0 <= k < i ==> m[k] == W(data[..], k)
      {
        m[i] := BigEndianWord(data[..], i);
        i := i + 1;
      }
      while i < 64
        invariant 16 <= i <= 64
        invariant forall k :: 0 <= k < i ==> m[k] == W(data[..], k)
      {
        m[i] := Add32(Add32(Add32(Sig1(m[i - 2]), m[i - 7]), Sig0(m[i - 15])), m[i - 16]);
        i := i + 1;
      }
    }

    method Transform()
      requires data.Length == 64
      modifies this`state
      ensures state == Compress(old(state), data[..])
    {
      hide Ep0, Ep1, Ch, Maj, W, Add32;
      var m := Expand();
      ghost var block := data[..];
      var Chain(a, b, c, d, e, f, g, h) := state;
      var i := 0;
      while i < 64
        invariant i <= 64
        invariant Chain(a, b, c, d, e, f, g, h) == Turns(state, block, i)
      {
        var t1 := Add32(Add32(Add32(Add32(h, Ep1(e)), Ch(e, f, g)), K[i]), m[i]);
        var t2 := Add32(Ep0(a), Maj(a, b, c));
        h := g;
        g := f;
        f := e;
        e := Add32(d, t1);
        d := c;
        c := b;
        b := a;
        a := Add32(t1, t2);
        i := i + 1;
      }
      state := Add(state, Chain(a, b, c, d, e, f, g, h));
    }

    method Update(bytes: seq<Byte>)
      requires Valid()
      modifies this, data
      ensures Valid() && data == old(data)
      ensures Message() == old(Message()) + bytes
    {
      hide Fold, Initial;
      var i := 0;
      while i < |bytes|
        invariant i <= |bytes| && Valid() && data == old(data)
        invariant Message() == old(Message()) + bytes[..i]
      {
        Absorb(bytes[i]);
        assert bytes[..i + 1] == bytes[..i] + [bytes[i]];
        i := i + 1;
      }
      assert bytes[..i] == bytes;
    }

    /** One byte of an update. */
    method Absorb(b: Byte)
      requires Valid()
      modifies this, data
      ensures Valid() && data == old(data)
      ensures Message() == old(Message()) + [b]
    {
      hide Compress, Fold, Initial;
      data[datalen] := b;
      datalen := datalen + 1;
      assert data[..datalen] == old(data[..datalen]) + [b];
      if datalen == 64 {
        Flush();
      }
    }

    /** A full buffer is compressed. */
    method Flush()
      requires data.Length == 64 && datalen == 64
      requires |blocks| % 64 == 0 && bitlen == 8 * |blocks| % TWO64 && state == Fold(Initial(), blocks)
      modifies this
      ensures Valid() && data == old(data) && Message() == old(Message())
    {
      hide Compress, Fold, Initial;
      ghost var done := blocks + data[..];
      FoldAppend(Initial(), blocks, data[..]);
      CountBlock(|blocks|);
      assert |done| == |blocks| + 64;
      Transform();
      bitlen := (bitlen + 512) % TWO64;
      datalen := 0;
      blocks := done;
      assert data[..64] == data[..] && data[..0] == [];
    }

    /** Write the length field into the last eight bytes of the block. */
    method StoreLength()
      requires data.Length == 64
      modifies data
      ensures data[..] == old(data[..56]) + Length64(bitlen)
    {
      hide ByteOf;
      data[63], data[62], data[61], data[60], data[59], data[58], data[57], data[56] :=
        ByteOf(bitlen), ByteOf(bitlen / 0x100), ByteOf(bitlen / 0x1_0000), ByteOf(bitlen / 0x100_0000),
        ByteOf(bitlen / 0x1_0000_0000), ByteOf(bitlen / 0x100_0000_0000),
        ByteOf(bitlen / 0x1_0000_0000_0000), ByteOf(bitlen / 0x100_0000_0000_0000);
    }

    /** Clear part of the buffer. */
    method Clear(from: nat, to: nat)
      requires data.Length == 64 && from <= to <= 64
      modifies data
      ensures data[..] == old(data[..from]) + Zeros(to - from) + old(data[to..])
    {
      var i := from;
      while i < to
        invariant from <= i <= to
        invariant data[..] == old(data[..from]) + Zeros(i - from) + old(data[i..])
      {
        data[i] := 0;
        i := i + 1;
      }
    }

    method Final() returns (hash: seq<Byte>)
      requires Valid() && 8 * |Message()| < TWO64
      modifies this, data
      ensures hash == Sha256(old(Message()))
    {
      hide Compress, Fold, Digest, Length64, Pad, Zeros, Sha256, Initial;
      ghost var msg, tail, done := Message(), data[..datalen], blocks;
      ShaByPad(msg);
      var i := datalen;
      data[i] := 0x80;
      i := i + 1;
      if datalen < 56 {
        Clear(i, 56);
        assert data[..56] == tail + [0x80] + Zeros(55 - |tail|);
        OneBlock(msg, done, tail);
      } else {
        Clear(i, 64);
        assert data[..] == tail + [0x80] + Zeros(63 - |tail|);
        FoldAppend(Initial(), done, data[..]);
        TwoBlocks(msg, done, tail);
        done := done + data[..];
        Transform();
        Clear(0, 56);
        assert data[..56] == Zeros(56);
      }
      bitlen := (bitlen + datalen * 8) % TWO64;
      assert bitlen == 8 * |msg|;
      StoreLength();
      FoldAppend(Initial(), done, data[..]);
      assert Pad(msg) == done + data[..];
      Transform();
      hash := Digest(state);
    }
  }

  /** The chunks end to end. */
  function Joined(chunks: seq<seq<Byte>>): seq<Byte>
  {
    if chunks == [] then [] else Joined(chunks[..|chunks| - 1]) + chunks[|chunks| - 1]
  }

  /** However a message is cut into updates, the hash is that of the message. */
  method HashChunks(chunks: seq<seq<Byte>>) returns (hash: seq<Byte>)
    requires 8 * |Joined(chunks)| < TWO64
    ensures hash == Sha256(Joined(chunks))
  {
    hide Sha256;
    var ctx := new Sha256Ctx();
    var i := 0;
    while i < |chunks|
      invariant i <= |chunks| && ctx.Valid() && fresh(ctx) && fresh(ctx.data)
      invariant ctx.Message() == Joined(chunks[..i])
    {
      ctx.Update(chunks[i]);
      assert chunks[..i + 1][..i] == chunks[..i];
      i := i + 1;
    }
    assert chunks[..i] == chunks;
    hash := ctx.Final();
  }
}
