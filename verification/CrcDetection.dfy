// What the CRC-32 detects: the register as an injection on bursts, and the residue of a protected block.
module CrcDetection {
  import opened Bytes
  import opened Crc32

  type bit = bv1

  // ---- single words ----

  // A bit put below a word.
  function Push(b: bit, w: bv32): bv32 {
    (b as bv32) | (w << 1)
  }

  ghost predicate TopClear(w: bv32) {
    w & 0x7FFFFFFF == w
  }

  lemma PushPartsWord(b: bit, w: bv32)
    ensures ((b as bv32) | (w << 1)) & 1 == b as bv32
    ensures ((b as bv32) | (w << 1)) >> 1 == w & 0x7FFFFFFF
    ensures (b as bv32) | (w << 1) == (b as bv32) ^ (w << 1)
  {
  }

  lemma BitFits(a: bit, b: bit)
    ensures a as bv32 == b as bv32 ==> a == b
  {
  }

  lemma PushInjective(a: bit, x: bv32, b: bit, y: bv32)
    requires TopClear(x) && TopClear(y)
    requires Push(a, x) == Push(b, y)
    ensures a == b && x == y
  {
    PushPartsWord(a, x);
    PushPartsWord(b, y);
    BitFits(a, b);
  }

  lemma DoubledWord(w: bv32)
    ensures (w << 1) & 1 == 0
    ensures (w << 1) >> 1 == w & 0x7FFFFFFF
  {
  }

  lemma DoubledStep(w: bv32)
    requires TopClear(w)
    ensures BitStep(w << 1) == w
  {
    DoubledWord(w);
  }

  lemma PushIsXor(b: bit, w: bv32)
    ensures Push(b, w) == Xor(b as bv32, w << 1)
  {
    PushPartsWord(b, w);
  }

  // The step drops the low bit and leaves the rest of the word where the next step wants it.
  lemma PushStep(r: bv32, b: bit, w: bv32)
    requires TopClear(w)
    ensures BitStep(Xor(r, Push(b, w))) == Xor(BitStep(Xor(r, b as bv32)), w)
  {
    hide BitStep, Xor, Push, TopClear;
    PushIsXor(b, w);
    XorAssociates(r, b as bv32, w << 1);
    BitStepLinear(Xor(r, b as bv32), w << 1);
    DoubledStep(w);
  }

  // ---- bits, in the order the register consumes them ----

  function BitsOf(b: byte): (s: seq<bit>)
    ensures |s| == 8
  {
    [(b & 1) as bit, ((b >> 1) & 1) as bit, ((b >> 2) & 1) as bit, ((b >> 3) & 1) as bit,
     ((b >> 4) & 1) as bit, ((b >> 5) & 1) as bit, ((b >> 6) & 1) as bit, ((b >> 7) & 1) as bit]
  }

  // Bit 8k + j of a byte string is bit j of byte k.
  function Bits(data: seq<byte>): (s: seq<bit>)
    ensures |s| == 8 * |data|
  {
    if data == [] then [] else BitsOf(data[0]) + Bits(data[1..])
  }

  function BitReg(r: bv32, bits: seq<bit>): bv32
    decreases bits
  {
    if bits == [] then r else BitReg(BitStep(Xor(r, bits[0] as bv32)), bits[1..])
  }

  // A run of bits as a number, the first bit lowest.
  function Word(bits: seq<bit>): bv32 {
    if bits == [] then 0 else Push(bits[0], Word(bits[1..]))
  }

  function Mask(n: nat): bv32 {
    if n == 0 then 0 else Push(1, Mask(n - 1))
  }

  ghost predicate Within(w: bv32, m: bv32) {
    w & m == w
  }

  lemma WithinWord(b: bit, w: bv32, m: bv32)
    requires w & m == w
    ensures ((b as bv32) | (w << 1)) & (((1 as bit) as bv32) | (m << 1)) == (b as bv32) | (w << 1)
  {
  }

  lemma PushWithin(b: bit, w: bv32, m: bv32)
    requires Within(w, m)
    ensures Within(Push(b, w), Push(1, m))
  {
    WithinWord(b, w, m);
  }

  lemma ZeroWithin(m: bv32)
    ensures Within(0, m)
  {
  }

  lemma {:induction false} WordInMask(bits: seq<bit>)
    ensures Within(Word(bits), Mask(|bits|))
  {
    hide Within, Push;
    if bits == [] {
      ZeroWithin(Mask(0));
    } else {
      WordInMask(bits[1..]);
      PushWithin(bits[0], Word(bits[1..]), Mask(|bits| - 1));
    }
  }

  lemma {:induction false} MaskMonotone(n: nat, k: nat)
    requires n <= k
    ensures Within(Mask(n), Mask(k))
  {
    hide Within, Push;
    if n == 0 {
      ZeroWithin(Mask(k));
    } else {
      MaskMonotone(n - 1, k - 1);
      PushWithin(1, Mask(n - 1), Mask(k - 1));
    }
  }

  lemma PushFourWord(a: bit, b: bit, c: bit, d: bit, w: bv32)
    ensures (a as bv32) | (((b as bv32) | (((c as bv32) | (((d as bv32) | (w << 1)) << 1)) << 1)) << 1) ==
            (a as bv32) | ((b as bv32) << 1) | ((c as bv32) << 2) | ((d as bv32) << 3) | (w << 4)
  {
  }

  lemma PushFour(a: bit, b: bit, c: bit, d: bit, w: bv32)
    ensures Push(a, Push(b, Push(c, Push(d, w)))) ==
            (a as bv32) | ((b as bv32) << 1) | ((c as bv32) << 2) | ((d as bv32) << 3) | (w << 4)
  {
    PushFourWord(a, b, c, d, w);
  }

  function FourOnes(w: bv32): bv32 {
    (w << 4) | 0xF
  }

  lemma FourOnesWord(w: bv32)
    ensures ((1 as bit) as bv32) | (((1 as bit) as bv32) << 1) | (((1 as bit) as bv32) << 2)
            | (((1 as bit) as bv32) << 3) | (w << 4)
            == (w << 4) | 0xF
  {
  }

  lemma PushFourOnes(w: bv32)
    ensures Push(1, Push(1, Push(1, Push(1, w)))) == FourOnes(w)
  {
    hide Push;
    PushFour(1, 1, 1, 1, w);
    FourOnesWord(w);
  }

  lemma MaskByFour(n: nat)
    ensures Mask(n + 4) == FourOnes(Mask(n))
  {
    hide Push, FourOnes;
    assert Mask(n + 2) == Push(1, Push(1, Mask(n)));
    assert Mask(n + 4) == Push(1, Push(1, Mask(n + 2)));
    PushFourOnes(Mask(n));
  }

  lemma Mask3()
    ensures Mask(3) == 7
  {
    assert Mask(1) == Push(1, Mask(0));
    assert Mask(2) == Push(1, Mask(1));
  }

  lemma Mask31()
    ensures Mask(31) == 0x7FFFFFFF
  {
    Mask3();
    MaskByFour(3);
    MaskByFour(7);
    MaskByFour(11);
    MaskByFour(15);
    MaskByFour(19);
    MaskByFour(23);
    MaskByFour(27);
  }

  lemma CoveredWord(w: bv32, m: bv32)
    requires w & m == w && m & 0x7FFFFFFF == m
    ensures w & 0x7FFFFFFF == w
  {
  }

  lemma Covered(w: bv32, m: bv32)
    requires Within(w, m) && Within(m, 0x7FFFFFFF)
    ensures TopClear(w)
  {
    CoveredWord(w, m);
  }

  lemma WordTop(bits: seq<bit>)
    requires |bits| < 32
    ensures TopClear(Word(bits))
  {
    hide Within, Push, TopClear;
    WordInMask(bits);
    MaskMonotone(|bits|, 31);
    Mask31();
    Covered(Word(bits), Mask(|bits|));
  }

  // Up to 32 bits enter the register as one word xor-ed in before the steps.
  lemma {:induction false} BitRegIsIter(r: bv32, bits: seq<bit>)
    requires |bits| <= 32
    ensures BitReg(r, bits) == Iter(|bits|, Xor(r, Word(bits)))
    decreases bits
  {
    hide BitStep, Push, TopClear, Xor;
    if bits == [] {
      XorZero(r);
    } else {
      WordTop(bits[1..]);
      PushStep(r, bits[0], Word(bits[1..]));
      BitRegIsIter(BitStep(Xor(r, bits[0] as bv32)), bits[1..]);
    }
  }

  lemma {:induction false} WordInjective(a: seq<bit>, b: seq<bit>)
    requires |a| == |b| <= 32
    requires Word(a) == Word(b)
    ensures a == b
  {
    hide Push, TopClear;
    if a != [] {
      WordTop(a[1..]);
      WordTop(b[1..]);
      PushInjective(a[0], Word(a[1..]), b[0], Word(b[1..]));
      WordInjective(a[1..], b[1..]);
      assert a == [a[0]] + a[1..] && b == [b[0]] + b[1..];
    }
  }

  // A byte put below a word.
  function PushByte(b: byte, w: bv32): bv32 {
    (b as bv32) | (w << 8)
  }

  lemma PushByteWord(b: byte, w: bv32)
    ensures var x := (b as bv32);
            (((b & 1) as bit) as bv32) | ((((b >> 1) & 1) as bit) as bv32 << 1)
            | ((((b >> 2) & 1) as bit) as bv32 << 2) | ((((b >> 3) & 1) as bit) as bv32 << 3)
            | (((((((b >> 4) & 1) as bit) as bv32) | ((((b >> 5) & 1) as bit) as bv32 << 1)
            | ((((b >> 6) & 1) as bit) as bv32 << 2) | ((((b >> 7) & 1) as bit) as bv32 << 3) | (w << 4))) << 4)
            == x | (w << 8)
  {
  }

  lemma WordOfByte(b: byte, rest: seq<bit>)
    ensures Word(BitsOf(b) + rest) == PushByte(b, Word(rest))
  {
    hide Push;
    var s := BitsOf(b) + rest;
    WordFour(s);
    WordFour(s[4..]);
    assert s[4..][4..] == rest;
    PushByteWord(b, Word(rest));
  }

  lemma WordFour(s: seq<bit>)
    requires |s| >= 4
    ensures Word(s) ==
            (s[0] as bv32) | ((s[1] as bv32) << 1) | ((s[2] as bv32) << 2) | ((s[3] as bv32) << 3) | (Word(s[4..]) << 4)
  {
    hide Push;
    assert s[1..][1..] == s[2..] && s[2..][1..] == s[3..] && s[3..][1..] == s[4..];
    assert Word(s[2..]) == Push(s[2], Push(s[3], Word(s[4..])));
    assert Word(s) == Push(s[0], Push(s[1], Word(s[2..])));
    PushFour(s[0], s[1], s[2], s[3], Word(s[4..]));
  }

  lemma PushByteZero(b: byte)
    ensures PushByte(b, 0) == b as bv32
  {
  }

  lemma ByteWord(b: byte)
    ensures Word(BitsOf(b)) == b as bv32
  {
    hide BitsOf, PushByte;
    WordOfByte(b, []);
    assert BitsOf(b) + [] == BitsOf(b);
    PushByteZero(b);
  }

  lemma ByteIsBits(r: bv32, b: byte)
    ensures ByteStep(r, b) == BitReg(r, BitsOf(b))
  {
    hide BitsOf, BitReg, Word, Iter, Xor;
    BitRegIsIter(r, BitsOf(b));
    ByteWord(b);
  }

  lemma {:induction false} BitRegConcat(r: bv32, a: seq<bit>, b: seq<bit>)
    ensures BitReg(r, a + b) == BitReg(BitReg(r, a), b)
    decreases a
  {
    hide BitStep, Xor;
    if a == [] {
      assert a + b == b;
    } else {
      assert (a + b)[1..] == a[1..] + b;
      BitRegConcat(BitStep(Xor(r, a[0] as bv32)), a[1..], b);
    }
  }

  lemma {:induction false} RegIsBitReg(r: bv32, data: seq<byte>)
    ensures Reg(r, data) == BitReg(r, Bits(data))
    decreases data
  {
    hide BitsOf, BitStep, ByteStep, Xor;
    if data != [] {
      ByteIsBits(r, data[0]);
      RegIsBitReg(ByteStep(r, data[0]), data[1..]);
      BitRegConcat(r, BitsOf(data[0]), Bits(data[1..]));
    }
  }

  lemma ByteFits(a: byte, b: byte)
    ensures a as bv32 == b as bv32 ==> a == b
  {
  }

  lemma {:induction false} BitsInjective(a: seq<byte>, b: seq<byte>)
    requires |a| == |b|
    requires Bits(a) == Bits(b)
    ensures a == b
  {
    hide BitsOf, Word;
    if a != [] {
      assert BitsOf(a[0]) == Bits(a)[..8] == Bits(b)[..8] == BitsOf(b[0]);
      ByteWord(a[0]);
      ByteWord(b[0]);
      ByteFits(a[0], b[0]);
      assert Bits(a[1..]) == Bits(a)[8..] == Bits(b)[8..] == Bits(b[1..]);
      BitsInjective(a[1..], b[1..]);
      assert a == [a[0]] + a[1..] && b == [b[0]] + b[1..];
    }
  }

  // ---- error detection ----

  // Equal tails are an injection on the register.
  lemma {:induction false} BitRegInjective(x: bv32, y: bv32, bits: seq<bit>)
    requires BitReg(x, bits) == BitReg(y, bits)
    ensures x == y
    decreases bits
  {
    hide BitStep, Xor;
    if bits != [] {
      var l := bits[0] as bv32;
      BitRegInjective(BitStep(Xor(x, l)), BitStep(Xor(y, l)), bits[1..]);
      BitStepInjective(Xor(x, l), Xor(y, l));
      XorCancels(x, l);
      XorCancels(y, l);
    }
  }

  // Two bit strings that differ only inside one window of at most 32 bits.
  ghost predicate DifferInBurst(a: seq<bit>, b: seq<bit>, at: nat, width: nat) {
    && |a| == |b|
    && at + width <= |a|
    && width <= 32
    && a[..at] == b[..at]
    && a[at + width..] == b[at + width..]
  }

  lemma BitBurstDetected(r: bv32, a: seq<bit>, b: seq<bit>, at: nat, width: nat)
    requires DifferInBurst(a, b, at, width)
    requires BitReg(r, a) == BitReg(r, b)
    ensures a == b
  {
    hide BitReg, Iter, Word, Xor;
    var pre, post := a[..at], a[at + width..];
    var u, v := a[at..at + width], b[at..at + width];
    assert a == pre + (u + post) && b == pre + (v + post);
    BitRegConcat(r, pre, u + post);
    BitRegConcat(r, pre, v + post);
    var s := BitReg(r, pre);
    BitRegConcat(s, u, post);
    BitRegConcat(s, v, post);
    BitRegInjective(BitReg(s, u), BitReg(s, v), post);
    BitRegIsIter(s, u);
    BitRegIsIter(s, v);
    IterInjective(width, Xor(s, Word(u)), Xor(s, Word(v)));
    XorCancels(s, Word(u));
    XorCancels(s, Word(v));
    WordInjective(u, v);
  }

  // No two byte strings with one register value differ in a single burst.
  lemma BurstDetected(r: bv32, a: seq<byte>, b: seq<byte>, at: nat, width: nat)
    requires |a| == |b|
    requires DifferInBurst(Bits(a), Bits(b), at, width)
    requires Reg(r, a) == Reg(r, b)
    ensures a == b
  {
    hide Reg, BitReg, Bits;
    RegIsBitReg(r, a);
    RegIsBitReg(r, b);
    BitBurstDetected(r, Bits(a), Bits(b), at, width);
    BitsInjective(a, b);
  }

  lemma {:induction false} BitsConcat(a: seq<byte>, b: seq<byte>)
    ensures Bits(a + b) == Bits(a) + Bits(b)
  {
    hide BitsOf;
    if a == [] {
      assert a + b == b;
    } else {
      assert (a + b)[1..] == a[1..] + b;
      BitsConcat(a[1..], b);
      assert (BitsOf(a[0]) + Bits(a[1..])) + Bits(b) == BitsOf(a[0]) + (Bits(a[1..]) + Bits(b));
    }
  }

  // A window of four consecutive bytes is such a burst.
  lemma FourBytesAreABurst(a: seq<byte>, b: seq<byte>, k: nat)
    requires |a| == |b| && k + 4 <= |a|
    requires a[..k] == b[..k] && a[k + 4..] == b[k + 4..]
    ensures DifferInBurst(Bits(a), Bits(b), 8 * k, 32)
  {
    hide Bits;
    var u, v := a[k..k + 4], b[k..k + 4];
    var pre, post := a[..k], a[k + 4..];
    assert a == pre + u + post && b == pre + v + post;
    BitsConcat(pre + u, post);
    BitsConcat(pre, u);
    BitsConcat(pre + v, post);
    BitsConcat(pre, v);
    assert Bits(a)[..8 * k] == Bits(pre) == Bits(b)[..8 * k];
    assert Bits(a)[8 * k + 32..] == Bits(post) == Bits(b)[8 * k + 32..];
  }

  // ---- the residue: a CRC appended to its data ----

  const RESIDUE: bv32 := Iter(32, 0xFFFFFFFF)

  lemma HornerWord(a: byte, b: byte, c: byte, d: byte)
    ensures (a as bv32) | (((b as bv32) | (((c as bv32) | (((d as bv32) | (0 << 8)) << 8)) << 8)) << 8) ==
            (a as bv32) | ((b as bv32) << 8) | ((c as bv32) << 16) | ((d as bv32) << 24)
  {
  }

  lemma Horner(a: byte, b: byte, c: byte, d: byte)
    ensures PushByte(a, PushByte(b, PushByte(c, PushByte(d, 0)))) == Join(a, b, c, d)
  {
    HornerWord(a, b, c, d);
  }

  lemma FourByteWord(s: seq<byte>)
    requires |s| == 4
    ensures Word(Bits(s)) == FromLe32(s)
  {
    hide BitsOf, Push, PushByte, Join;
    var t1, t2, t3 := s[1..], s[2..], s[3..];
    assert t1[1..] == t2 && t2[1..] == t3 && t3[1..] == [];
    WordOfByte(s[3], Bits([]));
    WordOfByte(s[2], Bits(t3));
    WordOfByte(s[1], Bits(t2));
    WordOfByte(s[0], Bits(t1));
    Horner(s[0], s[1], s[2], s[3]);
  }

  // Four bytes enter the register as one little-endian word.
  lemma RegFourBytes(r: bv32, s: seq<byte>)
    requires |s| == 4
    ensures Reg(r, s) == Iter(32, Xor(r, FromLe32(s)))
  {
    hide Reg, BitReg, Bits, Word, Iter, FromLe32, Xor;
    RegIsBitReg(r, s);
    BitRegIsIter(r, Bits(s));
    FourByteWord(s);
  }

  // The stored word is the CRC of the data if and only if the register,
  // run over data and word together, ends in the residue.
  lemma CrcMatchesIffResidue(data: seq<byte>, stored: seq<byte>)
    requires |stored| == 4
    ensures FromLe32(stored) == Crc(data) <==> Reg(INIT, data + stored) == RESIDUE
  {
    hide Reg, FromLe32, Iter, Xor;
    var r, w := Reg(INIT, data), FromLe32(stored);
    RegConcat(INIT, data, stored);
    RegFourBytes(r, stored);
    XorCancels(r, 0xFFFFFFFF);
    XorCancels(r, w);
    if Xor(r, w) == 0xFFFFFFFF {
      assert w == Xor(r, 0xFFFFFFFF);
    }
    if Reg(INIT, data + stored) == RESIDUE {
      IterInjective(32, Xor(r, w), 0xFFFFFFFF);
    }
  }
}
