// The bit-at-a-time CRC-32 of the configuration store and of the manifest tool.
//
// Facts about single words are stated on plain bit-vector expressions and proved on
// their own; the inductions over strings hide the word operations and use those facts.
module Crc32 {
  import opened Bytes

  const INIT: bv32 := 0xFFFFFFFF

  function Xor(x: bv32, y: bv32): bv32 {
    x ^ y
  }

  // The register after one bit, in the standard's form.
  function BitStep(r: bv32): bv32 {
    if r & 1 == 1 then (r >> 1) ^ 0xEDB88320 else r >> 1
  }

  function Iter(n: nat, r: bv32): bv32 {
    if n == 0 then r else Iter(n - 1, BitStep(r))
  }

  function ByteStep(r: bv32, b: byte): bv32 {
    Iter(8, Xor(r, b as bv32))
  }

  // The register after a whole byte string.
  function Reg(r: bv32, data: seq<byte>): bv32
    decreases data
  {
    if data == [] then r else Reg(ByteStep(r, data[0]), data[1..])
  }

  function Crc(data: seq<byte>): bv32 {
    Xor(Reg(INIT, data), 0xFFFFFFFF)
  }

  // Masking the polynomial by the negated low bit is the conditional.
  lemma MaskedStep(r: bv32)
    ensures (r >> 1) ^ (0xEDB88320 & (0 - (r & 1))) == BitStep(r)
  {
    MaskedWord(r);
  }

  lemma MaskedWord(r: bv32)
    ensures (r >> 1) ^ (0xEDB88320 & (0 - (r & 1))) == if r & 1 == 1 then (r >> 1) ^ 0xEDB88320 else r >> 1
  {
    LowBit(r);
    MaskOf(r & 1);
    ZeroMask(r >> 1);
  }

  lemma ZeroMask(h: bv32)
    ensures h ^ 0 == h
  {
  }

  lemma LowBit(r: bv32)
    ensures r & 1 == 0 || r & 1 == 1
  {
  }

  lemma MaskOf(b: bv32)
    ensures b == 1 ==> 0xEDB88320 & (0 - b) == 0xEDB88320
    ensures b == 0 ==> 0xEDB88320 & (0 - b) == 0
  {
  }

  lemma Inverted(r: bv32)
    ensures !r == Xor(r, 0xFFFFFFFF)
  {
    InvertedWord(r);
  }

  lemma InvertedWord(r: bv32)
    ensures !r == r ^ 0xFFFFFFFF
  {
  }

  lemma XorIs(x: bv32, y: bv32)
    ensures Xor(x, y) == x ^ y
  {
  }

  // The device's accumulator loop.
  method DeviceCrc32(data: seq<byte>) returns (out: bv32)
    ensures out == Crc(data)
  {
    hide BitStep, Xor;
    var crc := INIT;
    var k := 0;
    while k < |data|
      invariant 0 <= k <= |data|
      invariant Reg(crc, data[k..]) == Reg(INIT, data)
    {
      ghost var before := crc;
      crc := crc ^ (data[k] as bv32);
      XorIs(before, data[k] as bv32);
      var i := 0;
      while i < 8
        invariant 0 <= i <= 8
        invariant Iter(8 - i, crc) == ByteStep(before, data[k])
      {
        MaskedStep(crc);
        crc := (crc >> 1) ^ (0xEDB88320 & (0 - (crc & 1)));
        i := i + 1;
      }
      assert data[k..][1..] == data[k + 1..];
      k := k + 1;
    }
    Inverted(crc);
    out := !crc;
  }

  // The manifest tool's loop, with its mask in a variable of its own.
  method ToolCrc32(data: seq<byte>) returns (out: bv32)
    ensures out == Crc(data)
  {
    hide BitStep, Xor;
    var crc := INIT;
    for i := 0 to |data|
      invariant Reg(crc, data[i..]) == Reg(INIT, data)
    {
      ghost var before := crc;
      crc := crc ^ (data[i] as bv32);
      XorIs(before, data[i] as bv32);
      for j := 0 to 8
        invariant Iter(8 - j, crc) == ByteStep(before, data[i])
      {
        var mask := 0 - (crc & 1);
        MaskedStep(crc);
        crc := (crc >> 1) ^ (0xEDB88320 & mask);
      }
      assert data[i..][1..] == data[i + 1..];
    }
    Inverted(crc);
    out := !crc;
  }

  // ---- single words ----

  lemma XorZero(x: bv32)
    ensures Xor(x, 0) == x
  {
  }

  lemma XorCancelsWord(x: bv32, y: bv32)
    ensures x ^ (x ^ y) == y && (x ^ y) ^ y == x
  {
  }

  lemma XorCancels(x: bv32, y: bv32)
    ensures Xor(x, Xor(x, y)) == y
    ensures Xor(Xor(x, y), y) == x
  {
    XorCancelsWord(x, y);
  }

  lemma XorAssociatesWord(x: bv32, y: bv32, z: bv32)
    ensures x ^ (y ^ z) == (x ^ y) ^ z
  {
  }

  lemma XorAssociates(x: bv32, y: bv32, z: bv32)
    ensures Xor(x, Xor(y, z)) == Xor(Xor(x, y), z)
  {
    XorAssociatesWord(x, y, z);
  }

  predicate Odd(x: bv32) {
    x & 1 == 1
  }

  function Half(x: bv32): bv32 {
    x >> 1
  }

  lemma StepCases(x: bv32)
    ensures BitStep(x) == if Odd(x) then Xor(Half(x), 0xEDB88320) else Half(x)
  {
  }

  lemma XorPartsWord(x: bv32, y: bv32)
    ensures ((x ^ y) & 1 == 1) == ((x & 1 == 1) != (y & 1 == 1))
    ensures (x ^ y) >> 1 == (x >> 1) ^ (y >> 1)
  {
  }

  lemma XorParts(x: bv32, y: bv32)
    ensures Odd(Xor(x, y)) == (Odd(x) != Odd(y))
    ensures Half(Xor(x, y)) == Xor(Half(x), Half(y))
  {
    XorPartsWord(x, y);
  }

  lemma XorRegroupWord(a: bv32, b: bv32, p: bv32)
    ensures (a ^ p) ^ b == (a ^ b) ^ p && a ^ (b ^ p) == (a ^ b) ^ p && (a ^ p) ^ (b ^ p) == a ^ b
  {
  }

  lemma XorRegroup(a: bv32, b: bv32, p: bv32)
    ensures Xor(Xor(a, p), b) == Xor(Xor(a, b), p)
    ensures Xor(a, Xor(b, p)) == Xor(Xor(a, b), p)
    ensures Xor(Xor(a, p), Xor(b, p)) == Xor(a, b)
  {
    XorRegroupWord(a, b, p);
  }

  lemma BitStepLinear(x: bv32, y: bv32)
    ensures BitStep(Xor(x, y)) == Xor(BitStep(x), BitStep(y))
  {
    hide BitStep, Xor, Odd, Half;
    StepCases(x);
    StepCases(y);
    StepCases(Xor(x, y));
    XorParts(x, y);
    XorRegroup(Half(x), Half(y), 0xEDB88320);
  }

  lemma StepInjectiveWord(x: bv32, y: bv32)
    requires (if x & 1 == 1 then (x >> 1) ^ 0xEDB88320 else x >> 1) ==
             (if y & 1 == 1 then (y >> 1) ^ 0xEDB88320 else y >> 1)
    ensures x == y
  {
  }

  // The top bit of the polynomial tells which branch was taken.
  lemma BitStepInjective(x: bv32, y: bv32)
    requires BitStep(x) == BitStep(y)
    ensures x == y
  {
    StepInjectiveWord(x, y);
  }

  // ---- algebra of the register ----

  lemma {:induction false} IterLinear(n: nat, x: bv32, y: bv32)
    ensures Iter(n, Xor(x, y)) == Xor(Iter(n, x), Iter(n, y))
  {
    hide BitStep, Xor;
    if n > 0 {
      BitStepLinear(x, y);
      IterLinear(n - 1, BitStep(x), BitStep(y));
    }
  }

  lemma {:induction false} IterInjective(n: nat, x: bv32, y: bv32)
    requires Iter(n, x) == Iter(n, y)
    ensures x == y
  {
    hide BitStep;
    if n > 0 {
      IterInjective(n - 1, BitStep(x), BitStep(y));
      BitStepInjective(x, y);
    }
  }

  lemma {:induction false} RegConcat(r: bv32, a: seq<byte>, b: seq<byte>)
    ensures Reg(r, a + b) == Reg(Reg(r, a), b)
    decreases a
  {
    hide ByteStep;
    if a == [] {
      assert a + b == b;
    } else {
      assert (a + b)[1..] == a[1..] + b;
      RegConcat(ByteStep(r, a[0]), a[1..], b);
    }
  }

  // ---- the table-driven form of section 8 of RFC 1952 ----

  // crc_table[n]
  function TableEntry(n: bv32): bv32
    requires n & 0xFF == n
  {
    Iter(8, n)
  }

  lemma LowByte(x: bv32)
    ensures (x & 0xFF) & 0xFF == x & 0xFF
  {
  }

  // update_crc: the low byte of the sum selects a table entry, the rest is shifted.
  function TableStep(c: bv32, b: byte): bv32 {
    LowByte(Xor(c, b as bv32));
    Xor(TableEntry(Xor(c, b as bv32) & 0xFF), c >> 8)
  }

  function TableReg(c: bv32, data: seq<byte>): bv32
    decreases data
  {
    if data == [] then c else TableReg(TableStep(c, data[0]), data[1..])
  }

  function Rfc1952Crc(data: seq<byte>): bv32 {
    Xor(TableReg(Xor(0, 0xFFFFFFFF), data), 0xFFFFFFFF)
  }

  lemma EvenStep(x: bv32)
    requires !Odd(x)
    ensures BitStep(x) == Half(x)
  {
  }

  function Half4(x: bv32): bv32 {
    Half(Half(Half(Half(x))))
  }

  lemma LowNibbleWord(x: bv32)
    requires x & 0xF == 0
    ensures !(x & 1 == 1) && !((x >> 1) & 1 == 1) && !(((x >> 1) >> 1) & 1 == 1) && !((((x >> 1) >> 1) >> 1) & 1 == 1)
  {
  }

  lemma FourEvenSteps(n: nat, x: bv32)
    requires x & 0xF == 0
    ensures Iter(n + 4, x) == Iter(n, Half4(x))
  {
    hide BitStep;
    LowNibbleWord(x);
    EvenStep(x);
    EvenStep(Half(x));
    EvenStep(Half(Half(x)));
    EvenStep(Half(Half(Half(x))));
    assert Iter(n + 4, x) == Iter(n + 2, BitStep(BitStep(x)));
  }

  lemma Half4Word(x: bv32)
    requires x & 0xFF == 0
    ensures x & 0xF == 0
    ensures ((((x >> 1) >> 1) >> 1) >> 1) & 0xF == 0
    ensures ((((((((x >> 1) >> 1) >> 1) >> 1) >> 1) >> 1) >> 1) >> 1) == x >> 8
  {
  }

  lemma Half4Twice(x: bv32)
    requires x & 0xFF == 0
    ensures x & 0xF == 0 && Half4(x) & 0xF == 0 && Half4(Half4(x)) == x >> 8
  {
    Half4Word(x);
  }

  // Eight steps on a word whose low byte is clear only shift it.
  lemma HighPartShifts(x: bv32)
    requires x & 0xFF == 0
    ensures Iter(8, x) == x >> 8
  {
    hide Half4;
    Half4Twice(x);
    FourEvenSteps(4, x);
    FourEvenSteps(0, Half4(x));
  }

  lemma LowHighWord(c: bv32, b: byte)
    ensures ((c ^ (b as bv32)) & 0xFF) ^ (c & 0xFFFFFF00) == c ^ (b as bv32)
    ensures (c & 0xFFFFFF00) & 0xFF == 0 && (c & 0xFFFFFF00) >> 8 == c >> 8
  {
  }

  lemma LowHigh(c: bv32, b: byte)
    ensures Xor(Xor(c, b as bv32) & 0xFF, c & 0xFFFFFF00) == Xor(c, b as bv32)
    ensures (c & 0xFFFFFF00) & 0xFF == 0 && (c & 0xFFFFFF00) >> 8 == c >> 8
  {
    LowHighWord(c, b);
  }

  lemma TableStepIsByteStep(c: bv32, b: byte)
    ensures TableStep(c, b) == ByteStep(c, b)
  {
    hide Xor, Iter;
    LowByte(Xor(c, b as bv32));
    LowHigh(c, b);
    IterLinear(8, Xor(c, b as bv32) & 0xFF, c & 0xFFFFFF00);
    HighPartShifts(c & 0xFFFFFF00);
  }

  lemma {:induction false} TableRegIsReg(c: bv32, data: seq<byte>)
    ensures TableReg(c, data) == Reg(c, data)
    decreases data
  {
    hide ByteStep, TableStep;
    if data != [] {
      TableStepIsByteStep(c, data[0]);
      TableRegIsReg(ByteStep(c, data[0]), data[1..]);
    }
  }

  // The loop is the standard CRC-32, for every byte string.
  lemma CrcIsRfc1952(data: seq<byte>)
    ensures Crc(data) == Rfc1952Crc(data)
  {
    hide Reg, TableReg;
    TableRegIsReg(INIT, data);
  }
}
