// Bytes, little-endian words and the few sequence functions every module needs.
module Bytes {
  type byte = bv8

  datatype Option<+T> = None | Some(value: T)

  // 2^32: the values a uint32_t cannot hold start here.
  const WORD: nat := 0x1_0000_0000

  function Min(a: int, b: int): int {
    if a < b then a else b
  }

  // The least multiple of m that is at least n.
  function RoundUp(n: nat, m: nat): (r: nat)
    requires m > 0
  {
    (n + m - 1) / m * m
  }

  lemma RoundUpMeans(n: nat)
    ensures n <= RoundUp(n, 256) < n + 256 && RoundUp(n, 256) % 256 == 0
    ensures n <= RoundUp(n, 4096) < n + 4096 && RoundUp(n, 4096) % 4096 == 0
  {
  }

  // n erased flash bytes.
  function Ones(n: nat): (s: seq<byte>)
    ensures |s| == n && forall i :: 0 <= i < n ==> s[i] == 0xFF
  {
    seq(n, _ => 0xFF)
  }

  function Zeros(n: nat): (s: seq<byte>)
    ensures |s| == n && forall i :: 0 <= i < n ==> s[i] == 0
  {
    seq(n, _ => 0)
  }

  // Byte k of a word, and the word four bytes make, lowest byte first.
  function ByteAt(x: bv32, k: nat): byte
    requires k < 4
  {
    if k == 0 then (x & 0xFF) as byte
    else if k == 1 then ((x >> 8) & 0xFF) as byte
    else if k == 2 then ((x >> 16) & 0xFF) as byte
    else ((x >> 24) & 0xFF) as byte
  }

  function Join(a: byte, b: byte, c: byte, d: byte): bv32 {
    (a as bv32) | ((b as bv32) << 8) | ((c as bv32) << 16) | ((d as bv32) << 24)
  }

  // A uint32_t as the RP2040 and the build host store it.
  function Le32(x: bv32): (s: seq<byte>)
    ensures |s| == 4
  {
    [ByteAt(x, 0), ByteAt(x, 1), ByteAt(x, 2), ByteAt(x, 3)]
  }

  function FromLe32(s: seq<byte>): bv32
    requires |s| == 4
  {
    Join(s[0], s[1], s[2], s[3])
  }

  lemma JoinOfBytes(x: bv32)
    ensures Join(ByteAt(x, 0), ByteAt(x, 1), ByteAt(x, 2), ByteAt(x, 3)) == x
  {
  }

  lemma BytesOfJoin(a: byte, b: byte, c: byte, d: byte)
    ensures ByteAt(Join(a, b, c, d), 0) == a && ByteAt(Join(a, b, c, d), 1) == b
    ensures ByteAt(Join(a, b, c, d), 2) == c && ByteAt(Join(a, b, c, d), 3) == d
  {
  }

  lemma Le32RoundTrip(x: bv32)
    ensures FromLe32(Le32(x)) == x
  {
    hide ByteAt, Join;
    JoinOfBytes(x);
  }

  lemma FromLe32RoundTrip(s: seq<byte>)
    requires |s| == 4
    ensures Le32(FromLe32(s)) == s
  {
    hide ByteAt, Join;
    BytesOfJoin(s[0], s[1], s[2], s[3]);
  }

  // The bytes of a literal in the source.
  function CharCode(c: char): byte {
    ((c as int) % 256) as byte
  }

  function Ascii(s: string): (r: seq<byte>)
    ensures |r| == |s| && forall i :: 0 <= i < |s| ==> r[i] == CharCode(s[i])
  {
    seq(|s|, i requires 0 <= i < |s| => CharCode(s[i]))
  }

  function Flatten<T>(parts: seq<seq<T>>): seq<T> {
    if parts == [] then [] else parts[0] + Flatten(parts[1..])
  }

  lemma {:induction false} FlattenConcat<T>(a: seq<seq<T>>, b: seq<seq<T>>)
    ensures Flatten(a + b) == Flatten(a) + Flatten(b)
  {
    if a == [] {
      assert a + b == b;
    } else {
      assert (a + b)[1..] == a[1..] + b;
      FlattenConcat(a[1..], b);
    }
  }
}
