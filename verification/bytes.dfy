/** Bytes, fixed-width integers and the integer encodings the wire and file formats use. */
module Bytes {

  type byte = x: int | 0 <= x < 0x100
  type u16 = x: int | 0 <= x < 0x1_0000
  type u32 = x: int | 0 <= x < 0x1_0000_0000
  type u64 = x: int | 0 <= x < 0x1_0000_0000_0000_0000

  datatype Option<+T> = None | Some(value: T)

  datatype Result<+T, +E> = Ok(value: T) | Err(error: E)

  function Min(a: int, b: int): int {
    if a < b then a else b
  }

  function Max(a: int, b: int): int {
    if a > b then a else b
  }

  lemma Front<T>(a: seq<T>, b: seq<T>)
    ensures (a + b)[..|a|] == a && (a + b)[|a|..] == b
  {
  }

  lemma Concat<T>(a: seq<T>, b: seq<T>, c: seq<T>)
    ensures a + (b + c) == (a + b) + c
    ensures a + [] == a && [] + a == a
  {
  }

  /** Where the first `x` is, or the length if there is none. */
  function IndexOf(b: seq<byte>, x: byte): (i: nat)
    ensures i <= |b| && (i < |b| ==> b[i] == x)
    ensures forall j | 0 <= j < i :: b[j] != x
  {
    if b == [] || b[0] == x then 0 else 1 + IndexOf(b[1..], x)
  }

  /** An ASCII letter and its other case. */
  predicate IsCasePair(x: byte, y: byte) {
    (65 <= x <= 90 && y == x + 32) || (65 <= y <= 90 && x == y + 32)
  }

  /** Two spellings of one name or password: byte by byte equal, or one letter in both its cases. */
  ghost predicate SameSpelling(s: seq<byte>, t: seq<byte>) {
    |s| == |t| && forall i | 0 <= i < |s| :: s[i] == t[i] || IsCasePair(s[i], t[i])
  }

  function Zeros(n: nat): (z: seq<byte>)
    ensures |z| == n
  {
    seq(n, _ => 0)
  }

  function Le16(v: u16): (bs: seq<byte>)
    ensures |bs| == 2
  {
    [v % 256, v / 256]
  }

  function ReadLe16(bs: seq<byte>): u16
    requires |bs| >= 2
  {
    var b0: int, b1: int := bs[0], bs[1];
    b0 + 256 * b1
  }

  function Le32(v: u32): (bs: seq<byte>)
    ensures |bs| == 4
  {
    [v % 256, v / 256 % 256, v / 0x1_0000 % 256, v / 0x100_0000]
  }

  function ReadLe32(bs: seq<byte>): u32
    requires |bs| >= 4
  {
    var b0: int, b1: int, b2: int, b3: int := bs[0], bs[1], bs[2], bs[3];
    b0 + 256 * b1 + 0x1_0000 * b2 + 0x100_0000 * b3
  }

  function Be32(v: u32): (bs: seq<byte>)
    ensures |bs| == 4
  {
    [v / 0x100_0000, v / 0x1_0000 % 256, v / 256 % 256, v % 256]
  }

  function ReadBe32(bs: seq<byte>): u32
    requires |bs| >= 4
  {
    var b3: int, b2: int, b1: int, b0: int := bs[0], bs[1], bs[2], bs[3];
    b0 + 256 * b1 + 0x1_0000 * b2 + 0x100_0000 * b3
  }

  /** Every 32-bit value is read back from either byte order. */
  lemma Read32(v: u32)
    ensures ReadLe32(Le32(v)) == v
    ensures ReadBe32(Be32(v)) == v
  {
    var q: int := v / 256;
    var r: int := q / 256;
    assert v / 0x1_0000 == r && v / 0x100_0000 == r / 256;
    assert v == v % 256 + 256 * q && q == q % 256 + 256 * r && r == r % 256 + 256 * (r / 256);
  }

  /** Four bytes are the little-endian form of the value they spell. */
  lemma Write32(bs: seq<byte>)
    requires |bs| == 4
    ensures Le32(ReadLe32(bs)) == bs
  {
    var b0: int, b1: int, b2: int, b3: int := bs[0], bs[1], bs[2], bs[3];
    var r := b2 + 256 * b3;
    var q := b1 + 256 * r;
    var v: int := ReadLe32(bs);
    assert v == b0 + 256 * q;
    SplitByte(b0, q);
    SplitByte(b1, r);
    SplitByte(b2, b3);
    assert v / 0x1_0000 == q / 256 && v / 0x100_0000 == r / 256 by { DivTwice(v); }
  }

  lemma SplitByte(b: int, q: nat)
    requires 0 <= b < 256
    ensures (b + 256 * q) % 256 == b && (b + 256 * q) / 256 == q
  {
  }

  lemma DivTwice(v: nat)
    ensures v / 0x1_0000 == v / 256 / 256
    ensures v / 0x100_0000 == v / 256 / 256 / 256
  {
  }

  /** The little-endian bytes of `v`, cut to `width` of them. */
  function ToLe(v: nat, width: nat): (bs: seq<byte>)
    ensures |bs| == width
    decreases width
  {
    if width == 0 then [] else [v % 256] + ToLe(v / 256, width - 1)
  }

  function FromLe(bs: seq<byte>): nat {
    if bs == [] then 0 else (bs[0] as int) + 256 * FromLe(bs[1..])
  }

  /** A value below `256^width` survives its little-endian form. */
  lemma {:induction false} FromLeToLe(v: nat, width: nat)
    requires v < Pow(256, width)
    ensures FromLe(ToLe(v, width)) == v
  {
    if width > 0 {
      assert Pow(256, width) == 256 * Pow(256, width - 1);
      FromLeToLe(v / 256, width - 1);
      assert ToLe(v, width)[1..] == ToLe(v / 256, width - 1);
    }
  }

  lemma {:induction false} FromLeBound(bs: seq<byte>)
    ensures FromLe(bs) < Pow(256, |bs|)
  {
    if bs != [] {
      FromLeBound(bs[1..]);
    }
  }

  function Pow(b: nat, e: nat): nat {
    if e == 0 then 1 else b * Pow(b, e - 1)
  }
}
