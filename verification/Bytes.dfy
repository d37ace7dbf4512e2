/** Machine integers, optional values and big-endian fields. */
module Bytes {
  datatype Option<+T> = None | Some(value: T)

  type byte = x: int | 0 <= x < 0x100
  type u16 = x: int | 0 <= x < 0x1_0000
  type u32 = x: int | 0 <= x < 0x1_0000_0000

  /** Conversion to uint8_t of a sum or difference of two bytes: reduction modulo 2^8. */
  function Wrap8(x: int): (r: byte)
    requires -0x100 <= x < 0x200
  {
    if x < 0 then x + 0x100 else if x < 0x100 then x else x - 0x100
  }

  /** Conversion to signed char. */
  function Signed8(x: int): (r: int)
    requires -0x100 <= x < 0x100
    ensures -0x80 <= r < 0x80
  {
    if x < -0x80 then x + 0x100 else if x < 0x80 then x else x - 0x100
  }

  /** Conversion to uint16_t of a sum of two 16-bit numbers. */
  function Wrap16(x: nat): (r: u16)
    requires x < 0x2_0000
  {
    if x < 0x1_0000 then x else x - 0x1_0000
  }

  lemma ConversionsAreModular(x: int, y: nat)
    requires -0x100 <= x < 0x100 && y < 0x2_0000
    ensures Wrap8(x) == x % 0x100 && Wrap8(x + 0x100) == x % 0x100
    ensures Signed8(x) % 0x100 == x % 0x100
    ensures Wrap16(y) == y % 0x1_0000
  {
  }

  function Min(a: int, b: int): int { if a < b then a else b }

  function Take<T>(s: seq<T>, n: nat): (r: seq<T>)
    ensures |r| <= n
  {
    if n <= |s| then s[..n] else s
  }

  /** m holds x at index p. */
  ghost predicate Has(m: seq<byte>, p: nat, x: seq<byte>) {
    p + |x| <= |m| && m[p..p + |x|] == x
  }

  lemma HasParts(m: seq<byte>, p: nat, x: seq<byte>, y: seq<byte>)
    requires Has(m, p, x + y)
    ensures Has(m, p, x) && Has(m, p + |x|, y)
  {
    assert m[p..p + |x|] == (x + y)[..|x|] && m[p + |x|..p + |x| + |y|] == (x + y)[|x|..];
  }

  lemma SubsetSize<T>(a: set<T>, b: set<T>)
    requires a <= b
    ensures |a| <= |b|
  {
    assert b == a + (b - a);
  }

  lemma Associate<T>(a: seq<T>, b: seq<T>, c: seq<T>)
    ensures (a + b) + c == a + (b + c)
  {
  }
}
