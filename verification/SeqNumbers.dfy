/** Multi-byte fields in network byte order, and uip_add32 on them. */
module SeqNumbers {
  import opened Bytes
  import opened Tcp

  function Join16(hi: byte, lo: byte): u16 { hi * 0x100 + lo }

  function Join32(b0: byte, b1: byte, b2: byte, b3: byte): u32 {
    b0 * 0x100_0000 + b1 * 0x1_0000 + b2 * 0x100 + b3
  }

  /** The two bytes of a number in network byte order. */
  function Be16(x: u16): (s: seq<byte>)
    ensures |s| == 2 && Join16(s[0], s[1]) == x
  {
    assert Join16(x / 0x100, x % 0x100) == x;
    var hi: byte, lo: byte :| Join16(hi, lo) == x;
    [hi, lo]
  }

  /** The four bytes of a number in network byte order. */
  function Be32(x: u32): (s: seq<byte>)
    ensures |s| == 4 && Join32(s[0], s[1], s[2], s[3]) == x
  {
    Be16(x / 0x1_0000) + Be16(x % 0x1_0000)
  }

  lemma Be16Unique(hi: byte, lo: byte)
    ensures Be16(Join16(hi, lo)) == [hi, lo]
  {
  }

  /** Comparing the four bytes, as the source does, is comparing the numbers. */
  lemma Join32Injective(a: seq<byte>, b: seq<byte>)
    requires |a| == |b| == 4
    ensures Join32(a[0], a[1], a[2], a[3]) == Join32(b[0], b[1], b[2], b[3]) <==> a == b
  {
    if Join32(a[0], a[1], a[2], a[3]) == Join32(b[0], b[1], b[2], b[3]) {
      assert a[0] == b[0];
      assert a[1] == b[1];
      assert a[2] == b[2];
    }
  }

  function Number(b: seq<byte>): u32
    requires |b| == 4
  {
    Join32(b[0], b[1], b[2], b[3])
  }

  lemma Be32Unique(b: seq<byte>)
    requires |b| == 4
    ensures Be32(Number(b)) == b
  {
    Join32Injective(Be32(Number(b)), b);
  }

  /** The increment of a uint8_t. */
  function Inc(b: byte): byte { Wrap8(b + 1) }

  /** uip_add32 into uip_acc32, carry by carry. */
  method UipAdd32(op32: array<byte>, op16: u16, acc32: array<byte>)
    requires op32.Length == acc32.Length == 4 && op32 != acc32
    modifies acc32
    ensures Number(acc32[..]) == Add32(Number(op32[..]), op16)
  {
    var lo: byte, hi: byte := op16 % 0x100, op16 / 0x100;
    acc32[3] := Wrap8(op32[3] + lo);
    acc32[2] := Wrap8(op32[2] + hi);
    acc32[1] := op32[1];
    acc32[0] := op32[0];
    if acc32[2] < hi {
      acc32[1] := Inc(acc32[1]);
      if acc32[1] == 0 {
        acc32[0] := Inc(acc32[0]);
      }
    }
    if acc32[3] < lo {
      acc32[2] := Inc(acc32[2]);
      if acc32[2] == 0 {
        acc32[1] := Inc(acc32[1]);
        if acc32[1] == 0 {
          acc32[0] := Inc(acc32[0]);
        }
      }
    }
  }

  /** The addition the source spells out in bytes is addition modulo 2^32. */
  lemma Add32IsModular(x: u32, n: nat)
    requires n <= 0x1_0000
    ensures Add32(x, n) == (x + n) % 0x1_0000_0000
  {
  }
}
