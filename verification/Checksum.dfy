/** The Internet checksum of RFC 1071 as uip.cpp computes it. */
module Checksum {
  import opened Bytes

  /** One's complement addition of 16-bit numbers. */
  function OnesAdd(a: u16, b: u16): u16 {
    if a + b < 0x1_0000 then a + b else a + b - 0xffff
  }

  function Word(hi: byte, lo: byte): u16 { hi * 0x100 + lo }

  /** The sum of the big-endian 16-bit words of a buffer, an odd last byte being the high half of a word. */
  function Words(d: seq<byte>): nat {
    if d == [] then 0
    else if |d| == 1 then Word(d[0], 0)
    else Word(d[0], d[1]) + Words(d[2..])
  }

  /** chksum, word by word. */
  function Chksum(sum: u16, d: seq<byte>): u16
    decreases d
  {
    if d == [] then sum
    else if |d| == 1 then OnesAdd(sum, Word(d[0], 0))
    else Chksum(OnesAdd(sum, Word(d[0], d[1])), d[2..])
  }

  /** The accumulator loop, with the carry test of the source, over len bytes from index start. */
  method ComputeChksum(sum0: u16, data: array<byte>, start: nat, len: nat) returns (sum: u16)
    requires start + len <= data.Length
    ensures sum == Chksum(sum0, data[start..start + len])
  {
    sum := sum0;
    var dataptr := start;
    var last := start + len - 1;
    while dataptr < last
      invariant start <= dataptr <= start + len
      invariant Chksum(sum, data[dataptr..start + len]) == Chksum(sum0, data[start..start + len])
    {
      var t := Word(data[dataptr], data[dataptr + 1]);
      ghost var rest := data[dataptr..start + len];
      assert rest[2..] == data[dataptr + 2..start + len];
      ghost var before := sum;
      sum := Wrap16(sum + t);
      if sum < t { sum := sum + 1; }
      assert sum == OnesAdd(before, t);
      dataptr := dataptr + 2;
    }
    if dataptr == last {
      ghost var rest := data[dataptr..start + len];
      assert |rest| == 1 && rest[0] == data[dataptr];
      var t := Word(data[dataptr], 0);
      sum := Wrap16(sum + t);
      if sum < t { sum := sum + 1; }
    }
  }

  // ---- The closed form ----

  /** The one's complement number for n: n reduced modulo 2^16 - 1, where only 0 itself becomes 0. */
  function Fold(n: nat): (r: u16) {
    if n < 0x1_0000 then n else Fold(n - 0xffff)
  }

  lemma {:induction false} FoldAbsorbs(a: nat, b: nat)
    ensures Fold(Fold(a) + b) == Fold(a + b)
    decreases a
  {
    if a >= 0x1_0000 {
      FoldAbsorbs(a - 0xffff, b);
      assert Fold(a + b) == Fold(a + b - 0xffff);
    }
  }

  lemma {:induction false} FoldMeaning(n: nat)
    ensures Fold(n) % 0xffff == n % 0xffff
    ensures Fold(n) == 0 <==> n == 0
    decreases n
  {
    if n >= 0x1_0000 { FoldMeaning(n - 0xffff); }
  }

  lemma {:induction false} ChksumIsFold(sum: u16, d: seq<byte>)
    ensures Chksum(sum, d) == Fold(sum + Words(d))
    decreases d
  {
    if |d| >= 2 {
      var t := Word(d[0], d[1]);
      ChksumIsFold(OnesAdd(sum, t), d[2..]);
      FoldAbsorbs(sum + t, Words(d[2..]));
    }
  }

  /** RFC 1071: the result is the sum of the words modulo 2^16 - 1. */
  lemma ChksumCongruent(sum: u16, d: seq<byte>)
    ensures Chksum(sum, d) % 0xffff == (sum + Words(d)) % 0xffff
  {
    ChksumIsFold(sum, d);
    FoldMeaning(sum + Words(d));
  }

  lemma {:induction false} WordsZero(d: seq<byte>)
    ensures Words(d) == 0 <==> forall i :: 0 <= i < |d| ==> d[i] == 0
    decreases d
  {
    if |d| >= 2 {
      WordsZero(d[2..]);
      assert forall i :: 2 <= i < |d| ==> d[i] == d[2..][i - 2];
      assert forall i :: 0 <= i < |d| - 2 ==> d[2..][i] == d[i + 2];
    }
  }

  /** The sum is zero only if the start value and every byte are. */
  lemma ChksumZero(sum: u16, d: seq<byte>)
    ensures Chksum(sum, d) == 0 <==> sum == 0 && forall i :: 0 <= i < |d| ==> d[i] == 0
  {
    ChksumIsFold(sum, d);
    FoldMeaning(sum + Words(d));
    WordsZero(d);
  }

  lemma {:induction false} WordsConcat(a: seq<byte>, b: seq<byte>)
    requires |a| % 2 == 0
    ensures Words(a + b) == Words(a) + Words(b)
    decreases a
  {
    if a == [] {
      assert a + b == b;
    } else {
      assert (a + b)[2..] == a[2..] + b;
      WordsConcat(a[2..], b);
    }
  }

  /** Pieces of even length may be summed one after the other. */
  lemma ChksumConcat(sum: u16, a: seq<byte>, b: seq<byte>)
    requires |a| % 2 == 0
    ensures Chksum(sum, a + b) == Chksum(Chksum(sum, a), b)
  {
    WordsConcat(a, b);
    ChksumIsFold(sum, a + b);
    ChksumIsFold(sum, a);
    ChksumIsFold(Chksum(sum, a), b);
    FoldAbsorbs(sum + Words(a), Words(b));
  }

  // ---- Byte order ----

  /** uip_htons on a little-endian machine. */
  function Swap(x: u16): u16 { (x % 0x100) * 0x100 + x / 0x100 }

  function SwapPairs(d: seq<byte>): (r: seq<byte>)
    requires |d| % 2 == 0
  {
    if d == [] then [] else [d[1], d[0]] + SwapPairs(d[2..])
  }

  lemma SwapBytes(hi: byte, lo: byte)
    ensures Swap(Word(hi, lo)) == Word(lo, hi)
  {
    assert Word(hi, lo) / 0x100 == hi && Word(hi, lo) % 0x100 == lo;
  }

  lemma SwapOnesAdd(a: u16, b: u16)
    ensures Swap(OnesAdd(a, b)) == OnesAdd(Swap(a), Swap(b))
    ensures Swap(Swap(a)) == a
    ensures a + b == 0xffff <==> Swap(a) + Swap(b) == 0xffff
  {
    var ah: byte, al: byte := a / 0x100, a % 0x100;
    var bh: byte, bl: byte := b / 0x100, b % 0x100;
    assert a == Word(ah, al) && b == Word(bh, bl);
    AddBytes(ah, al, bh, bl);
    SwapBytes(ah, al);
    SwapBytes(al, ah);
    SwapBytes(bh, bl);
  }

  lemma AddBytes(ah: byte, al: byte, bh: byte, bl: byte)
    ensures Swap(OnesAdd(Word(ah, al), Word(bh, bl))) == OnesAdd(Word(al, ah), Word(bl, bh))
  {
    // Carries out of the low byte (k) and out of the high byte (j), the latter coming back in at the bottom.
    var k := if al + bl >= 0x100 then 1 else 0;
    var j := if ah + bh + k >= 0x100 then 1 else 0;
    var y := al + bl - 0x100 * k + j;
    var x := ah + bh + k - 0x100 * j;
    var rh: byte, rl: byte := if y == 0x100 then x + 1 else x, if y == 0x100 then 0 else y;
    assert OnesAdd(Word(ah, al), Word(bh, bl)) == Word(rh, rl);
    assert OnesAdd(Word(al, ah), Word(bl, bh)) == Word(rl, rh);
    SwapBytes(rh, rl);
  }

  /** Section 2 (B) of RFC 1071: summing in the other byte order gives the swapped sum. */
  lemma {:induction false} ChksumSwap(sum: u16, d: seq<byte>)
    requires |d| % 2 == 0
    ensures Chksum(Swap(sum), SwapPairs(d)) == Swap(Chksum(sum, d))
    decreases d
  {
    if d != [] {
      var t := Word(d[0], d[1]);
      var e := SwapPairs(d);
      assert e[2..] == SwapPairs(d[2..]);
      SwapBytes(d[0], d[1]);
      SwapOnesAdd(sum, t);
      ChksumSwap(OnesAdd(sum, t), d[2..]);
    }
  }

  // ---- Writing and checking a checksum field ----

  /** What uip_ipchksum and upper_layer_chksum return, in host order: zero is reported as 0xffff. */
  function Reported(sum: u16): u16 { if sum == 0 then 0xffff else sum }

  /** The field a sender writes for the sum over the zeroed field. */
  function FieldFor(sum: u16): u16 { 0xffff - Reported(sum) }

  /** Adding the written field makes the check succeed, also when the sum was zero. */
  lemma FieldVerifies(sum0: u16, rest: nat)
    ensures Reported(Fold(sum0 + rest + FieldFor(Fold(sum0 + rest)))) == 0xffff
  {
    var n := sum0 + rest;
    FoldAbsorbs(n, FieldFor(Fold(n)));
    FoldMeaning(n);
  }

  /** The check of uip_process accepts exactly the totals that are multiples of 0xffff. */
  lemma AcceptedTotals(n: nat)
    ensures Reported(Fold(n)) == 0xffff <==> n % 0xffff == 0
  {
  }
}
