/** Checksum fields updated in place when one word of a message becomes smaller, and the ICMP echo built on it. */
module Incremental {
  import opened Bytes
  import opened SeqNumbers
  import opened Checksum
  import opened Packet
  import opened PacketBuffer

  /** UIP_HTONS on a machine of either byte order. */
  function Htons(little: bool, x: u16): u16 { if little then Swap(x) else x }

  /** The compare-and-add of the source on the field as the machine reads it, for a word that drops by d. */
  function RawUpdate(little: bool, raw: u16, d: u16): u16 {
    if raw >= Htons(little, 0xffff - d) then Wrap16(raw + Htons(little, d) + 1) else Wrap16(raw + Htons(little, d))
  }

  /** The same on the number the field holds. */
  function Update(f: u16, d: u16): u16 { RawUpdate(false, f, d) }

  lemma SwapComplement(d: u16)
    ensures Swap(0xffff - d) == 0xffff - Swap(d)
  {
  }

  /** The compare-and-add is one's complement addition, except that it gives 0 for 0xffff. */
  lemma CompareAndAdd(x: u16, e: u16)
    ensures (if x >= 0xffff - e then Wrap16(x + e + 1) else Wrap16(x + e)) == if x + e == 0xffff then 0 else OnesAdd(x, e)
  {
  }

  lemma SwapTwice(x: u16)
    ensures Swap(Swap(x)) == x
  {
    SwapOnesAdd(x, 0);
  }

  /** The sum of the swapped numbers is the swapped sum. */
  lemma SwappedUpdate(f: u16, d: u16)
    ensures RawUpdate(true, Swap(f), d) == Swap(Update(f, d))
  {
    SwapComplement(d);
    CompareAndAdd(Swap(f), Swap(d));
    CompareAndAdd(f, d);
    SwapOnesAdd(f, d);
  }

  /** Both byte orders write the same two bytes. */
  lemma ByteOrderDoesNotMatter(little: bool, f: u16, d: u16)
    ensures Htons(little, RawUpdate(little, Htons(little, f), d)) == Update(f, d)
  {
    if little {
      SwappedUpdate(f, d);
      SwapTwice(Update(f, d));
    }
  }

  /** The compare-and-add, on the field as the machine reads it. */
  method AdjustField(field: u16, d: u16, little: bool) returns (f: u16)
    ensures f == Update(field, d)
  {
    var raw := Htons(little, field);
    if raw >= Htons(little, 0xffff - d) {
      raw := Wrap16(raw + Htons(little, d) + 1);
    } else {
      raw := Wrap16(raw + Htons(little, d));
    }
    f := Htons(little, raw);
    ByteOrderDoesNotMatter(little, field, d);
  }

  method AdjustChksum(b: UipBuf, at: nat, d: u16, little: bool)
    requires b.Valid() && at + 2 <= b.len
    modifies b.buf
    ensures
      var p := old(b.Packet());
      b.Packet() == Overlay(p, at, Be16(Update(Join16(p[at], p[at + 1]), d)))
    ensures b.Tail() == old(b.Tail())
  {
    var f := AdjustField(Join16(b.buf[UIP_LLH_LEN + at], b.buf[UIP_LLH_LEN + at + 1]), d, little);
    b.Put(at, Be16(f));
  }

  // ---- Against the full computation ----

  lemma UpdateKeepsTotal(n: nat, w: u16, f: u16, d: u16)
    requires d <= w
    ensures (n + (w - d) + Update(f, d)) % 0xffff == (n + w + f) % 0xffff
  {
  }

  /** For a field that was right, the update gives bit for bit what recomputing the whole checksum gives. */
  lemma UpdateIsExact(n: nat, w: u16, f: u16, d: u16)
    requires 0 < d <= w && d < 0xffff && (n + w + f) % 0xffff == 0
    ensures Update(f, d) == FieldFor(Fold(n + (w - d)))
  {
    var s := n + (w - d);
    var g := FieldFor(Fold(s));
    UpdateKeepsTotal(n, w, f, d);
    FieldVerifies(0, s);
    AcceptedTotals(s + g);
    SameResidue(s, g, Update(f, d));
  }

  lemma SameResidue(s: nat, g: nat, u: nat)
    requires g < 0xffff && u < 0xffff && (s + g) % 0xffff == 0 && (s + u) % 0xffff == 0
    ensures g == u
  {
  }

  /** A message whose checksum field follows the word that changes. */
  function Message(a: seq<byte>, w: u16, f: u16, b: seq<byte>): seq<byte> { a + Be16(w) + Be16(f) + b }

  lemma MessageSum(a: seq<byte>, w: u16, f: u16, b: seq<byte>)
    requires |a| % 2 == 0
    ensures Words(Message(a, w, f, b)) == Words(a) + Words(b) + w + f
  {
    WordsConcat(a + Be16(w) + Be16(f), b);
    WordsConcat(a + Be16(w), Be16(f));
    WordsConcat(a, Be16(w));
    WordsOfField(w);
    WordsOfField(f);
  }

  lemma ChksumOfMessage(a: seq<byte>, w: u16, f: u16, b: seq<byte>)
    requires |a| % 2 == 0
    ensures Chksum(0, Message(a, w, f, b)) == Fold(Words(a) + Words(b) + w + f)
  {
    MessageSum(a, w, f, b);
    ChksumIsFold(0, Message(a, w, f, b));
  }

  lemma VerdictOnMessage(a: seq<byte>, w: u16, f: u16, b: seq<byte>)
    requires |a| % 2 == 0
    ensures Reported(Chksum(0, Message(a, w, f, b))) == 0xffff <==> (Words(a) + Words(b) + w + f) % 0xffff == 0
  {
    ChksumOfMessage(a, w, f, b);
    AcceptedTotals(Words(a) + Words(b) + w + f);
  }

  lemma SameVerdict(a: seq<byte>, w: u16, f: u16, w': u16, f': u16, b: seq<byte>)
    requires |a| % 2 == 0
    requires var n := Words(a) + Words(b); (n + w' + f') % 0xffff == (n + w + f) % 0xffff
    ensures Reported(Chksum(0, Message(a, w', f', b))) == 0xffff <==> Reported(Chksum(0, Message(a, w, f, b))) == 0xffff
  {
    VerdictOnMessage(a, w, f, b);
    VerdictOnMessage(a, w', f', b);
  }

  /** The updated message verifies exactly when the original did; errors are neither added nor hidden. */
  lemma UpdateKeepsVerdict(a: seq<byte>, w: u16, f: u16, b: seq<byte>, d: u16)
    requires |a| % 2 == 0 && d <= w
    ensures Reported(Chksum(0, Message(a, w - d, Update(f, d), b))) == 0xffff
       <==> Reported(Chksum(0, Message(a, w, f, b))) == 0xffff
  {
    UpdateKeepsTotal(Words(a) + Words(b), w, f, d);
    SameVerdict(a, w, f, w - d, Update(f, d), b);
  }

  /** The updated field is the one the sender of the changed message would have written. */
  lemma UpdateEqualsRecomputation(a: seq<byte>, w: u16, f: u16, b: seq<byte>, d: u16)
    requires |a| % 2 == 0 && 0 < d <= w && d < 0xffff && Reported(Chksum(0, Message(a, w, f, b))) == 0xffff
    ensures Update(f, d) == FieldFor(Chksum(0, Message(a, w - d, 0, b)))
  {
    VerdictOnMessage(a, w, f, b);
    ChksumOfMessage(a, w - d, 0, b);
    UpdateIsExact(Words(a) + Words(b), w, f, d);
  }

  /** A receiver that wants the bare sum to be 0xffff agrees, unless the changed message is all zero. */
  lemma StrictReceiver(a: seq<byte>, w: u16, f: u16, b: seq<byte>, d: u16)
    requires |a| % 2 == 0 && d <= w && Reported(Chksum(0, Message(a, w, f, b))) == 0xffff
    ensures
      var m := Message(a, w - d, Update(f, d), b);
      Chksum(0, m) == 0xffff <==> exists i :: 0 <= i < |m| && m[i] != 0
  {
    UpdateKeepsVerdict(a, w, f, b, d);
    ChksumZero(0, Message(a, w - d, Update(f, d), b));
  }
}
