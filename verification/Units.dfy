/** The 32-bit unit of the finished double array (`DoubleArrayUnit`) and of its
    builder (`DoubleArrayBuilderUnit`).  Bits 0-7 hold the label, bit 8 says
    whether a value hangs below, bit 9 selects the scale of the offset, bits
    10-31 hold the offset; a value unit sets bit 31 and keeps the value below. */
module Units {
  import opened Bits

  const MSB: nat := 0x8000_0000
  const OFFSET_LIMIT: nat := 0x2000_0000
  const SHORT_LIMIT: nat := 0x20_0000

  // ---- reading ----

  predicate HasLeaf(u: Word) {
    (u / 256) % 2 == 1
  }

  function ValueOf(u: Word): nat {
    u % MSB
  }

  function LabelOf(u: Word): nat {
    (u / MSB) * MSB + u % 256
  }

  function OffsetOf(u: Word): nat {
    if (u / 512) % 2 == 1 then (u / 1024) * 256 % 0x1_0000_0000 else u / 1024
  }

  // ---- writing ----

  function WithLeaf(u: Word): Word {
    if HasLeaf(u) then u else u + 256
  }

  function WithValue(v: nat): Word
    requires v < MSB
  {
    v + MSB
  }

  function WithLabel(u: Word, l: Byte): Word {
    u - u % 256 + l
  }

  // What set_offset keeps of the old word: bit 31, bit 8 and the label.
  function Kept(u: Word): Word {
    (u / MSB) * MSB + (if HasLeaf(u) then 256 else 0) + u % 256
  }

  function WithOffset(u: Word, offset: nat): nat
    requires offset < OFFSET_LIMIT
  {
    if offset < SHORT_LIMIT then Or(Kept(u), offset * 1024)
    else Or(Or(Kept(u), offset * 4), 512)
  }

  // The two mask tests under which the builder accepts a relative offset.
  predicate Encodable(rel: nat) {
    rel % 256 == 0 || (rel / SHORT_LIMIT) % 256 == 0
  }

  lemma OrLow(low: nat, high: nat)
    requires low < 512
    ensures Or(low, 512 * high) == low + 512 * high
  {
    var t := low / 256;
    OrJoin256(t, low % 256, 2 * high, 0);
    OrZero(low % 256);
    OrSplit2(t, 2 * high);
    OrZero(high);
    assert t / 2 == 0;
    assert (2 * high) / 2 == high;
  }

  /** A relative offset accepted by the mask tests is read back exactly, and
      writing it disturbs neither the label nor the leaf flag. */
  lemma OffsetRoundTrip(u: Word, offset: nat)
    requires u < MSB && offset < OFFSET_LIMIT && Encodable(offset)
    ensures WithOffset(u, offset) < MSB
    ensures OffsetOf(WithOffset(u, offset)) == offset
    ensures HasLeaf(WithOffset(u, offset)) == HasLeaf(u)
    ensures WithOffset(u, offset) % 256 == u % 256
  {
    hide Or, OffsetOf, HasLeaf, Kept, Encodable;
    KeptLow(u);
    var k, b := Kept(u), if HasLeaf(u) then 1 else 0;
    if offset < SHORT_LIMIT {
      OrLow(k, 2 * offset);
      Fields(u % 256, b, 0, offset);
    } else {
      HighMultiple(offset);
      var q := offset / 256;
      OrLow(k, 2 * q);
      OrCommBit(k, q);
      Fields(u % 256, b, 1, q);
    }
  }

  lemma KeptLow(u: Word)
    requires u < MSB
    ensures Kept(u) == u % 256 + (if HasLeaf(u) then 256 else 0)
  {
    assert u / MSB == 0;
  }

  lemma HighMultiple(offset: nat)
    requires SHORT_LIMIT <= offset < OFFSET_LIMIT && Encodable(offset)
    ensures offset % 256 == 0
  {
    assert 0 < offset / SHORT_LIMIT < 256;
  }

  lemma Div256(a: nat, q: nat)
    requires a < 256
    ensures (a + 256 * q) / 256 == q && (a + 256 * q) % 256 == a
  {
  }

  lemma Div512(a: nat, q: nat)
    requires a < 512
    ensures (a + 512 * q) / 512 == q
  {
  }

  lemma Div1024(a: nat, q: nat)
    requires a < 1024
    ensures (a + 1024 * q) / 1024 == q
  {
  }

  // The fields of a word given by its parts: label, leaf bit, scale bit, offset bits.
  lemma Fields(low: Byte, b: nat, s: nat, q: nat)
    requires q < SHORT_LIMIT && b < 2 && s < 2
    ensures var w := low + 256 * b + 512 * s + 1024 * q;
            && w < MSB
            && w % 256 == low
            && HasLeaf(w) == (b == 1)
            && OffsetOf(w) == (if s == 1 then 256 * q else q)
  {
    var w := low + 256 * b + 512 * s + 1024 * q;
    assert w % 256 == low && w / 256 == b + 2 * s + 4 * q by {
      Div256(low, b + 2 * s + 4 * q);
      assert w == low + 256 * (b + 2 * s + 4 * q);
    }
    assert w / 512 == s + 2 * q by {
      Div512(low + 256 * b, s + 2 * q);
      assert w == (low + 256 * b) + 512 * (s + 2 * q);
    }
    assert w / 1024 == q by {
      Div1024(low + 256 * b + 512 * s, q);
    }
    Parity(b, s + 2 * q);
    Parity(s, q);
  }

  lemma Parity(b: nat, h: nat)
    requires b < 2
    ensures (b + 2 * h) % 2 == b
  {
  }

  // Setting bit 9 of a word whose bit 9 is clear adds 512.
  lemma OrCommBit(k: nat, q: nat)
    requires k < 512
    ensures Or(k + 1024 * q, 512) == k + 1024 * q + 512
  {
    OrJoin256(4 * q + k / 256, k % 256, 2, 0);
    OrZero(k % 256);
    var a := 4 * q + k / 256;
    OrSplit2(a, 2);
    OrSplit2(a / 2, 1);
    assert a / 2 == 2 * q;
    OrZero(q);
    assert (a / 2) / 2 == q;
  }

  /** The encoding is lossless exactly on the offsets the mask tests accept. */
  lemma OffsetLosslessIff(u: Word, offset: nat)
    requires u < MSB && offset < OFFSET_LIMIT
    ensures WithOffset(u, offset) < 0x1_0000_0000
    ensures OffsetOf(WithOffset(u, offset)) == offset <==> Encodable(offset)
  {
    if Encodable(offset) {
      OffsetRoundTrip(u, offset);
    } else {
      LongFormScaled(u, offset);
    }
  }

  // Off the accepted offsets the long form is used and only multiples of 256 come back.
  lemma LongFormScaled(u: Word, offset: nat)
    requires u < MSB && offset < OFFSET_LIMIT && !Encodable(offset)
    ensures WithOffset(u, offset) < 0x1_0000_0000
    ensures OffsetOf(WithOffset(u, offset)) % 256 == 0
  {
    hide Or, OffsetOf, HasLeaf, Kept;
    KeptLow(u);
    var x := Or(Kept(u), offset * 4);
    OrLess(Kept(u), offset * 4);
    OrLess(x, 512);
    Bit9Set(x);
    ScaledMultiple(WithOffset(u, offset));
  }

  lemma ScaledMultiple(w: Word)
    requires (w / 512) % 2 == 1
    ensures OffsetOf(w) % 256 == 0
  {
    var m := w / 1024;
    assert m * 256 % 0x1_0000_0000 % 256 == 0;
  }

  lemma Bit9Set(x: nat)
    ensures (Or(x, 512) / 512) % 2 == 1
  {
    OrJoin256(x / 256, x % 256, 2, 0);
    OrSplit2(x / 256, 2);
    OrSplit2((x / 256) / 2, 1);
  }

  lemma {:induction false} OrLess(a: nat, b: nat)
    ensures Or(a, b) <= a + b
    decreases a + b
  {
    if a != 0 || b != 0 {
      OrLess(a / 2, b / 2);
      OrSplit2(a, b);
    }
  }

  lemma LabelFacts(u: Word, l: Byte)
    requires u < MSB
    ensures WithLabel(u, l) < MSB
    ensures LabelOf(WithLabel(u, l)) == l
    ensures HasLeaf(WithLabel(u, l)) == HasLeaf(u)
    ensures OffsetOf(WithLabel(u, l)) == OffsetOf(u)
  {
    var w := WithLabel(u, l);
    assert w / 256 == u / 256;
    assert w / 512 == (w / 256) / 2 && u / 512 == (u / 256) / 2;
    assert w / 1024 == (w / 256) / 4 && u / 1024 == (u / 256) / 4;
  }

  lemma LeafFacts(u: Word)
    requires u < MSB
    ensures WithLeaf(u) < MSB
    ensures HasLeaf(WithLeaf(u))
    ensures WithLeaf(u) % 256 == u % 256
    ensures OffsetOf(WithLeaf(u)) == OffsetOf(u)
  {
    if !HasLeaf(u) {
      var h := u / 512;
      assert u == 512 * h + u % 256 by {
        assert (u / 256) / 2 == h;
        assert u == 256 * (u / 256) + u % 256;
      }
      LeafAdded(h, u % 256);
    }
  }

  lemma LeafAdded(h: nat, l: Byte)
    requires 512 * h + 512 <= MSB
    ensures HasLeaf(512 * h + l + 256)
    ensures (512 * h + l + 256) % 256 == l
    ensures OffsetOf(512 * h + l + 256) == OffsetOf(512 * h + l)
  {
    assert (512 * h + l + 256) / 512 == h && (512 * h + l) / 512 == h;
    assert (512 * h + l + 256) / 1024 == h / 2 && (512 * h + l) / 1024 == h / 2;
    assert (512 * h + l + 256) / 256 == 2 * h + 1;
  }

  lemma ValueFacts(v: nat)
    requires v < MSB
    ensures ValueOf(WithValue(v)) == v
    ensures LabelOf(WithValue(v)) >= MSB
  {
  }
}
