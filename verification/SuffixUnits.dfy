/** The 32-bit unit of the minimal prefix trie (`DoubleArrayUnit` in
    src/include/darts-clone.h).  While the trie is built a unit holds a leaf bit, an
    end bit, a label and an offset; afterwards the 31 high bits of a leaf are taken
    over by a value id and a link into the tail. */
module SuffixUnits {
  import opened Bits

  datatype Unit =
    | Branch(leaf: bool, end: bool, letter: Byte, offset: nat)
    | Leaf(valueId: nat, link: nat)

  const Blank: Unit := Branch(false, false, 0, 0)

  predicate IsLeaf(u: Unit) {
    u.Leaf? || u.leaf
  }

  // ---- offsets ----

  const OFFSET_MAX: nat := 0x20_0000
  const OFFSET_LIMIT: nat := 0x2000_0000

  // The 22 bits an offset is stored in, and what is read back from them.
  function Raw(offset: nat): nat {
    if offset < OFFSET_MAX then offset else OFFSET_MAX + offset / 256
  }

  function FromRaw(raw: nat): nat {
    if raw < OFFSET_MAX then raw else (raw - OFFSET_MAX) * 256
  }

  /** An offset survives exactly when it is short or a multiple of 256. */
  lemma RawRoundTrip(offset: nat)
    requires offset < OFFSET_LIMIT
    ensures Raw(offset) < 2 * OFFSET_MAX
    ensures FromRaw(Raw(offset)) == offset <==> offset < OFFSET_MAX || offset % 256 == 0
  {
  }

  // The two mask tests of find_offset_index.
  predicate Representable(rel: nat) {
    rel % OFFSET_MAX == 0 || rel < OFFSET_MAX
  }

  lemma RepresentableSurvives(rel: nat)
    requires rel < OFFSET_LIMIT && (Representable(rel) || rel % 256 == 0)
    ensures FromRaw(Raw(rel)) == rel
  {
    RawRoundTrip(rel);
    if rel % OFFSET_MAX == 0 {
      assert rel == OFFSET_MAX * (rel / OFFSET_MAX);
      assert rel == 256 * (8192 * (rel / OFFSET_MAX));
    }
  }

  // ---- the word of a unit ----

  function Flag(b: bool): nat { if b then 1 else 0 }

  /** What fits the fields: an offset that is read back, an id below idMax (8 for three bits of
      value id, 1 for none) and a link in the bits that are left. */
  predicate InRange(u: Unit, idMax: nat) {
    match u
    case Branch(_, _, _, offset) => offset < OFFSET_LIMIT && FromRaw(Raw(offset)) == offset
    case Leaf(id, link) => id < idMax && idMax * link + id < 0x8000_0000
  }

  function WordOf(u: Unit, idMax: nat): nat {
    match u
    case Branch(leaf, end, letter, offset) => Flag(leaf) + 2 * Flag(end) + 4 * letter + 1024 * Raw(offset)
    case Leaf(id, link) => 1 + 2 * (id + idMax * link)
  }

  // The getters: bit fields of a word.
  predicate LeafBit(w: Word) { w % 2 == 1 }

  predicate EndBit(w: Word) { w / 2 % 2 == 1 }

  function LetterBits(w: Word): Byte { w / 4 % 256 }

  function OffsetBits(w: Word): nat { FromRaw(w / 1024) }

  function IdBits(w: Word, idMax: nat): nat
    requires idMax > 0
  {
    w / 2 % idMax
  }

  function LinkBits(w: Word, idMax: nat): nat
    requires idMax > 0
  {
    w / 2 / idMax
  }

  /** The bit fields of the word give back the fields of the unit. */
  lemma WordFields(u: Unit, idMax: nat)
    requires InRange(u, idMax) && idMax > 0
    ensures WordOf(u, idMax) < 0x1_0000_0000
    ensures LeafBit(WordOf(u, idMax)) <==> IsLeaf(u)
    ensures u.Branch? ==>
        var w := WordOf(u, idMax);
        (EndBit(w) <==> u.end) && LetterBits(w) == u.letter && OffsetBits(w) == u.offset
    ensures u.Leaf? ==>
        var w := WordOf(u, idMax);
        IdBits(w, idMax) == u.valueId && LinkBits(w, idMax) == u.link
  {
    match u
    case Branch(leaf, end, letter, offset) =>
      RawRoundTrip(offset);
      var r := Raw(offset);
      var w := WordOf(u, idMax);
      assert w == Flag(leaf) + 2 * (Flag(end) + 2 * letter + 512 * r);
      assert w / 2 == Flag(end) + 2 * (letter + 256 * r);
      assert w / 4 == letter + 256 * r;
      assert w / 1024 == r;
    case Leaf(id, link) =>
      var w := WordOf(u, idMax);
      assert w / 2 == id + idMax * link;
      DivMod(id, link, idMax);
  }

  /** The array as it lies in memory. */
  function Words(units: seq<Unit>, idMax: nat): (r: seq<Word>)
    requires idMax > 0 && forall x :: 0 <= x < |units| ==> InRange(units[x], idMax)
    ensures |r| == |units| && forall x :: 0 <= x < |units| ==> r[x] == WordOf(units[x], idMax)
  {
    if units == [] then []
    else
      WordFields(units[|units| - 1], idMax);
      Words(units[..|units| - 1], idMax) + [WordOf(units[|units| - 1], idMax)]
  }

  lemma DivMod(a: nat, q: nat, d: nat)
    requires a < d
    ensures (a + d * q) / d == q && (a + d * q) % d == a
  {
    var n := a + d * q;
    var k := n / d - q;
    assert n == d * (n / d) + n % d;
    assert d * k == d * (n / d) - d * q;
    Multiple(d, k);
  }

  lemma Multiple(d: int, k: int)
    requires d >= 0
    ensures k >= 1 ==> d * k >= d
    ensures k <= -1 ==> d * k <= -d
  {
    if k >= 1 {
      assert d * k == d + d * (k - 1);
    } else if k <= -1 {
      assert d * k == -d + d * (k + 1);
      assert d * (-(k + 1)) >= 0;
    }
  }
}
