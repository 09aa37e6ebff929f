/** The direct build of the double array from a key list (`build_from_keyset`). */
module KeysetBuild {
  import opened Bits
  import opened Outcomes
  import opened Units
  import opened Languages
  import opened DoubleArray
  import opened BuilderInvariant
  import opened BuilderPlacing
  import opened Builder
  import opened Prefixes
  import opened Keyset

  // A key list without lengths consists of zero-terminated strings.
  ghost predicate GoodKeys(ks: Keys, hasLengths: bool) {
    !hasLengths ==> forall i :: 0 <= i < |ks| ==> NulFreeFrom(ks[i], 0)
  }

  ghost function MaxLen(ks: Keys): (r: nat)
    ensures forall i :: 0 <= i < |ks| ==> |ks[i]| <= r
  {
    if ks == [] then 0
    else
      var m, last := MaxLen(ks[..|ks| - 1]), |ks[|ks| - 1]|;
      assert forall i :: 0 <= i < |ks| - 1 ==> ks[i] == ks[..|ks| - 1][i];
      if last > m then last else m
  }

  ghost function LabelsIn(ks: Keys, lo: nat, hi: nat, depth: nat): set<Byte>
    requires Deep(ks, lo, hi, depth)
  {
    set i: nat | lo <= i < hi :: CharAt(ks[i], depth)
  }

  // ---- arrange_from_keyset: the labels of a level ----

  // The labels collected so far, and the value of the first key that ends here.
  ghost predicate Collecting(ks: Keys, begin: nat, i: nat, depth: nat, labels: seq<Byte>, value: int)
    requires Deep(ks, begin, i, depth)
  {
    && LevelOK(ks, begin, i, depth)
    && (forall a, b :: 0 <= a < b < |labels| ==> labels[a] < labels[b])
    && (begin == i ==> labels == [])
    && (begin < i ==> labels != [] && labels[|labels| - 1] == CharAt(ks[i - 1], depth))
    && LabelSet(labels) == LabelsIn(ks, begin, i, depth)
    && (if begin < i && CharAt(ks[begin], depth) == 0 then value == Val(begin) else value == -1)
  }

  method CollectLabels(b: DoubleArrayBuilder, ks: Keys, hasLengths: bool, begin: nat, end: nat, depth: nat)
    returns (r: Outcome, value: int)
    requires GoodKeys(ks, hasLengths) && Deep(ks, begin, end, depth)
    modifies b`labels
    ensures r.Done? <==> LevelOK(ks, begin, end, depth)
    ensures r.Done? ==> Collecting(ks, begin, end, depth, b.labels, value)
    ensures r.Failed? ==> exists i :: FirstOffence(ks, begin, i, end, depth, r.error)
  {
    hide CastValue, Collecting, LevelOK, FirstOffence;
    b.labels := [];
    value := -1;
    var i := begin;
    NoLabels(ks, begin, depth);
    while i < end
      invariant begin <= i <= end
      invariant Deep(ks, begin, i, depth) && Collecting(ks, begin, i, depth, b.labels, value)
    {
      var c := CharAt(ks[i], depth);
      if c == 0 {
        if hasLengths && depth < |ks[i]| {
          LevelFails(ks, begin, i, end, depth, b.labels, value, InvalidNull);
          return Failed(InvalidNull), value;
        }
        AtEnd(ks, hasLengths, i, depth);
        if CastValue(i) < 0 {
          LevelFails(ks, begin, i, end, depth, b.labels, value, NegativeValue);
          return Failed(NegativeValue), value;
        }
      }
      if b.labels != [] && c < b.labels[|b.labels| - 1] {
        LevelFails(ks, begin, i, end, depth, b.labels, value, WrongOrder);
        return Failed(WrongOrder), value;
      }
      CollectStep(ks, begin, i, depth, b.labels, value);
      if c == 0 && value == -1 {
        CastExact(i);
        value := CastValue(i);
      }
      if b.labels == [] || c != b.labels[|b.labels| - 1] {
        b.labels := b.labels + [c];
      }
      i := i + 1;
    }
    CollectedLevel(ks, begin, end, depth, b.labels, value);
    return Done, value;
  }

  lemma LevelFails(ks: Keys, begin: nat, i: nat, end: nat, depth: nat, labels: seq<Byte>, value: int, error: Error)
    requires Deep(ks, begin, end, depth) && begin <= i < end && Deep(ks, begin, i, depth)
    requires Collecting(ks, begin, i, depth, labels, value)
    requires
      var c := CharAt(ks[i], depth);
      match error
      case InvalidNull => c == 0 && depth < |ks[i]|
      case NegativeValue => c == 0 && depth == |ks[i]| && CastValue(i) < 0
      case WrongOrder =>
        && labels != [] && c < labels[|labels| - 1]
        && (c == 0 ==> depth == |ks[i]| && CastValue(i) >= 0)
      case _ => false
    ensures FirstOffence(ks, begin, i, end, depth, error) && !LevelOK(ks, begin, end, depth)
  {
    hide CastValue, LevelOK, LabelSet, LabelsIn;
    OffenceBlames(ks, begin, i, end, depth, error);
  }

  lemma CollectedLevel(ks: Keys, begin: nat, end: nat, depth: nat, labels: seq<Byte>, value: int)
    requires Deep(ks, begin, end, depth) && Collecting(ks, begin, end, depth, labels, value)
    ensures LevelOK(ks, begin, end, depth)
  {
  }

  lemma NoLabels(ks: Keys, begin: nat, depth: nat)
    requires Deep(ks, begin, begin, depth)
    ensures Collecting(ks, begin, begin, depth, [], -1)
  {
  }

  // Without lengths a zero byte is the terminator.
  lemma AtEnd(ks: Keys, hasLengths: bool, i: nat, depth: nat)
    requires GoodKeys(ks, hasLengths) && i < |ks| && depth <= |ks[i]| && CharAt(ks[i], depth) == 0
    requires !(hasLengths && depth < |ks[i]|)
    ensures |ks[i]| == depth
  {
    if !hasLengths { assert NulFreeFrom(ks[i], 0); }
  }

  lemma CollectStep(ks: Keys, begin: nat, i: nat, depth: nat, labels: seq<Byte>, value: int)
    requires Deep(ks, begin, i + 1, depth) && begin <= i && Deep(ks, begin, i, depth)
    requires Collecting(ks, begin, i, depth, labels, value)
    requires CharAt(ks[i], depth) == 0 ==> |ks[i]| == depth && CastValue(i) >= 0
    requires labels == [] || CharAt(ks[i], depth) >= labels[|labels| - 1]
    ensures var c := CharAt(ks[i], depth);
            Collecting(ks, begin, i + 1, depth,
                       if labels == [] || c != labels[|labels| - 1] then labels + [c] else labels,
                       if c == 0 && value == -1 then Val(i) else value)
  {
    hide CastValue, LabelSet, LabelsIn;
    var c := CharAt(ks[i], depth);
    var labels' := if labels == [] || c != labels[|labels| - 1] then labels + [c] else labels;
    LevelStep(ks, begin, i, depth);
    assert LabelSet(labels') == LabelsIn(ks, begin, i + 1, depth) by {
      LabelsGrow(ks, begin, i, depth, labels);
    }
    if begin < i && c == 0 {
      assert CharAt(ks[begin], depth) <= CharAt(ks[i], depth);
    }
  }

  lemma LevelStep(ks: Keys, begin: nat, i: nat, depth: nat)
    requires Deep(ks, begin, i + 1, depth) && begin <= i && Deep(ks, begin, i, depth) && LevelOK(ks, begin, i, depth)
    requires CharAt(ks[i], depth) == 0 ==> |ks[i]| == depth && CastValue(i) >= 0
    requires begin < i ==> CharAt(ks[i - 1], depth) <= CharAt(ks[i], depth)
    ensures LevelOK(ks, begin, i + 1, depth)
  {
    hide CastValue;
  }

  lemma LabelsGrow(ks: Keys, begin: nat, i: nat, depth: nat, labels: seq<Byte>)
    requires Deep(ks, begin, i + 1, depth) && begin <= i && Deep(ks, begin, i, depth)
    requires LabelSet(labels) == LabelsIn(ks, begin, i, depth)
    ensures var c := CharAt(ks[i], depth);
            var labels' := if labels == [] || c != labels[|labels| - 1] then labels + [c] else labels;
            LabelSet(labels') == LabelsIn(ks, begin, i + 1, depth)
  {
    var c := CharAt(ks[i], depth);
    assert LabelsIn(ks, begin, i + 1, depth) == LabelsIn(ks, begin, i, depth) + {c};
    if labels == [] || c != labels[|labels| - 1] {
      assert LabelSet(labels + [c]) == LabelSet(labels) + {c};
    } else {
      assert c in LabelSet(labels);
    }
  }

  // ---- build_from_keyset ----

  // The labels of a level are fit for placing the children of its node.
  lemma LevelLabels(ks: Keys, begin: nat, end: nat, depth: nat, labels: seq<Byte>, value: int)
    requires Deep(ks, begin, end, depth) && begin < end && Collecting(ks, begin, end, depth, labels, value)
    ensures labels != [] && NoRepeat(labels)
    ensures LabelsOf(RangeLang(ks, begin, end, depth), LabelSet(labels))
    ensures [] in RangeLang(ks, begin, end, depth) ==>
              value == RangeLang(ks, begin, end, depth)[[]] && 0 <= value < MSB
  {
    hide RangeLang, Starts, CharAt, CastValue;
    var L := RangeLang(ks, begin, end, depth);
    LevelStarts(ks, begin, end, depth, 0);
    forall c: Byte ensures c in LabelSet(labels) <==> (if c == 0 then [] in L else Starts(L, c)) {
      LevelStarts(ks, begin, end, depth, c);
      assert c in LabelSet(labels) <==> c in LabelsIn(ks, begin, end, depth);
    }
    if [] in L {
      var i :| begin <= i < end && CharAt(ks[i], depth) == 0;
      assert CharAt(ks[begin], depth) <= CharAt(ks[i], depth);
      LevelValue(ks, begin, end, depth);
    }
  }

  lemma MakeRun(ks: Keys, begin: nat, end: nat, depth: nat, lo: nat, hi: nat, c: Byte)
    requires Deep(ks, begin, end, depth) && LevelOK(ks, begin, end, depth) && begin <= lo < hi <= end && c != 0
    requires forall i :: lo <= i < hi ==> CharAt(ks[i], depth) == c
    requires lo > begin ==> CharAt(ks[lo - 1], depth) != c
    requires hi < end ==> CharAt(ks[hi], depth) != c
    ensures Run(ks, begin, end, depth, lo, hi, c) && Deep(ks, lo, hi, depth + 1)
    ensures Deep(ks, lo, end, depth) && Deep(ks, hi, end, depth)
    ensures LabelsIn(ks, lo, end, depth) - {c} == LabelsIn(ks, hi, end, depth)
    ensures c in LabelsIn(ks, lo, end, depth)
  {
    hide CastValue;
    forall i | begin <= i < end && !(lo <= i < hi) ensures CharAt(ks[i], depth) != c {
      if i < lo {
        assert i == lo - 1 || CharAt(ks[i], depth) <= CharAt(ks[lo - 1], depth);
        assert CharAt(ks[lo - 1], depth) <= CharAt(ks[lo], depth);
      } else {
        assert i == hi || CharAt(ks[hi], depth) <= CharAt(ks[i], depth);
        assert CharAt(ks[lo], depth) <= CharAt(ks[hi], depth);
      }
    }
    assert CharAt(ks[lo], depth) == c;
  }

  /** Checks the level, lists its labels and places one child per label. */
  method ArrangeFromKeyset(b: DoubleArrayBuilder, ks: Keys, hasLengths: bool, begin: nat, end: nat, depth: nat, d: nat)
    returns (r: Outcome, w: nat, ghost value: int)
    requires GoodKeys(ks, hasLengths) && Deep(ks, begin, end, depth) && begin < end
    requires b.Quiet() && Pending(b.v, d) && b.v.lang[d] == RangeLang(ks, begin, end, depth)
    modifies b, b.extras
    ensures r.Done? ==> b.Quiet() && Collecting(ks, begin, end, depth, b.labels, value)
    ensures r.Done? ==> d in old(b.v).lang && Remaining(old(b.v), b.v, d, w, LabelSet(b.labels) - {0})
    ensures r.Failed? && r.error != TooLargeOffset ==> exists i :: FirstOffence(ks, begin, i, end, depth, r.error)
    ensures r.Failed? && r.error == TooLargeOffset ==> d in old(b.v).lang && Overfull(old(b.v), d)
  {
    hide RangeLang, Remaining, Collecting, LevelOK, BuilderOK, Settled, LabelsOf, NoRepeat, Arranged, LabelSet;
    hide Overfull, FirstOffence, RangeBlames;
    w := 0;
    var v;
    r, v := CollectLabels(b, ks, hasLengths, begin, end, depth);
    value := v;
    if r.Failed? {
      OffenceError(ks, begin, end, depth, r.error);
      return;
    }
    LevelLabels(ks, begin, end, depth, b.labels, v);
    r, w := b.PlaceChildren(d, if v >= 0 then v else 0);
  }

  lemma OffenceError(ks: Keys, begin: nat, end: nat, depth: nat, error: Error)
    requires Deep(ks, begin, end, depth) && exists i :: FirstOffence(ks, begin, i, end, depth, error)
    ensures error != TooLargeOffset && RangeBlames(ks, begin, end, depth, error)
  {
    hide RangeBlames, LevelOK, CastValue;
    var i :| FirstOffence(ks, begin, i, end, depth, error);
    OffenceBlames(ks, begin, i, end, depth, error);
  }

  /** Builds the subtrie of the keys [begin, end), which agree up to depth, below
      node d; fails exactly when the range is not acceptable or an offset is too
      large, and otherwise decides node d and everything under it. */
  method BuildRange(b: DoubleArrayBuilder, ks: Keys, hasLengths: bool, begin: nat, end: nat, depth: nat, d: nat)
    returns (r: Outcome)
    requires GoodKeys(ks, hasLengths) && Deep(ks, begin, end, depth) && begin < end
    requires b.Quiet() && Pending(b.v, d) && b.v.lang[d] == RangeLang(ks, begin, end, depth)
    modifies b, b.extras
    ensures r.Done? ==> b.Quiet() && Decides(old(b.v), b.v, d) && RangeOK(ks, begin, end, depth)
    ensures r.Failed? && r.error != TooLargeOffset ==> RangeBlames(ks, begin, end, depth, r.error)
    ensures r.Failed? && r.error == TooLargeOffset ==> d in old(b.v).lang && Overfull(old(b.v), d)
    decreases MaxLen(ks) - depth, 2
  {
    hide RangeLang, Decides, Remaining, Collecting, RangeOK, LevelOK, LabelsIn, MaxLen, LabelSet, BuilderOK, Settled;
    hide RangeBlames, FirstOffence;
    hide Overfull;
    ghost var v0 := b.v;
    var w;
    ghost var value;
    r, w, value := ArrangeFromKeyset(b, ks, hasLengths, begin, end, depth, d);
    if r.Failed? {
      if r.error != TooLargeOffset { OffenceError(ks, begin, end, depth, r.error); }
      return;
    }
    var lo := begin;
    while lo < end && CharAt(ks[lo], depth) == 0
      invariant begin <= lo <= end
      invariant forall i :: begin <= i < lo ==> CharAt(ks[i], depth) == 0
    {
      lo := lo + 1;
    }
    ZerosGone(ks, begin, lo, end, depth, b.labels, value);
    RangeZeros(ks, begin, end, depth, lo);
    if lo == end {
      RemainingEnd(v0, b.v, d, w);
      return;
    }
    r := BuildRuns(b, ks, hasLengths, begin, lo, end, depth, d, w, v0);
  }

  // The labels that remain after the keys ending at this level.
  lemma ZerosGone(ks: Keys, begin: nat, lo: nat, end: nat, depth: nat, labels: seq<Byte>, value: int)
    requires Deep(ks, begin, end, depth) && begin <= lo <= end && Collecting(ks, begin, end, depth, labels, value)
    requires forall i :: begin <= i < lo ==> CharAt(ks[i], depth) == 0
    requires lo < end ==> CharAt(ks[lo], depth) != 0
    ensures Deep(ks, lo, end, depth) && LevelOK(ks, begin, end, depth)
    ensures LabelSet(labels) - {0} == LabelsIn(ks, lo, end, depth)
    ensures lo == end ==> LabelsIn(ks, lo, end, depth) == {}
  {
    hide CastValue, LabelSet;
    forall i | lo <= i < end ensures CharAt(ks[i], depth) != 0 {
      assert i == lo || CharAt(ks[lo], depth) <= CharAt(ks[i], depth);
    }
    assert LabelsIn(ks, begin, end, depth) - {0} == LabelsIn(ks, lo, end, depth);
  }

  // The keys from lo on, run by run, each run below the child of its byte.
  method BuildRuns(b: DoubleArrayBuilder, ks: Keys, hasLengths: bool, begin: nat, start: nat, end: nat, depth: nat,
                   d: nat, w: nat, ghost v0: View) returns (r: Outcome)
    requires GoodKeys(ks, hasLengths) && Deep(ks, begin, end, depth) && LevelOK(ks, begin, end, depth)
    requires begin <= start < end && CharAt(ks[start], depth) != 0
    requires start > begin ==> CharAt(ks[start - 1], depth) == 0
    requires Deep(ks, begin, start, depth) && RangeOK(ks, begin, start, depth)
    requires b.Quiet() && Pending(v0, d) && v0.lang[d] == RangeLang(ks, begin, end, depth)
    requires Deep(ks, start, end, depth) && Remaining(v0, b.v, d, w, LabelsIn(ks, start, end, depth))
    modifies b, b.extras
    ensures r.Done? ==> b.Quiet() && Decides(v0, b.v, d) && RangeOK(ks, begin, end, depth)
    ensures r.Failed? && r.error != TooLargeOffset ==> RangeBlames(ks, begin, end, depth, r.error)
    ensures r.Failed? && r.error == TooLargeOffset ==> Overfull(v0, d)
    decreases MaxLen(ks) - depth, 1
  {
    hide RangeLang, Decides, Remaining, RangeOK, LevelOK, LabelsIn, MaxLen, BuilderOK, CharAt, Overfull;
    hide RangeBlames, FirstOffence;
    var lastBegin, lastLabel := start, CharAt(ks[start], depth);
    var i := start + 1;
    while i < end
      invariant start <= lastBegin < i <= end && lastLabel != 0
      invariant forall j :: lastBegin <= j < i ==> CharAt(ks[j], depth) == lastLabel
      invariant lastBegin > begin ==> CharAt(ks[lastBegin - 1], depth) != lastLabel
      invariant Deep(ks, begin, lastBegin, depth) && RangeOK(ks, begin, lastBegin, depth)
      invariant Deep(ks, lastBegin, end, depth)
      invariant b.Quiet() && Remaining(v0, b.v, d, w, LabelsIn(ks, lastBegin, end, depth))
    {
      if CharAt(ks[i], depth) != lastLabel {
        r := BuildRun(b, ks, hasLengths, begin, end, depth, lastBegin, i, lastLabel, d, w, v0);
        if r.Failed? {
          return;
        }
        Climb(ks, begin, end, depth, i);
        lastBegin, lastLabel := i, CharAt(ks[i], depth);
      }
      i := i + 1;
    }
    r := BuildRun(b, ks, hasLengths, begin, end, depth, lastBegin, end, lastLabel, d, w, v0);
    if r.Done? {
      NoneLeft(ks, end, depth);
      RemainingEnd(v0, b.v, d, w);
    }
  }

  lemma Climb(ks: Keys, begin: nat, end: nat, depth: nat, i: nat)
    requires Deep(ks, begin, end, depth) && LevelOK(ks, begin, end, depth) && begin < i < end
    ensures CharAt(ks[i - 1], depth) <= CharAt(ks[i], depth)
  {
  }

  lemma NoneLeft(ks: Keys, end: nat, depth: nat)
    requires Deep(ks, end, end, depth)
    ensures LabelsIn(ks, end, end, depth) == {}
  {
  }

  method BuildRun(b: DoubleArrayBuilder, ks: Keys, hasLengths: bool, begin: nat, end: nat, depth: nat,
                  lo: nat, hi: nat, c: Byte, d: nat, w: nat, ghost v0: View) returns (r: Outcome)
    requires GoodKeys(ks, hasLengths) && Deep(ks, begin, end, depth) && LevelOK(ks, begin, end, depth)
    requires begin <= lo < hi <= end && c != 0
    requires forall i :: lo <= i < hi ==> CharAt(ks[i], depth) == c
    requires lo > begin ==> CharAt(ks[lo - 1], depth) != c
    requires hi < end ==> CharAt(ks[hi], depth) != c
    requires Deep(ks, begin, lo, depth) && RangeOK(ks, begin, lo, depth)
    requires b.Quiet() && Pending(v0, d) && v0.lang[d] == RangeLang(ks, begin, end, depth)
    requires Deep(ks, lo, end, depth) && Remaining(v0, b.v, d, w, LabelsIn(ks, lo, end, depth))
    modifies b, b.extras
    ensures Deep(ks, hi, end, depth) && Deep(ks, begin, hi, depth)
    ensures r.Done? ==> b.Quiet() && Remaining(v0, b.v, d, w, LabelsIn(ks, hi, end, depth))
    ensures r.Done? ==> RangeOK(ks, begin, hi, depth)
    ensures r.Failed? && r.error != TooLargeOffset ==> RangeBlames(ks, begin, end, depth, r.error)
    ensures r.Failed? && r.error == TooLargeOffset ==> Overfull(v0, d)
    decreases MaxLen(ks) - depth, 0
  {
    hide RangeLang, Decides, Remaining, RangeOK, LevelOK, LabelsIn, MaxLen, BuilderOK, CharAt, Run, Overfull;
    hide RangeBlames, FirstOffence;
    MakeRun(ks, begin, end, depth, lo, hi, c);
    RunLang(ks, begin, end, depth, lo, hi, c);
    ghost var v := b.v;
    ChildReady(v0, v, d, w, LabelsIn(ks, lo, end, depth), c);
    assert depth + 1 <= |ks[lo]| <= MaxLen(ks);
    r := BuildRange(b, ks, hasLengths, lo, hi, depth + 1, Xor(w, c));
    if r.Done? {
      RemainingStep(v0, v, b.v, d, w, LabelsIn(ks, lo, end, depth), c);
      RangeJoin(ks, begin, end, depth, lo, hi, c);
    } else if r.error != TooLargeOffset {
      RunBlames(ks, begin, end, depth, lo, hi, c, r.error);
    } else {
      OverfullChild(v0, v, d, w, LabelsIn(ks, lo, end, depth), c);
    }
  }

  // ---- the whole build ----

  /** What the build demands of a key list: no zero bytes, byte order, and at
      most 2^31 keys, so that the index is a non-negative 32-bit integer. */
  ghost predicate Acceptable(ks: Keys) {
    && |ks| <= 0x8000_0000
    && (forall i :: 0 <= i < |ks| ==> NulFreeFrom(ks[i], 0))
    && (forall i, j :: 0 <= i < j < |ks| ==> LexLeq(ks[i], ks[j]))
  }

  /** What is wrong with a key list that is refused with this exception: a zero byte in a key, more
      than 2^31 keys, or two keys out of order. */
  ghost predicate Blames(ks: Keys, error: Error) {
    match error
    case InvalidNull => exists i :: 0 <= i < |ks| && !NulFreeFrom(ks[i], 0)
    case NegativeValue => |ks| > 0x8000_0000
    case WrongOrder => exists i, j :: 0 <= i < j < |ks| && !LexLeq(ks[i], ks[j])
    case _ => false
  }

  lemma AllBlames(ks: Keys, error: Error)
    requires Deep(ks, 0, |ks|, 0) && RangeBlames(ks, 0, |ks|, 0, error)
    ensures Blames(ks, error) && !Acceptable(ks)
  {
    hide LexLeq, NulFreeFrom;
    if error.WrongOrder? {
      var i, j :| 0 <= i < j < |ks| && !LexLeq(ks[i][0..], ks[j][0..]);
      assert ks[i][0..] == ks[i] && ks[j][0..] == ks[j];
    }
  }

  /** So where only one thing is wrong, the exception is the one for it. */
  lemma OneReason(ks: Keys, error: Error)
    requires Blames(ks, error)
    ensures (forall i :: 0 <= i < |ks| ==> NulFreeFrom(ks[i], 0)) && |ks| <= 0x8000_0000 ==> error == WrongOrder
    ensures (forall i, j :: 0 <= i < j < |ks| ==> LexLeq(ks[i], ks[j])) ==> error != WrongOrder
    ensures (forall i :: 0 <= i < |ks| ==> NulFreeFrom(ks[i], 0)) ==> error != InvalidNull
    ensures |ks| <= 0x8000_0000 ==> error != NegativeValue
  {
  }

  function FirstIndex(ks: Keys, key: Key): (r: nat)
    requires key in ks
    ensures r < |ks| && ks[r] == key && key !in ks[..r]
  {
    if ks[0] == key then 0 else
      assert forall i :: 1 <= i < |ks| ==> ks[i] == ks[1..][i - 1];
      var r := FirstIndex(ks[1..], key) + 1;
      assert ks[..r] == [ks[0]] + ks[1..][..r - 1];
      r
  }

  /** The dictionary of a key list: each key with the index of its first occurrence. */
  function IndexOf(ks: Keys): Lang {
    map key | key in ks :: FirstIndex(ks, key)
  }

  lemma AcceptableRange(ks: Keys)
    ensures Deep(ks, 0, |ks|, 0)
    ensures RangeOK(ks, 0, |ks|, 0) <==> Acceptable(ks)
  {
    hide LexLeq, NulFreeFrom;
    if RangeOK(ks, 0, |ks|, 0) {
      assert CastValue(0x8000_0000) < 0;
      forall i, j | 0 <= i < j < |ks| ensures LexLeq(ks[i], ks[j]) {
        assert ks[i][0..] == ks[i] && ks[j][0..] == ks[j];
      }
    }
    if Acceptable(ks) {
      forall i | 0 <= i < |ks| ensures CastValue(i) >= 0 { }
      forall i, j | 0 <= i < j < |ks| ensures LexLeq(ks[i][0..], ks[j][0..]) {
        assert ks[i][0..] == ks[i] && ks[j][0..] == ks[j];
      }
    }
  }

  lemma RangeIsIndex(ks: Keys)
    requires Deep(ks, 0, |ks|, 0) && |ks| <= 0x8000_0000
    ensures RangeLang(ks, 0, |ks|, 0) == IndexOf(ks)
  {
    hide RangeLang, FirstAt, FirstIndex;
    var L := RangeLang(ks, 0, |ks|, 0);
    forall key: Key
      ensures key in L <==> key in ks
      ensures key in ks ==> L[key] == FirstIndex(ks, key)
    {
      RangeLangHas(ks, 0, |ks|, 0, key);
      var f := FirstAt(ks, 0, |ks|, 0, key);
      if f < |ks| { assert ks[f][0..] == ks[f]; }
      if key in ks {
        var g := FirstIndex(ks, key);
        forall i | 0 <= i < g ensures ks[i][0..] != key {
          assert ks[i] == ks[..g][i];
          assert ks[i][0..] == ks[i];
        }
        assert ks[g][0..] == ks[g];
        FirstUnique(ks, 0, |ks|, 0, key, g);
      }
    }
  }

  /** The direct build is correct: it accepts exactly the acceptable key lists, and the array it
      returns serves, from the root, the dictionary that maps each key to the index of its first
      occurrence. It runs out of offsets only when the list has two million bytes. */
  method BuildFromKeyset(ks: Keys, hasLengths: bool) returns (r: Outcome, units: seq<Word>, ghost lang: map<nat, Lang>)
    requires GoodKeys(ks, hasLengths)
    ensures r.Done? ==> Acceptable(ks) && Built(units, lang, IndexOf(ks))
    ensures r.Failed? && r.error != TooLargeOffset ==> Blames(ks, r.error) && !Acceptable(ks)
    ensures TotalLength(ks) < 0x20_0000 ==> (r.Done? <==> Acceptable(ks))
  {
    hide RangeLang, RangeOK, BuilderOK, Settled, Acceptable, Represents, IndexOf, TotalLength, Size, RangeBlames;
    hide Blames;
    units, lang := [], map[];
    AcceptableRange(ks);
    var b := new DoubleArrayBuilder();
    b.PlantRoot(RangeLang(ks, 0, |ks|, 0));
    if |ks| > 0 {
      r := BuildAll(b, ks, hasLengths);
      if r.Failed? {
        RangeSize(ks);
        if r.error != TooLargeOffset { AllBlames(ks, r.error); }
        return;
      }
    } else {
      r := Done;
      NoKeysOK(ks);
    }
    b.FixAllBlocks();
    units, lang := b.units, b.v.lang;
    AcceptableSize(ks);
    RangeIsIndex(ks);
    b.DictNow();
    b.FinishedFacts();
    IndexKeys(ks);
    if |ks| > 0 {
      FinishedRepresents(units, b.v);
    } else {
      EmptyIs(units, b.v);
    }
  }

  lemma RangeSize(ks: Keys)
    requires Deep(ks, 0, |ks|, 0)
    ensures Size(RangeLang(ks, 0, |ks|, 0)) <= TotalLength(ks)
  {
    hide RangeLang, FirstAt, Size, TotalLength;
    var L := RangeLang(ks, 0, |ks|, 0);
    forall key | key in L ensures key in ks {
      RangeLangHas(ks, 0, |ks|, 0, key);
      var f := FirstAt(ks, 0, |ks|, 0, key);
      assert ks[f][0..] == ks[f];
    }
    SizeBound(L, ks);
  }

  lemma IndexKeys(ks: Keys)
    ensures IndexOf(ks) == map[] <==> ks == []
  {
    if ks != [] {
      assert ks[0] in IndexOf(ks);
    }
  }

  // All keys below the root, which is the only node so far.
  method BuildAll(b: DoubleArrayBuilder, ks: Keys, hasLengths: bool) returns (r: Outcome)
    requires GoodKeys(ks, hasLengths) && ks != [] && Deep(ks, 0, |ks|, 0)
    requires b.Quiet() && b.v.lang == map[0 := RangeLang(ks, 0, |ks|, 0)] && b.v.done == {}
    modifies b, b.extras
    ensures r.Done? ==> b.Valid() && b.Steady() && RangeOK(ks, 0, |ks|, 0) && b.v.done == b.v.lang.Keys
    ensures r.Done? ==> 0 in b.v.lang && b.v.lang[0] == RangeLang(ks, 0, |ks|, 0)
    ensures r.Failed? && r.error != TooLargeOffset ==> RangeBlames(ks, 0, |ks|, 0, r.error)
    ensures r.Failed? && r.error == TooLargeOffset ==> OFFSET_LIMIT < 256 * (Size(RangeLang(ks, 0, |ks|, 0)) + 1)
  {
    hide RangeLang, Decides, RangeOK, BuilderOK, Settled, MaxLen, Size;
    hide RangeBlames, FirstOffence;
    ghost var v0 := b.v;
    r := BuildRange(b, ks, hasLengths, 0, |ks|, 0, 0);
    if r.Done? {
      b.FinishedFacts();
      AllDecided(v0, b.v, 0);
    }
  }

  lemma NoKeysOK(ks: Keys)
    requires ks == [] && Deep(ks, 0, |ks|, 0)
    ensures RangeOK(ks, 0, |ks|, 0)
  {
  }

  lemma AcceptableSize(ks: Keys)
    ensures Acceptable(ks) ==> |ks| <= 0x8000_0000
  {
  }
}
