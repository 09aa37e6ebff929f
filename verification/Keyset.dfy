/** The key list of the direct build (`Keyset`) and the dictionary it denotes:
    the first of equal keys wins, and key i has value i. */
module Keyset {
  import opened Bits
  import opened Languages
  import opened Outcomes

  type Keys = seq<Key>

  // The byte at a position, with the terminator after the last one.
  function CharAt(key: Key, depth: nat): Byte
    requires depth <= |key|
  {
    if depth < |key| then key[depth] else 0
  }

  // The index cast to a 32-bit signed integer.
  function CastValue(i: nat): int {
    var w := i % 0x1_0000_0000;
    if w < 0x8000_0000 then w else w - 0x1_0000_0000
  }

  function Val(i: nat): nat {
    i % 0x8000_0000
  }

  lemma CastExact(i: nat)
    requires CastValue(i) >= 0
    ensures CastValue(i) == Val(i)
  {
  }

  // ---- the dictionary of a range of keys, from a depth on ----

  ghost predicate Deep(ks: Keys, begin: nat, end: nat, depth: nat) {
    begin <= end <= |ks| && forall i :: begin <= i < end ==> depth <= |ks[i]|
  }

  function FirstAt(ks: Keys, begin: nat, end: nat, depth: nat, s: Key): (r: nat)
    requires Deep(ks, begin, end, depth)
    ensures begin <= r <= end
    ensures r < end ==> ks[r][depth..] == s
    ensures forall i :: begin <= i < r ==> ks[i][depth..] != s
    decreases end - begin
  {
    if begin == end then end
    else if ks[begin][depth..] == s then begin
    else FirstAt(ks, begin + 1, end, depth, s)
  }

  function RangeLang(ks: Keys, begin: nat, end: nat, depth: nat): Lang
    requires Deep(ks, begin, end, depth)
    decreases end - begin
  {
    if begin == end then map[]
    else RangeLang(ks, begin + 1, end, depth)[ks[begin][depth..] := Val(begin)]
  }

  lemma {:induction false} RangeLangHas(ks: Keys, begin: nat, end: nat, depth: nat, s: Key)
    requires Deep(ks, begin, end, depth)
    ensures var L, f := RangeLang(ks, begin, end, depth), FirstAt(ks, begin, end, depth, s);
            (s in L <==> f < end) && (s in L ==> L[s] == Val(f))
    decreases end - begin
  {
    if begin < end {
      RangeLangHas(ks, begin + 1, end, depth, s);
    }
  }

  lemma FirstUnique(ks: Keys, begin: nat, end: nat, depth: nat, s: Key, f: nat)
    requires Deep(ks, begin, end, depth) && begin <= f <= end
    requires f < end ==> ks[f][depth..] == s
    requires forall i :: begin <= i < f ==> ks[i][depth..] != s
    ensures FirstAt(ks, begin, end, depth, s) == f
  {
    var g := FirstAt(ks, begin, end, depth, s);
  }

  // ---- one level ----

  // What arranging a range checks: labels do not decrease, a terminator is
  // really at the end of its key, and the value of that key is not negative.
  ghost predicate LevelOK(ks: Keys, begin: nat, end: nat, depth: nat)
    requires Deep(ks, begin, end, depth)
  {
    && (forall i :: begin <= i < end && CharAt(ks[i], depth) == 0 ==> |ks[i]| == depth && CastValue(i) >= 0)
    && (forall i, j :: begin <= i < j < end ==> CharAt(ks[i], depth) <= CharAt(ks[j], depth))
  }

  // [lo, hi) are exactly the keys of the range whose next byte is c.
  ghost predicate Run(ks: Keys, begin: nat, end: nat, depth: nat, lo: nat, hi: nat, c: Byte)
    requires Deep(ks, begin, end, depth)
  {
    && begin <= lo <= hi <= end
    && forall i :: begin <= i < end ==> (CharAt(ks[i], depth) == c <==> lo <= i < hi)
  }

  lemma TailStep(key: Key, depth: nat, c: Byte, s: Key)
    requires depth <= |key| && c != 0
    ensures key[depth..] == [c] + s <==> CharAt(key, depth) == c && depth + 1 <= |key| && key[depth + 1..] == s
  {
    if key[depth..] == [c] + s {
      assert key[depth..][0] == c && key[depth..][1..] == s;
      assert key[depth + 1..] == key[depth..][1..];
    }
    if CharAt(key, depth) == c && depth + 1 <= |key| && key[depth + 1..] == s {
      assert key[depth..] == [key[depth]] + key[depth + 1..];
    }
  }

  /** The dictionary of a run, one byte deeper, is the quotient by that byte. */
  lemma RunLang(ks: Keys, begin: nat, end: nat, depth: nat, lo: nat, hi: nat, c: Byte)
    requires Deep(ks, begin, end, depth) && Run(ks, begin, end, depth, lo, hi, c) && c != 0
    requires Deep(ks, lo, hi, depth + 1)
    ensures After(RangeLang(ks, begin, end, depth), [c]) == RangeLang(ks, lo, hi, depth + 1)
  {
    hide After, RangeLang;
    var L, K := RangeLang(ks, begin, end, depth), RangeLang(ks, lo, hi, depth + 1);
    forall s: Key
      ensures s in After(L, [c]) <==> s in K
      ensures s in K ==> After(L, [c])[s] == K[s]
    {
      AfterHas(L, [c], s);
      RangeLangHas(ks, begin, end, depth, [c] + s);
      RangeLangHas(ks, lo, hi, depth + 1, s);
      RunFirst(ks, begin, end, depth, lo, hi, c, s);
    }
  }

  lemma RunFirst(ks: Keys, begin: nat, end: nat, depth: nat, lo: nat, hi: nat, c: Byte, s: Key)
    requires Deep(ks, begin, end, depth) && Run(ks, begin, end, depth, lo, hi, c) && c != 0
    requires Deep(ks, lo, hi, depth + 1)
    ensures var f, g := FirstAt(ks, begin, end, depth, [c] + s), FirstAt(ks, lo, hi, depth + 1, s);
            if g < hi then f == g else f == end
  {
    hide FirstAt, CharAt;
    var g := FirstAt(ks, lo, hi, depth + 1, s);
    var f := if g < hi then g else end;
    forall i | begin <= i < f ensures ks[i][depth..] != [c] + s {
      TailStep(ks[i], depth, c, s);
    }
    if g < hi { TailStep(ks[g], depth, c, s); }
    FirstUnique(ks, begin, end, depth, [c] + s, f);
  }

  // The labels of a level are those of its dictionary.
  lemma LevelStarts(ks: Keys, begin: nat, end: nat, depth: nat, c: Byte)
    requires Deep(ks, begin, end, depth) && LevelOK(ks, begin, end, depth)
    ensures var L := RangeLang(ks, begin, end, depth);
            if c == 0 then
              && !Starts(L, 0)
              && ([] in L <==> exists i :: begin <= i < end && CharAt(ks[i], depth) == 0)
            else Starts(L, c) <==> exists i :: begin <= i < end && CharAt(ks[i], depth) == c
  {
    hide RangeLang, After, FirstAt;
    var L := RangeLang(ks, begin, end, depth);
    if c == 0 {
      forall s: Key ensures [0] + s !in L {
        forall i | begin <= i < end ensures ks[i][depth..] != [0] + s {
          if ks[i][depth..] != [] { assert ks[i][depth..][0] == CharAt(ks[i], depth); }
        }
        RangeLangHas(ks, begin, end, depth, [0] + s);
      }
      RangeLangHas(ks, begin, end, depth, []);
      var f := FirstAt(ks, begin, end, depth, []);
      if f < end { assert CharAt(ks[f], depth) == 0; }
      forall i | begin <= i < end && CharAt(ks[i], depth) == 0 ensures f < end {
        assert ks[i][depth..] == [];
      }
    } else {
      if Starts(L, c) {
        var s: Key :| [c] + s in L;
        RangeLangHas(ks, begin, end, depth, [c] + s);
        var f := FirstAt(ks, begin, end, depth, [c] + s);
        TailStep(ks[f], depth, c, s);
      }
      forall i | begin <= i < end && CharAt(ks[i], depth) == c ensures Starts(L, c) {
        var s := ks[i][depth + 1..];
        TailStep(ks[i], depth, c, s);
        RangeLangHas(ks, begin, end, depth, [c] + s);
      }
    }
  }

  // The value of a level is that of its first key.
  lemma LevelValue(ks: Keys, begin: nat, end: nat, depth: nat)
    requires Deep(ks, begin, end, depth) && begin < end && CharAt(ks[begin], depth) == 0
    requires LevelOK(ks, begin, end, depth)
    ensures [] in RangeLang(ks, begin, end, depth)
    ensures RangeLang(ks, begin, end, depth)[[]] == Val(begin)
  {
    assert ks[begin][depth..] == [];
    RangeLangHas(ks, begin, end, depth, []);
    FirstUnique(ks, begin, end, depth, [], begin);
  }

  // ---- acceptable key lists ----

  ghost predicate LexLeq(s: Key, t: Key) {
    s == [] || (t != [] && (s[0] < t[0] || (s[0] == t[0] && LexLeq(s[1..], t[1..]))))
  }

  ghost predicate NulFreeFrom(key: Key, depth: nat) {
    forall i :: depth <= i < |key| ==> key[i] != 0
  }

  // The keys of the range, from the depth on, are in byte order and without
  // zero bytes, and their indices are not negative as 32-bit integers.
  ghost predicate RangeOK(ks: Keys, begin: nat, end: nat, depth: nat)
    requires Deep(ks, begin, end, depth)
  {
    && (forall i :: begin <= i < end ==> NulFreeFrom(ks[i], depth) && CastValue(i) >= 0)
    && (forall i, j :: begin <= i < j < end ==> LexLeq(ks[i][depth..], ks[j][depth..]))
  }

  lemma RangeLevel(ks: Keys, begin: nat, end: nat, depth: nat)
    requires Deep(ks, begin, end, depth) && RangeOK(ks, begin, end, depth)
    ensures LevelOK(ks, begin, end, depth)
  {
    hide CastValue;
    forall i, j | begin <= i < j < end
      ensures CharAt(ks[i], depth) <= CharAt(ks[j], depth)
    {
      assert LexLeq(ks[i][depth..], ks[j][depth..]);
    }
    forall i | begin <= i < end && CharAt(ks[i], depth) == 0 ensures |ks[i]| == depth {
      assert NulFreeFrom(ks[i], depth);
    }
  }

  lemma LexTail(s: Key, t: Key, depth: nat)
    requires depth < |s| && depth < |t| && s[depth] == t[depth]
    ensures LexLeq(s[depth..], t[depth..]) <==> LexLeq(s[depth + 1..], t[depth + 1..])
  {
    assert s[depth..][1..] == s[depth + 1..] && t[depth..][1..] == t[depth + 1..];
  }

  // An acceptable range has acceptable runs.
  lemma RangeRun(ks: Keys, begin: nat, end: nat, depth: nat, lo: nat, hi: nat, c: Byte)
    requires Deep(ks, begin, end, depth) && RangeOK(ks, begin, end, depth)
    requires Run(ks, begin, end, depth, lo, hi, c) && c != 0 && Deep(ks, lo, hi, depth + 1)
    ensures RangeOK(ks, lo, hi, depth + 1)
  {
    hide CastValue, LexLeq;
    forall i | lo <= i < hi ensures NulFreeFrom(ks[i], depth + 1) && CastValue(i) >= 0 {
      assert NulFreeFrom(ks[i], depth);
    }
    forall i, j | lo <= i < j < hi ensures LexLeq(ks[i][depth + 1..], ks[j][depth + 1..]) {
      assert LexLeq(ks[i][depth..], ks[j][depth..]);
      assert CharAt(ks[i], depth) == c && CharAt(ks[j], depth) == c;
      LexTail(ks[i], ks[j], depth);
    }
  }

  // Adding an acceptable run to an acceptable front of the range.
  lemma RangeJoin(ks: Keys, begin: nat, end: nat, depth: nat, lo: nat, hi: nat, c: Byte)
    requires Deep(ks, begin, end, depth) && LevelOK(ks, begin, end, depth)
    requires Run(ks, begin, end, depth, lo, hi, c) && c != 0 && Deep(ks, lo, hi, depth + 1)
    requires Deep(ks, begin, lo, depth) && RangeOK(ks, begin, lo, depth)
    requires RangeOK(ks, lo, hi, depth + 1)
    ensures Deep(ks, begin, hi, depth) && RangeOK(ks, begin, hi, depth)
  {
    hide CastValue;
    forall i | begin <= i < hi ensures NulFreeFrom(ks[i], depth) && CastValue(i) >= 0 {
      if i >= lo {
        assert NulFreeFrom(ks[i], depth + 1);
        assert CharAt(ks[i], depth) == c;
      }
    }
    forall i, j | begin <= i < j < hi ensures LexLeq(ks[i][depth..], ks[j][depth..]) {
      JoinOrder(ks, begin, end, depth, lo, hi, c, i, j);
    }
  }

  lemma JoinOrder(ks: Keys, begin: nat, end: nat, depth: nat, lo: nat, hi: nat, c: Byte, i: nat, j: nat)
    requires Deep(ks, begin, end, depth) && LevelOK(ks, begin, end, depth)
    requires Run(ks, begin, end, depth, lo, hi, c) && c != 0 && Deep(ks, lo, hi, depth + 1)
    requires Deep(ks, begin, lo, depth) && RangeOK(ks, begin, lo, depth)
    requires RangeOK(ks, lo, hi, depth + 1)
    requires begin <= i < j < hi
    ensures LexLeq(ks[i][depth..], ks[j][depth..])
  {
    hide CastValue, NulFreeFrom;
    if j < lo {
    } else if i >= lo {
      assert LexLeq(ks[i][depth + 1..], ks[j][depth + 1..]);
      assert CharAt(ks[i], depth) == c && CharAt(ks[j], depth) == c;
      LexTail(ks[i], ks[j], depth);
    } else {
      assert CharAt(ks[i], depth) <= CharAt(ks[j], depth) && CharAt(ks[i], depth) != c && CharAt(ks[j], depth) == c;
    }
  }

  // Keys that end here come first.
  lemma RangeZeros(ks: Keys, begin: nat, end: nat, depth: nat, hi: nat)
    requires Deep(ks, begin, end, depth) && LevelOK(ks, begin, end, depth) && begin <= hi <= end
    requires forall i :: begin <= i < hi ==> CharAt(ks[i], depth) == 0
    ensures Deep(ks, begin, hi, depth) && RangeOK(ks, begin, hi, depth)
  {
    hide CastValue;
    forall i | begin <= i < hi ensures |ks[i]| == depth && ks[i][depth..] == [] {
    }
  }

  // ---- refused key lists ----

  /** Key i is the first of its level that is refused, for this reason. */
  ghost predicate FirstOffence(ks: Keys, begin: nat, i: nat, end: nat, depth: nat, error: Error)
    requires Deep(ks, begin, end, depth)
  {
    && begin <= i < end && Deep(ks, begin, i, depth) && LevelOK(ks, begin, i, depth)
    && var c := CharAt(ks[i], depth);
       match error
       case InvalidNull => c == 0 && depth < |ks[i]|
       case NegativeValue => c == 0 && depth == |ks[i]| && CastValue(i) < 0
       case WrongOrder =>
         && begin < i && c < CharAt(ks[i - 1], depth)
         && (c == 0 ==> depth == |ks[i]| && CastValue(i) >= 0)
       case _ => false
  }

  /** The keys of the range, from the depth on, give reason for this exception. */
  ghost predicate RangeBlames(ks: Keys, begin: nat, end: nat, depth: nat, error: Error)
    requires Deep(ks, begin, end, depth)
  {
    match error
    case InvalidNull => exists i :: begin <= i < end && !NulFreeFrom(ks[i], depth)
    case NegativeValue => exists i :: begin <= i < end && CastValue(i) < 0
    case WrongOrder => exists i, j :: begin <= i < j < end && !LexLeq(ks[i][depth..], ks[j][depth..])
    case _ => false
  }

  lemma OffenceBlames(ks: Keys, begin: nat, i: nat, end: nat, depth: nat, error: Error)
    requires Deep(ks, begin, end, depth) && FirstOffence(ks, begin, i, end, depth, error)
    ensures RangeBlames(ks, begin, end, depth, error) && !LevelOK(ks, begin, end, depth)
  {
    hide CastValue;
    match error
    case InvalidNull => assert !NulFreeFrom(ks[i], depth);
    case NegativeValue =>
    case WrongOrder => assert !LexLeq(ks[i - 1][depth..], ks[i][depth..]);
  }

  lemma BlamesRefuses(ks: Keys, begin: nat, end: nat, depth: nat, error: Error)
    requires Deep(ks, begin, end, depth) && RangeBlames(ks, begin, end, depth, error)
    ensures !RangeOK(ks, begin, end, depth)
  {
    hide CastValue;
  }

  // What is wrong with a run is wrong with the range.
  lemma RunBlames(ks: Keys, begin: nat, end: nat, depth: nat, lo: nat, hi: nat, c: Byte, error: Error)
    requires Deep(ks, begin, end, depth) && Run(ks, begin, end, depth, lo, hi, c) && c != 0
    requires Deep(ks, lo, hi, depth + 1) && RangeBlames(ks, lo, hi, depth + 1, error)
    ensures RangeBlames(ks, begin, end, depth, error)
  {
    hide CastValue, LexLeq;
    match error
    case InvalidNull =>
      var i :| lo <= i < hi && !NulFreeFrom(ks[i], depth + 1);
      assert !NulFreeFrom(ks[i], depth);
    case NegativeValue =>
    case WrongOrder =>
      var i, j :| lo <= i < j < hi && !LexLeq(ks[i][depth + 1..], ks[j][depth + 1..]);
      assert CharAt(ks[i], depth) == c && CharAt(ks[j], depth) == c;
      LexTail(ks[i], ks[j], depth);
  }
}
