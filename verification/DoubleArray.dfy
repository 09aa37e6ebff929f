/** The finished double array and its searches (`DoubleArrayImpl`). */
module DoubleArray {
  import opened Bits
  import opened Units
  import opened Languages

  // ---- what it means for an array of units to represent a dictionary ----

  function Base(a: seq<Word>, id: nat): nat
    requires id < |a|
  {
    Xor(id, OffsetOf(a[id]))
  }

  // The transition on c out of base b is taken exactly when L has a key that
  // begins with c, and leads to the node of the remaining suffixes.
  ghost predicate StepOK(a: seq<Word>, lang: map<nat, Lang>, b: nat, L: Lang, c: Byte) {
    var t := Xor(b, c);
    && t < |a|
    && (LabelOf(a[t]) == c <==> Starts(L, c))
    && (Starts(L, c) ==> t in lang && lang[t] == After(L, [c]))
  }

  ghost predicate NodeOK(a: seq<Word>, lang: map<nat, Lang>, id: nat)
    requires id in lang
  {
    && id < |a|
    && var b := Base(a, id);
       && b < |a|
       && (HasLeaf(a[id]) <==> [] in lang[id])
       && ([] in lang[id] ==> ValueOf(a[b]) == lang[id][[]])
       && forall c: Byte :: StepOK(a, lang, b, lang[id], c)
  }

  // lang assigns to every real node the suffixes (with their values) below it.
  ghost predicate Represents(a: seq<Word>, lang: map<nat, Lang>) {
    forall id :: id in lang ==> NodeOK(a, lang, id)
  }

  // ---- the query string ----

  // With a zero length the query is a zero-terminated string.
  ghost predicate GoodQuery(key: seq<Byte>, length: nat) {
    length <= |key| && (length == 0 ==> 0 in key)
  }

  function UpToNul(key: seq<Byte>): (r: seq<Byte>)
    requires 0 in key
    ensures r < key && key[|r|] == 0 && 0 !in r
  {
    if key[0] == 0 then [] else [key[0]] + UpToNul(key[1..])
  }

  function Query(key: seq<Byte>, length: nat): seq<Byte>
    requires GoodQuery(key, length)
  {
    if length != 0 then key[..length] else UpToNul(key)
  }

  // ---- the array of an empty dictionary ----

  // No unit has a leaf flag, and every transition stays inside the array.
  ghost predicate Barren(a: seq<Word>) {
    && |a| % 256 == 0
    && forall i: nat :: i < |a| ==> !HasLeaf(a[i]) && Base(a, i) / 256 == i / 256
  }

  /** The array that is built from no keys: the root keeps offset 1, and every other id of its
      block is a filler labelled against that offset, the first one not used. */
  function EmptyArray(): (a: seq<Word>)
    ensures |a| == 256 && forall i :: 0 <= i < 256 ==> a[i] == if i == 0 then 1024 else Xor(i, 1) % 256
  {
    seq(256, i requires 0 <= i < 256 => if i == 0 then 1024 else Xor(i, 1) % 256)
  }

  /** What a build leaves for a dictionary. */
  ghost predicate Built(a: seq<Word>, lang: map<nat, Lang>, L: Lang) {
    && 0 in lang && lang[0] == L
    && if L == map[] then a == EmptyArray() else Represents(a, lang)
  }

  lemma EmptyBarren()
    ensures Barren(EmptyArray())
  {
    hide Xor, HasLeaf, OffsetOf;
    forall i: nat | i < 256 ensures !HasLeaf(EmptyArray()[i]) && Base(EmptyArray(), i) / 256 == i / 256 {
      BarrenUnit(EmptyArray()[i], i);
    }
  }

  lemma BarrenUnit(u: Word, i: nat)
    requires if i == 0 then u == 1024 else u < 256
    ensures !HasLeaf(u) && Xor(i, OffsetOf(u)) / 256 == i / 256
  {
    hide Xor;
    XorZero(1);
    XorZero(i);
  }

  lemma BuiltServes(a: seq<Word>, lang: map<nat, Lang>, L: Lang)
    requires Built(a, lang, L)
    ensures Serves(a, lang, 0)
  {
    hide Represents, Barren;
    EmptyBarren();
  }

  /** From node id the array serves the dictionary lang[id]. */
  ghost predicate Serves(a: seq<Word>, lang: map<nat, Lang>, id: nat) {
    && id in lang
    && (Represents(a, lang) || (Barren(a) && lang[id] == map[] && id < |a|))
  }

  // ---- walking along a query ----

  // pos is the node reached from a node of language L by the first i bytes of q.
  ghost predicate At(a: seq<Word>, lang: map<nat, Lang>, L: Lang, q: Key, i: nat, pos: nat) {
    && i <= |q| && pos < |a|
    && pos in lang && lang[pos] == After(L, q[..i])
  }

  // The same, or a walk through the array of an empty dictionary.
  ghost predicate Walk(a: seq<Word>, lang: map<nat, Lang>, L: Lang, q: Key, i: nat, pos: nat) {
    && i <= |q| && pos < |a|
    && ((Represents(a, lang) && At(a, lang, L, q, i, pos)) || (Barren(a) && L == map[]))
  }

  lemma AtStart(a: seq<Word>, lang: map<nat, Lang>, q: Key, pos: nat)
    requires Represents(a, lang) && pos in lang
    ensures At(a, lang, lang[pos], q, 0, pos)
  {
    assert NodeOK(a, lang, pos);
    AfterEmpty(lang[pos]);
    assert q[..0] == [];
  }

  lemma WalkStart(a: seq<Word>, lang: map<nat, Lang>, q: Key, pos: nat)
    requires Serves(a, lang, pos)
    ensures Walk(a, lang, lang[pos], q, 0, pos)
  {
    hide Represents, At, Barren;
    if Represents(a, lang) {
      AtStart(a, lang, q, pos);
      assert pos < |a| by { AtInside(a, lang, lang[pos], q, 0, pos); }
    }
  }

  lemma AtInside(a: seq<Word>, lang: map<nat, Lang>, L: Lang, q: Key, i: nat, pos: nat)
    requires At(a, lang, L, q, i, pos)
    ensures pos < |a| && i <= |q|
  {
  }

  // One transition: the label test decides whether any key goes on this way.
  lemma Transition(a: seq<Word>, lang: map<nat, Lang>, L: Lang, q: Key, i: nat, pos: nat)
    requires Represents(a, lang) && At(a, lang, L, q, i, pos) && i < |q|
    ensures var t := Xor(pos, Xor(OffsetOf(a[pos]), q[i]));
            && t < |a|
            && (LabelOf(a[t]) == q[i] ==> At(a, lang, L, q, i + 1, t))
            && (LabelOf(a[t]) == q[i] <==> After(L, q[..i + 1]) != map[])
            && (LabelOf(a[t]) != q[i] ==> q !in L)
  {
    hide After, Starts, Xor;
    var c := q[i];
    assert NodeOK(a, lang, pos);
    XorTransition(pos, OffsetOf(a[pos]), c);
    assert StepOK(a, lang, Base(a, pos), lang[pos], c);
    LookupStep(L, q, i);
    StartsAfter(lang[pos], c);
    if After(L, q[..i + 1]) == map[] {
      DeadPrefix(L, q[..i + 1], q[i + 1..]);
      assert q[..i + 1] + q[i + 1..] == q;
    }
  }

  lemma WalkStep(a: seq<Word>, lang: map<nat, Lang>, L: Lang, q: Key, i: nat, pos: nat)
    requires Walk(a, lang, L, q, i, pos) && i < |q|
    ensures var t := Xor(pos, Xor(OffsetOf(a[pos]), q[i]));
            && t < |a|
            && (LabelOf(a[t]) == q[i] ==> Walk(a, lang, L, q, i + 1, t))
            && (LabelOf(a[t]) != q[i] ==> q !in L)
            && (LabelOf(a[t]) != q[i] ==> After(L, q[..i + 1]) == map[])
  {
    hide Represents, At, After, Xor, OffsetOf, LabelOf, HasLeaf;
    if Represents(a, lang) && At(a, lang, L, q, i, pos) {
      Transition(a, lang, L, q, i, pos);
    } else {
      XorTransition(pos, OffsetOf(a[pos]), q[i]);
      XorBlock(Base(a, pos), q[i]);
      assert Base(a, pos) / 256 == pos / 256;
      NothingAfter(q[..i + 1]);
    }
  }

  lemma NothingAfter(p: Key)
    ensures After(map[], p) == map[]
  {
  }

  // At the end of the query the leaf flag and the value unit hold the answer.
  lemma Arrival(a: seq<Word>, lang: map<nat, Lang>, L: Lang, q: Key, i: nat, pos: nat)
    requires Represents(a, lang) && At(a, lang, L, q, i, pos)
    ensures Base(a, pos) < |a|
    ensures Lookup(L, q[..i]) == if HasLeaf(a[pos]) then ValueOf(a[Base(a, pos)]) else -1
  {
    assert NodeOK(a, lang, pos);
    LookupAfter(L, q[..i]);
  }

  lemma WalkEnd(a: seq<Word>, lang: map<nat, Lang>, L: Lang, q: Key, i: nat, pos: nat)
    requires Walk(a, lang, L, q, i, pos)
    ensures Base(a, pos) < |a|
    ensures Lookup(L, q[..i]) == if HasLeaf(a[pos]) then ValueOf(a[Base(a, pos)]) else -1
  {
    hide Represents, At, After, Xor, OffsetOf, LabelOf, HasLeaf, ValueOf;
    if Represents(a, lang) && At(a, lang, L, q, i, pos) {
      Arrival(a, lang, L, q, i, pos);
    } else {
      assert Base(a, pos) / 256 == pos / 256;
    }
  }

  // ---- exactMatchSearch ----

  /** exactMatchSearch answers as the map does: the stored value and the key's
      length, or -1 and 0; the query is arbitrary, also with zero bytes in it. */
  method ExactMatchSearch(a: seq<Word>, key: seq<Byte>, length: nat, nodePos: nat,
                          ghost lang: map<nat, Lang>) returns (value: int, matched: nat)
    requires Serves(a, lang, nodePos)
    requires GoodQuery(key, length)
    ensures value == Lookup(lang[nodePos], Query(key, length))
    ensures matched == if value >= 0 then |Query(key, length)| else 0
  {
    hide After, Xor, OffsetOf, LabelOf, HasLeaf, Represents, At, Barren;
    value, matched := -1, 0;
    ghost var L, q := lang[nodePos], Query(key, length);
    WalkStart(a, lang, q, nodePos);
    var pos, i := nodePos, 0;
    var unit := a[pos];
    if length != 0 {
      while i < length
        invariant Walk(a, lang, L, q, i, pos) && unit == a[pos]
      {
        WalkStep(a, lang, L, q, i, pos);
        pos := Xor(pos, Xor(OffsetOf(unit), key[i]));
        unit := a[pos];
        if LabelOf(unit) != key[i] {
          return;
        }
        i := i + 1;
      }
    } else {
      while key[i] != 0
        invariant Walk(a, lang, L, q, i, pos) && unit == a[pos]
        decreases |q| - i
      {
        WalkStep(a, lang, L, q, i, pos);
        pos := Xor(pos, Xor(OffsetOf(unit), key[i]));
        unit := a[pos];
        if LabelOf(unit) != key[i] {
          return;
        }
        i := i + 1;
      }
    }
    assert q[..i] == q;
    WalkEnd(a, lang, L, q, i, pos);
    if !HasLeaf(unit) {
      return;
    }
    unit := a[Xor(pos, OffsetOf(unit))];
    value, matched := ValueOf(unit), i;
  }

  // ---- commonPrefixSearch ----

  // The stored non-empty prefixes of q of length at most k, by increasing length.
  function Matches(L: Lang, q: Key, k: nat): seq<(nat, nat)>
    requires k <= |q|
  {
    if k == 0 then []
    else Matches(L, q, k - 1) + (if q[..k] in L then [(L[q[..k]], k)] else [])
  }

  /** All matches of a query: each key that is a non-empty prefix of it, with its value and its
      length, by increasing length. */
  ghost predicate MatchesOf(L: Lang, q: Key, all: seq<(nat, nat)>) {
    && (forall v, k :: (v, k) in all <==> 1 <= k <= |q| && q[..k] in L && L[q[..k]] == v)
    && (forall i, j :: 0 <= i < j < |all| ==> all[i].1 < all[j].1)
  }

  /** What is listed are the matches of the query's first k bytes. */
  lemma {:induction false} MatchesAre(L: Lang, q: Key, k: nat)
    requires k <= |q|
    ensures MatchesOf(L, q[..k], Matches(L, q, k))
    decreases k
  {
    var all := Matches(L, q, k);
    if k > 0 {
      MatchesAre(L, q, k - 1);
      var before := Matches(L, q, k - 1);
      assert forall i :: 0 <= i < |before| ==> (before[i].0, before[i].1) in before;
      forall v, n
        ensures (v, n) in all <==> 1 <= n <= k && q[..k][..n] in L && L[q[..k][..n]] == v
      {
        assert (v, n) in before <==> 1 <= n < k && q[..k - 1][..n] in L && L[q[..k - 1][..n]] == v;
        if 1 <= n <= k {
          assert q[..k][..n] == q[..n];
          if n < k {
            assert q[..k - 1][..n] == q[..n];
          }
        }
      }
    }
  }

  lemma {:induction false} NoMoreMatches(L: Lang, q: Key, i: nat, k: nat)
    requires i < k <= |q| && After(L, q[..i + 1]) == map[]
    ensures Matches(L, q, k) == Matches(L, q, i)
    decreases k
  {
    hide After;
    DeadPrefix(L, q[..i + 1], q[i + 1..k]);
    assert q[..i + 1] + q[i + 1..k] == q[..k];
    if i + 1 < k {
      NoMoreMatches(L, q, i, k - 1);
    }
  }

  function First<T>(s: seq<T>, n: nat): seq<T> {
    if n < |s| then s[..n] else s
  }

  /** Counts all the matches of the query and stores the shortest ones, as many as there is room for. */
  method CommonPrefixSearch(a: seq<Word>, key: seq<Byte>, maxResults: nat, length: nat, nodePos: nat,
                            ghost lang: map<nat, Lang>) returns (results: seq<(nat, nat)>, num: nat)
    requires Serves(a, lang, nodePos)
    requires GoodQuery(key, length)
    ensures var q := Query(key, length);
            var all := Matches(lang[nodePos], q, |q|);
            && MatchesOf(lang[nodePos], q, all) && num == |all|
            && results == all[..if maxResults < num then maxResults else num]
  {
    hide After, Xor, OffsetOf, LabelOf, HasLeaf, Represents, At, Barren, MatchesOf;
    results, num := [], 0;
    ghost var L, q := lang[nodePos], Query(key, length);
    MatchesAre(L, q, |q|);
    assert q[..|q|] == q;
    WalkStart(a, lang, q, nodePos);
    ghost var node := nodePos;
    var i := 0;
    var base := Xor(nodePos, OffsetOf(a[nodePos]));
    while (length != 0 && i < length) || (length == 0 && key[i] != 0)
      invariant Walk(a, lang, L, q, i, node) && base == Base(a, node)
      invariant num == |Matches(L, q, i)| && results == First(Matches(L, q, i), maxResults)
      decreases |q| - i
    {
      assert i < |q| && q[i] == key[i];
      WalkStep(a, lang, L, q, i, node);
      XorTransition(node, OffsetOf(a[node]), key[i]);
      var pos := Xor(base, key[i]);
      var unit := a[pos];
      if LabelOf(unit) != key[i] {
        NoMoreMatches(L, q, i, |q|);
        return;
      }
      node := pos;
      base := Xor(pos, OffsetOf(unit));
      i := i + 1;
      WalkEnd(a, lang, L, q, i, node);
      if HasLeaf(unit) {
        if num < maxResults {
          results := results + [(ValueOf(a[base]), i)];
        }
        num := num + 1;
      }
    }
    assert q[..i] == q;
  }
}
