/** From a list of keys and values to a double array with a tail (`build_double_array` and
    `DoubleArrayBuilder::build` in src/include/darts-clone.h). */
module PrefixTrieBuild {
  import opened Bits
  import opened Languages
  import opened Outcomes
  import opened SuffixUnits
  import opened SuffixTail
  import opened PT = PrefixTrie
  import opened PrefixTrieRanges
  import opened PrefixTrieBuilder
  import opened PrefixTrieSearch

  // ---- the order of the keys ----

  /** The difference of the first bytes in which the terminated keys differ, 0 for equal keys. */
  method Compare(a: Key, b: Key) returns (r: int)
    requires NulFree(a) && NulFree(b)
    ensures r < 0 <==> Precedes(a + [0], b + [0])
    ensures r == 0 <==> a == b
    ensures r > 0 <==> Precedes(b + [0], a + [0])
  {
    var i := 0;
    while QueryAt(a, i) != 0 && QueryAt(a, i) == QueryAt(b, i)
      invariant i <= |a| && i <= |b| && a[..i] == b[..i]
      decreases |a| - i
    {
      assert a[..i + 1] == a[..i] + [a[i]] && b[..i + 1] == b[..i] + [b[i]];
      i := i + 1;
    }
    SplitAt(a, b, i);
    var x: int, y: int := QueryAt(a, i), QueryAt(b, i);
    r := x - y;
  }

  lemma SplitAt(a: Key, b: Key, i: nat)
    requires NulFree(a) && NulFree(b) && i <= |a| && i <= |b| && a[..i] == b[..i]
    requires QueryAt(a, i) == 0 || QueryAt(a, i) != QueryAt(b, i)
    ensures QueryAt(a, i) < QueryAt(b, i) <==> Precedes(a + [0], b + [0])
    ensures QueryAt(a, i) > QueryAt(b, i) <==> Precedes(b + [0], a + [0])
    ensures QueryAt(a, i) == QueryAt(b, i) <==> a == b
  {
    var s, t := a + [0], b + [0];
    assert s[i] == QueryAt(a, i) && t[i] == QueryAt(b, i);
    assert s[..i] == t[..i] by { assert s[..i] == a[..i] && t[..i] == b[..i]; }
    if QueryAt(a, i) == QueryAt(b, i) {
      assert |a| == i && |b| == i;
      assert a == a[..i] == b[..i] == b;
      Irreflexive(s);
    } else {
      if QueryAt(a, i) < QueryAt(b, i) { assert Precedes(s, t); } else { assert Precedes(t, s); }
      OneWay(s, t, i);
    }
  }

  lemma Irreflexive(s: Key)
    ensures !Precedes(s, s)
  {
  }

  // The first difference decides.
  lemma OneWay(s: Key, t: Key, i: nat)
    requires i < |s| && i < |t| && s[..i] == t[..i] && s[i] != t[i]
    ensures Precedes(s, t) ==> s[i] < t[i]
    ensures Precedes(t, s) ==> t[i] < s[i]
  {
    if Precedes(s, t) {
      var m :| 0 <= m < |s| && m < |t| && s[..m] == t[..m] && s[m] < t[m];
      SameSplit(s, t, i, m);
    }
    if Precedes(t, s) {
      var m :| 0 <= m < |t| && m < |s| && t[..m] == s[..m] && t[m] < s[m];
      SameSplit(s, t, i, m);
    }
  }

  lemma SameSplit(s: Key, t: Key, i: nat, m: nat)
    requires i < |s| && i < |t| && s[..i] == t[..i] && s[i] != t[i]
    requires m < |s| && m < |t| && s[..m] == t[..m] && s[m] != t[m]
    ensures i == m
  {
    SplitNotBelow(s, t, i, m);
    SplitNotBelow(s, t, m, i);
  }

  lemma SplitNotBelow(s: Key, t: Key, i: nat, m: nat)
    requires i < |s| && i < |t| && s[i] != t[i] && m <= |s| && m <= |t| && s[..m] == t[..m]
    ensures m <= i
  {
    assert forall k :: 0 <= k < m ==> s[k] == s[..m][k] && t[k] == t[..m][k];
  }

  lemma PrecedesChain(a: Key, b: Key, c: Key)
    requires Precedes(a, b) && Precedes(b, c)
    ensures Precedes(a, c)
  {
    var m :| 0 <= m < |a| && m < |b| && a[..m] == b[..m] && a[m] < b[m];
    var n :| 0 <= n < |b| && n < |c| && b[..n] == c[..n] && b[n] < c[n];
    var k := if m < n then m else n;
    assert a[..k] == a[..m][..k] == b[..m][..k] == b[..k];
    assert c[..k] == c[..n][..k] == b[..n][..k] == b[..k];
    if m < n {
      assert b[m] == b[..n][m] == c[..n][m] == c[m];
    } else if n < m {
      assert a[n] == a[..m][n] == b[..m][n] == b[n];
    }
  }

  // ---- the list of distinct keys ----

  /** What the build asks of its keys: no NUL, and no key before a smaller one. */
  ghost predicate Buildable(keys: seq<Key>) {
    && (forall i :: 0 <= i < |keys| ==> NulFree(keys[i]))
    && (forall i :: 0 < i < |keys| ==> keys[i - 1] == keys[i] || Precedes(keys[i - 1] + [0], keys[i] + [0]))
  }

  /** Key i is the first that is refused, for this reason. */
  ghost predicate FirstRefused(keys: seq<Key>, i: nat, error: Error) {
    && i < |keys| && Buildable(keys[..i])
    && match error
       case InvalidNull => !NulFree(keys[i])
       case WrongOrder => NulFree(keys[i]) && i > 0 && Precedes(keys[i] + [0], keys[i - 1] + [0])
       case _ => false
  }

  lemma RefusedIs(keys: seq<Key>, i: nat, error: Error)
    requires i < |keys| && forall j :: 0 <= j < i ==> NulFree(keys[j])
    requires forall j :: 0 < j < i ==> keys[j - 1] == keys[j] || Precedes(keys[j - 1] + [0], keys[j] + [0])
    requires error == if NulFree(keys[i]) then WrongOrder else InvalidNull
    requires NulFree(keys[i]) ==> i > 0 && Precedes(keys[i] + [0], keys[i - 1] + [0])
    ensures FirstRefused(keys, i, error)
  {
    hide NulFree, Precedes;
  }

  lemma RefusedError(keys: seq<Key>, error: Error)
    requires exists i :: FirstRefused(keys, i, error)
    ensures error == InvalidNull || error == WrongOrder
  {
  }

  // No earlier position has the key of position i.
  ghost predicate IsFirst(keys: seq<Key>, i: nat)
    requires i < |keys|
  {
    forall j :: 0 <= j < i ==> keys[j] != keys[i]
  }

  // Entry e is the key of position i, which no earlier position repeats.
  ghost predicate FirstOf(keys: seq<Key>, values: seq<int>, e: Entry, i: nat) {
    && i < |keys| && i < |values|
    && e.text == keys[i] && e.value == values[i]
    && IsFirst(keys, i)
  }

  ghost predicate HasFirst(keys: seq<Key>, values: seq<int>, n: nat, e: Entry) {
    exists i :: 0 <= i < n && FirstOf(keys, values, e, i)
  }

  ghost predicate HasEntry(entries: seq<Entry>, text: Key) {
    exists k :: 0 <= k < |entries| && entries[k].text == text
  }

  /** The entries are the distinct ones of the first n keys, each with its first value, in order. */
  ghost predicate Distilled(keys: seq<Key>, values: seq<int>, n: nat, entries: seq<Entry>)
    requires n <= |keys| && |values| == |keys|
  {
    && Dictionary(Terms(entries))
    && (forall k :: 0 <= k < |entries| ==> entries[k].pos == 0 && NulFree(entries[k].text))
    && (forall k :: 0 <= k < |entries| ==> HasFirst(keys, values, n, entries[k]))
    && (forall i :: 0 <= i < n ==> HasEntry(entries, keys[i]))
    && (if n == 0 then entries == [] else entries != [] && entries[|entries| - 1].text == keys[n - 1])
  }

  lemma DistilledMore(keys: seq<Key>, values: seq<int>, n: nat, entries: seq<Entry>, e: Entry)
    requires n < |keys| && |values| == |keys| && Distilled(keys, values, n, entries)
    requires NulFree(keys[n]) && e == Entry(keys[n], 0, values[n], 0)
    requires n > 0 ==> Precedes(keys[n - 1] + [0], keys[n] + [0])
    ensures Distilled(keys, values, n + 1, entries + [e])
  {
    hide Precedes, Dictionary, FirstOf, HasFirst, HasEntry, NulFree;
    var all := entries + [e];
    DictionaryMore(entries, e);
    NewKey(keys, values, n, entries, e);
    forall k | 0 <= k < |all| ensures HasFirst(keys, values, n + 1, all[k]) {
      if k < |entries| { FirstLater(keys, values, n, entries[k]); }
    }
    forall i | 0 <= i < n + 1 ensures HasEntry(all, keys[i]) {
      EntryLater(entries, e, keys[i]);
    }
  }

  // A key beyond the last one has not been seen before.
  lemma NewKey(keys: seq<Key>, values: seq<int>, n: nat, entries: seq<Entry>, e: Entry)
    requires n < |keys| && |values| == |keys| && e == Entry(keys[n], 0, values[n], 0)
    requires Dictionary(Terms(entries + [e])) && forall i :: 0 <= i < n ==> HasEntry(entries, keys[i])
    ensures HasFirst(keys, values, n + 1, e)
  {
    hide Precedes, Terminated;
    var all := Terms(entries + [e]);
    forall j | 0 <= j < n ensures keys[j] != keys[n] {
      assert HasEntry(entries, keys[j]);
      var k :| 0 <= k < |entries| && entries[k].text == keys[j];
      assert all[k] == keys[j] + [0] && all[|entries|] == keys[n] + [0];
      Differ(all[k], all[|entries|]);
    }
    assert FirstOf(keys, values, e, n);
  }

  lemma FirstLater(keys: seq<Key>, values: seq<int>, n: nat, e: Entry)
    requires HasFirst(keys, values, n, e)
    ensures HasFirst(keys, values, n + 1, e)
  {
    hide FirstOf;
  }

  lemma EntryLater(entries: seq<Entry>, e: Entry, text: Key)
    requires HasEntry(entries, text) || e.text == text
    ensures HasEntry(entries + [e], text)
  {
    var all := entries + [e];
    if HasEntry(entries, text) {
      var k :| 0 <= k < |entries| && entries[k].text == text;
      assert all[k].text == text;
    } else {
      assert all[|entries|].text == text;
    }
  }

  lemma DictionaryMore(entries: seq<Entry>, e: Entry)
    requires Dictionary(Terms(entries)) && NulFree(e.text)
    requires entries != [] ==> Precedes(entries[|entries| - 1].text + [0], e.text + [0])
    ensures Dictionary(Terms(entries + [e]))
  {
    hide Precedes;
    var old_, all, n := Terms(entries), Terms(entries + [e]), |entries|;
    assert forall k :: 0 <= k < n ==> all[k] == old_[k];
    assert all[n] == e.text + [0];
    assert all[n][..|all[n]| - 1] == e.text;
    forall i, j | 0 <= i < j < |all| ensures Precedes(all[i], all[j]) {
      if j == n {
        if i < n - 1 {
          assert Precedes(old_[i], old_[n - 1]);
          PrecedesChain(all[i], all[n - 1], all[n]);
        }
      } else {
        assert Precedes(old_[i], old_[j]);
      }
    }
  }

  lemma DistilledAgain(keys: seq<Key>, values: seq<int>, n: nat, entries: seq<Entry>)
    requires 0 < n < |keys| && |values| == |keys| && Distilled(keys, values, n, entries) && keys[n - 1] == keys[n]
    ensures Distilled(keys, values, n + 1, entries)
  {
    hide Dictionary, FirstOf, HasFirst, NulFree;
    forall k | 0 <= k < |entries| ensures HasFirst(keys, values, n + 1, entries[k]) {
      FirstLater(keys, values, n, entries[k]);
    }
    assert HasEntry(entries, keys[n]) by { assert entries[|entries| - 1].text == keys[n]; }
  }

  method HasNul(key: Key) returns (r: bool)
    ensures r <==> !NulFree(key)
  {
    for i := 0 to |key|
      invariant forall j :: 0 <= j < i ==> key[j] != 0
    {
      if key[i] == 0 {
        return true;
      }
    }
    return false;
  }

  /** Drops repeated keys; refuses keys with a NUL and keys out of order. */
  method PrepareKeys(keys: seq<Key>, values: seq<int>) returns (r: Outcome, entries: seq<Entry>)
    requires |values| == |keys|
    ensures r.Done? <==> Buildable(keys)
    ensures r.Done? ==> Distilled(keys, values, |keys|, entries) && Volume(entries) <= KeyVolume(keys)
    ensures r.Failed? ==> exists i :: FirstRefused(keys, i, r.error)
  {
    hide Precedes, Distilled, Volume, FirstRefused;
    entries := [];
    EmptyVolume();
    assert Distilled(keys, values, 0, entries) by { NothingYet(keys, values); }
    for i := 0 to |keys|
      invariant Distilled(keys, values, i, entries) && Volume(entries) <= KeyVolume(keys[..i])
      invariant forall j :: 0 <= j < i ==> NulFree(keys[j])
      invariant forall j :: 0 < j < i ==> keys[j - 1] == keys[j] || Precedes(keys[j - 1] + [0], keys[j] + [0])
    {
      assert keys[..i + 1][..i] == keys[..i];
      var nul := HasNul(keys[i]);
      if nul {
        assert FirstRefused(keys, i, InvalidNull) by { RefusedIs(keys, i, InvalidNull); }
        return Failed(InvalidNull), entries;
      }
      if i > 0 {
        LastEntry(keys, values, i, entries);
        var order := Compare(entries[|entries| - 1].text, keys[i]);
        if order > 0 {
          BothWays(keys[i - 1] + [0], keys[i] + [0]);
          assert FirstRefused(keys, i, WrongOrder) by { RefusedIs(keys, i, WrongOrder); }
          return Failed(WrongOrder), entries;
        }
        if order == 0 {
          DistilledAgain(keys, values, i, entries);
          continue;
        }
      }
      DistilledMore(keys, values, i, entries, Entry(keys[i], 0, values[i], 0));
      VolumeMore(entries, Entry(keys[i], 0, values[i], 0));
      entries := entries + [Entry(keys[i], 0, values[i], 0)];
    }
    assert keys[..|keys|] == keys;
    r := Done;
  }

  /** The bytes of a key list, five more for each key. */
  function KeyVolume(keys: seq<Key>): nat {
    if keys == [] then 0 else KeyVolume(keys[..|keys| - 1]) + |keys[|keys| - 1]| + 5
  }

  lemma EmptyVolume()
    ensures Volume([]) == 0
  {
  }

  lemma VolumeMore(entries: seq<Entry>, e: Entry)
    ensures Volume(entries + [e]) == Volume(entries) + |e.text| + 5
  {
    assert (entries + [e])[..|entries|] == entries;
  }

  lemma NothingYet(keys: seq<Key>, values: seq<int>)
    requires |values| == |keys|
    ensures Distilled(keys, values, 0, [])
  {
  }

  lemma LastEntry(keys: seq<Key>, values: seq<int>, n: nat, entries: seq<Entry>)
    requires 0 < n <= |keys| && |values| == |keys| && Distilled(keys, values, n, entries)
    ensures entries != [] && entries[|entries| - 1].text == keys[n - 1]
  {
  }

  lemma BothWays(a: Key, b: Key)
    requires Precedes(b, a)
    ensures !Precedes(a, b) && a != b
  {
    var m :| 0 <= m < |b| && m < |a| && b[..m] == a[..m] && b[m] < a[m];
    OneWay(a, b, m);
  }

  // ---- the build ----

  function IdMax(huge: bool): nat { if huge then 1 else 8 }

  function LinkMax(huge: bool): nat { if huge then 0x8000_0000 else 0x1000_0000 }

  /** Builds the trie, arranges the suffixes in the tail and lays the units out as words; the
      word of unit 1 says where the tail begins. */
  method BuildArray(entries: seq<Entry>, huge: bool)
    returns (r: Outcome, words: seq<Word>, tail: seq<Byte>, ghost units: seq<Unit>, ghost a: Account)
    requires Dictionary(Terms(entries))
    requires forall k :: 0 <= k < |entries| ==> EntryReady(entries[k])
    ensures r.Done? ==> Stored(a, units, IdMax(huge), words, tail) && SameTexts(entries, a.keys)
    ensures r.Done? ==> |words| > 1 && OffsetBits(words[1]) == |words|
    ensures r.Failed? ==> r.error == TooLargeOffset || r.error == TooLargeLink
    ensures r.Failed? && r.error == TooLargeOffset ==> SIZE_LIMIT <= Volume(entries) + 1
    ensures r.Failed? && r.error == TooLargeLink ==> LinkMax(huge) <= Volume(entries)
  {
    hide Left, TotalLoad, Volume;
    hide Dictionary, Finished, Hollow, Served, Settled, IsInt32, InRange, OffsetBits, Compact, EndsAt, Ordered;
    var builder := new TrieBuilder(entries);
    a := Account(builder.terms, builder.keys, builder.units, builder.v, builder.node);
    LeftVolume(builder.terms, entries, 0);
    var ok := builder.BuildTrie();
    var array_ := builder.units;
    words, tail, units := [], [], array_;
    if !ok {
      return Failed(TooLargeOffset), words, tail, units, a;
    }
    a := Account(builder.terms, builder.keys, builder.units, builder.v, builder.node);
    if |entries| == 0 {
      NoKeys(a, units, tail);
    } else {
      ReadyToArrange(a, entries);
      LoadVolume(entries, a.keys);
      ghost var sorted, ends, ids;
      ok, array_, tail, sorted, ends, ids := ArrangeSuffixes(builder.keys, builder.units, IdMax(huge), LinkMax(huge),
          !huge);
      units := array_;
      if !ok {
        return Failed(TooLargeLink), words, tail, units, a;
      }
      ServedNow(a, entries, units, tail, IdMax(huge), LinkMax(huge));
    }
    AllInRange(a, units, tail, huge);
    words := Words(array_, IdMax(huge));
    WordAt(a, units, IdMax(huge), words, tail, 1);
    r := Done;
  }

  /** Builds of fewer bytes, counting five more for each key, never run out of offsets or links. */
  const SIZE_LIMIT: nat := 0x20_0000

  ghost function Volume(entries: seq<Entry>): nat {
    if entries == [] then 0 else Volume(entries[..|entries| - 1]) + |entries[|entries| - 1].text| + 5
  }

  lemma {:induction false} LeftVolume(terms: seq<Key>, entries: seq<Entry>, m: nat)
    requires KeysOK(terms, entries) && m <= |entries| && forall k :: 0 <= k < |entries| ==> entries[k].pos == 0
    ensures Left(terms, entries, m) + Volume(entries[..m]) <= Volume(entries)
    decreases |entries| - m
  {
    if m < |entries| {
      LeftVolume(terms, entries, m + 1);
      assert entries[..m + 1][..m] == entries[..m];
    } else {
      assert entries[..m] == entries;
    }
  }

  lemma {:induction false} LoadVolume(entries: seq<Entry>, keys: seq<Entry>)
    requires SameTexts(entries, keys) && AllOK(keys)
    ensures TotalLoad(keys) <= Volume(entries)
    decreases |keys|
  {
    if keys != [] {
      LoadVolume(entries[..|keys| - 1], keys[..|keys| - 1]);
    }
  }

  ghost predicate EntryReady(e: Entry) {
    e.pos == 0 && NulFree(e.text) && IsInt32(e.value)
  }

  // Every unit of the arranged array fits its word.
  lemma AllInRange(a: Account, units: seq<Unit>, tail: seq<Byte>, huge: bool)
    requires Plain(a.trie) && |units| == |a.trie| && AllOK(a.keys)
    requires forall k :: 0 <= k < |a.keys| ==> Settled(units, tail, a.keys[k], IdMax(huge), LinkMax(huge))
    requires forall x :: 0 <= x < |units| ==>
        units[x] == a.trie[x] || exists k :: 0 <= k < |a.keys| && a.keys[k].index == x
    ensures forall x :: 0 <= x < |units| ==> InRange(units[x], IdMax(huge))
  {
    forall x | 0 <= x < |units| ensures InRange(units[x], IdMax(huge)) {
      if units[x] == a.trie[x] {
        assert InRange(a.trie[x], 1);
      } else {
        var k :| 0 <= k < |a.keys| && a.keys[k].index == x;
        assert Settled(units, tail, a.keys[k], IdMax(huge), LinkMax(huge));
      }
    }
  }

  lemma NoKeys(a: Account, units: seq<Unit>, tail: seq<Byte>)
    requires a.keys == [] && Hollow(units)
    ensures Served(a, units, tail)
  {
  }

  // The finished keys are ready to be arranged, and unit 1 belongs to none of them.
  lemma ReadyToArrange(a: Account, entries: seq<Entry>)
    requires Finished(a.terms, a.keys, a.trie, a.v, a.node) && SameTexts(entries, a.keys)
    requires forall k :: 0 <= k < |entries| ==> NulFree(entries[k].text)
    ensures AllOK(a.keys) && Apart(a.keys)
    ensures forall k :: 0 <= k < |a.keys| ==> a.keys[k].index < |a.trie|
    ensures forall k :: 0 <= k < |a.keys| ==> a.trie[a.keys[k].index].Branch? && a.trie[a.keys[k].index].leaf
  {
    hide TrieOK;
    forall k | 0 <= k < |a.keys|
      ensures EntryOK(a.keys[k]) && a.keys[k].index < |a.trie|
      ensures a.trie[a.keys[k].index].Branch? && a.trie[a.keys[k].index].leaf
    {
      LeafFlag(a, k);
      assert a.keys[k].text + [0] == a.terms[k];
    }
    forall i, j | 0 <= i < j < |a.keys| ensures a.keys[i].index != a.keys[j].index {
      LeafFlag(a, i);
      LeafFlag(a, j);
    }
  }

  lemma ServedNow(a: Account, entries: seq<Entry>, units: seq<Unit>, tail: seq<Byte>, idMax: nat, linkMax: nat)
    requires Finished(a.terms, a.keys, a.trie, a.v, a.node) && SameTexts(entries, a.keys) && a.keys != []
    requires AllOK(a.keys) && forall k :: 0 <= k < |entries| ==> IsInt32(entries[k].value)
    requires |units| == |a.trie|
    requires forall k :: 0 <= k < |a.keys| ==> Settled(units, tail, a.keys[k], idMax, linkMax)
    requires forall k :: 0 <= k < |a.keys| ==>
        a.keys[k].index < |a.trie| && a.trie[a.keys[k].index].Branch? && a.trie[a.keys[k].index].leaf
    requires forall x :: 0 <= x < |units| && (forall k :: 0 <= k < |a.keys| ==> a.keys[k].index != x) ==>
        units[x] == a.trie[x]
    ensures Served(a, units, tail)
    ensures 1 < |a.trie| && a.trie[1].Branch? && !a.trie[1].leaf ==> units[1] == a.trie[1]
  {
    hide Finished, Reaches;
  }

  /** The whole way: what a search of the built array answers is the first value given for the
      key, and nothing for any other query. Lists below the size limit are built exactly when they
      are buildable. */
  method BuildThenSearch(keys: seq<Key>, values: seq<int>, huge: bool, q: seq<Byte>)
    returns (r: Outcome, found: bool, value: int, length: nat)
    requires |values| == |keys| && forall i :: 0 <= i < |values| ==> IsInt32(values[i])
    ensures r.Done? ==> Buildable(keys) && (found <==> Cut(q) in keys) && (found ==> length == |Cut(q)|)
    ensures r.Done? ==> forall i :: 0 <= i < |keys| && keys[i] == Cut(q) && IsFirst(keys, i) ==> value == values[i]
    ensures r.Done? && !found ==> value == -1
    ensures !Buildable(keys) ==> r.Failed? && exists i :: FirstRefused(keys, i, r.error)
    ensures Buildable(keys) && r.Failed? ==> r.error == TooLargeOffset || r.error == TooLargeLink
    ensures KeyVolume(keys) + 1 < SIZE_LIMIT ==> (r.Done? <==> Buildable(keys))
    ensures r.Failed? && r.error == TooLargeLink ==> LinkMax(huge) <= KeyVolume(keys)
  {
    hide Volume, KeyVolume, Buildable, Distilled, Stored, Answer, Cut, Dictionary, SameTexts, IsInt32, NulFree;
    hide FirstRefused;
    found, value, length := false, -1, 0;
    var entries;
    r, entries := PrepareKeys(keys, values);
    if r.Failed? {
      RefusedError(keys, r.error);
      return;
    }
    EntriesReady(keys, values, entries);
    var words, tail;
    ghost var units, a;
    r, words, tail, units, a := BuildArray(entries, huge);
    if r.Failed? {
      return;
    }
    found, value, length := ExactMatch(words, tail, IdMax(huge), q, a, units);
    FirstValue(keys, values, entries, a.keys, q, found, value, length);
  }

  lemma EntriesReady(keys: seq<Key>, values: seq<int>, entries: seq<Entry>)
    requires |values| == |keys| && (forall i :: 0 <= i < |values| ==> IsInt32(values[i]))
    requires Distilled(keys, values, |keys|, entries)
    ensures Dictionary(Terms(entries))
    ensures forall k :: 0 <= k < |entries| ==> EntryReady(entries[k])
  {
    hide Dictionary, IsInt32;
    forall k | 0 <= k < |entries| ensures IsInt32(entries[k].value) {
      assert HasFirst(keys, values, |keys|, entries[k]);
      var i :| 0 <= i < |keys| && FirstOf(keys, values, entries[k], i);
    }
  }

  lemma FirstValue(keys: seq<Key>, values: seq<int>, entries: seq<Entry>, finished: seq<Entry>, q: seq<Byte>,
                   found: bool, value: int, length: nat)
    requires |values| == |keys| && Distilled(keys, values, |keys|, entries) && SameTexts(entries, finished)
    requires Answer(finished, q, found, value, length)
    ensures found <==> Cut(q) in keys
    ensures forall i :: 0 <= i < |keys| && keys[i] == Cut(q) && IsFirst(keys, i) ==> value == values[i]
    ensures found ==> length == |Cut(q)|
    ensures !found ==> value == -1
  {
    hide Dictionary, Cut, NulFree, FirstOf, HasFirst, HasEntry;
    var text := Cut(q);
    if found {
      var k :| 0 <= k < |finished| && finished[k].text == text;
      FirstIs(keys, values, entries[k]);
    }
    forall i | 0 <= i < |keys| && keys[i] == text
      ensures found
      ensures IsFirst(keys, i) ==> value == values[i]
    {
      var k := EntryFor(entries, text);
      assert finished[k].text == text && finished[k].value == entries[k].value;
      FirstIs(keys, values, entries[k]);
    }
  }

  lemma FirstIs(keys: seq<Key>, values: seq<int>, e: Entry)
    requires |values| == |keys| && HasFirst(keys, values, |keys|, e)
    ensures e.text in keys
    ensures forall i :: 0 <= i < |keys| && keys[i] == e.text && IsFirst(keys, i) ==> e.value == values[i]
  {
    var l :| 0 <= l < |keys| && FirstOf(keys, values, e, l);
    forall i | 0 <= i < |keys| && keys[i] == e.text && IsFirst(keys, i) ensures e.value == values[i] {
      assert l == i;
    }
  }

  lemma EntryFor(entries: seq<Entry>, text: Key) returns (k: nat)
    requires HasEntry(entries, text)
    ensures k < |entries| && entries[k].text == text
  {
    k :| 0 <= k < |entries| && entries[k].text == text;
  }
}
