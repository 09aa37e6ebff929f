/** The tail of the minimal prefix trie: the suffixes below the leaves, one of them
    possibly inside another, each followed by the values it shares
    (`arrange_suffixes` in src/include/darts-clone.h). */
module SuffixTail {
  import opened Bits
  import opened Languages
  import opened SuffixUnits

  /** A key being arranged: the suffix from `pos` on is still to be stored, for the leaf `index`. */
  datatype Entry = Entry(text: Key, pos: nat, value: int, index: nat)

  predicate NulFree(s: Key) { forall i :: 0 <= i < |s| ==> s[i] != 0 }

  predicate EntryOK(e: Entry) { e.pos <= |e.text| && NulFree(e.text) }

  function Rest(e: Entry): (s: Key)
    requires EntryOK(e)
    ensures NulFree(s)
  {
    e.text[e.pos..]
  }

  // ---- values ----

  /** The four bytes of a 32-bit signed integer in memory. */
  function Bytes(value: int): (b: seq<Byte>)
    ensures |b| == 4
  {
    var w := value % 0x1_0000_0000;
    [w % 256, w / 256 % 256, w / 65536 % 256, w / 16777216]
  }

  function FromBytes(b: seq<Byte>): int
    requires |b| == 4
  {
    var w0: int, w1: int, w2: int, w3: int := b[0], b[1], b[2], b[3];
    var w := w0 + 256 * w1 + 65536 * w2 + 16777216 * w3;
    if w < 0x8000_0000 then w else w - 0x1_0000_0000
  }

  predicate IsInt32(value: int) { -0x8000_0000 <= value < 0x8000_0000 }

  lemma BytesRoundTrip(value: int)
    requires IsInt32(value)
    ensures FromBytes(Bytes(value)) == value
  {
    var w := value % 0x1_0000_0000;
    assert w / 256 / 256 == w / 65536;
    assert w / 65536 / 256 == w / 16777216;
  }

  // ---- what a link must lead to ----

  /** From `link` on the tail holds the suffix, its terminator, and the value in slot `id`. */
  ghost predicate Holds(tail: seq<Byte>, link: nat, id: nat, suffix: Key, value: int) {
    var at := link + |suffix|;
    && at + 1 + 4 * id + 4 <= |tail|
    && tail[link..at] == suffix
    && tail[at] == 0
    && tail[at + 1 + 4 * id..at + 1 + 4 * id + 4] == Bytes(value)
  }

  lemma HoldsMore(tail: seq<Byte>, more: seq<Byte>, link: nat, id: nat, suffix: Key, value: int)
    requires Holds(tail, link, id, suffix, value)
    ensures Holds(tail + more, link, id, suffix, value)
  {
    hide Bytes;
    var at := link + |suffix|;
    assert (tail + more)[link..at] == tail[link..at];
    assert (tail + more)[at + 1 + 4 * id..at + 1 + 4 * id + 4] == tail[at + 1 + 4 * id..at + 1 + 4 * id + 4];
  }

  ghost predicate Reaches(units: seq<Unit>, tail: seq<Byte>, e: Entry)
    requires EntryOK(e)
  {
    && e.index < |units| && units[e.index].Leaf?
    && Holds(tail, units[e.index].link, units[e.index].valueId, Rest(e), e.value)
  }

  // ---- the order of the suffixes ----

  predicate IsSuffix(s: Key, t: Key) {
    |s| <= |t| && t[|t| - |s|..] == s
  }

  // The byte at a distance from the end, 0 beyond the start.
  function FromEnd(s: Key, i: nat): Byte {
    if i < |s| then s[|s| - 1 - i] else 0
  }

  /** Compares the two suffixes from their ends. */
  method IsSuffixOf(s: Key, t: Key) returns (r: bool)
    requires NulFree(s) && NulFree(t)
    ensures r <==> IsSuffix(s, t)
  {
    var i := 0;
    while FromEnd(s, i) != 0 && FromEnd(s, i) == FromEnd(t, i)
      invariant 0 <= i <= |s| && i <= |t|
      invariant forall j :: 0 <= j < i ==> FromEnd(s, j) == FromEnd(t, j)
      decreases |s| - i
    {
      i := i + 1;
    }
    if IsSuffix(s, t) && i < |s| {
      SuffixAgrees(s, t, i);
    }
    r := FromEnd(s, i) == 0;
    if r {
      forall j | 0 <= j < |s| ensures s[j] == t[|t| - |s|..][j] {
        assert FromEnd(s, |s| - 1 - j) == FromEnd(t, |s| - 1 - j);
      }
    }
  }

  lemma SuffixAgrees(s: Key, t: Key, i: nat)
    requires IsSuffix(s, t) && i < |s|
    ensures FromEnd(s, i) == FromEnd(t, i)
  {
    assert t[|t| - |s|..][|s| - 1 - i] == s[|s| - 1 - i];
  }

  // The first distance from the end at which the two differ or the first one ends.
  function Split(s: Key, t: Key, i: nat): (j: nat)
    requires i <= |s| && NulFree(s)
    ensures i <= j <= |s|
    ensures FromEnd(s, j) == 0 || FromEnd(s, j) != FromEnd(t, j)
    ensures forall k :: i <= k < j ==> FromEnd(s, k) != 0 && FromEnd(s, k) == FromEnd(t, k)
    decreases |s| - i
  {
    if FromEnd(s, i) != 0 && FromEnd(s, i) == FromEnd(t, i) then Split(s, t, i + 1) else i
  }

  /** s goes before t: greater when both are read from their ends. */
  predicate Before(s: Key, t: Key)
    requires NulFree(s)
  {
    FromEnd(s, Split(s, t, 0)) > FromEnd(t, Split(s, t, 0))
  }

  lemma BeforeAsymmetric(s: Key, t: Key)
    requires NulFree(s) && NulFree(t) && Before(s, t)
    ensures !Before(t, s)
  {
    var i, j := Split(s, t, 0), Split(t, s, 0);
    assert i <= j;
  }

  // ---- sorting ----

  ghost predicate AllOK(keys: seq<Entry>) {
    forall k :: 0 <= k < |keys| ==> EntryOK(keys[k])
  }

  ghost predicate Apart(keys: seq<Entry>) {
    forall i, j :: 0 <= i < j < |keys| ==> keys[i].index != keys[j].index
  }

  ghost predicate Ordered(keys: seq<Entry>)
    requires AllOK(keys)
  {
    forall i :: 0 <= i < |keys| - 1 ==> !Before(Rest(keys[i + 1]), Rest(keys[i]))
  }

  function Inserted<T>(s: seq<T>, k: nat, x: T): seq<T>
    requires k <= |s|
  {
    s[..k] + [x] + s[k..]
  }

  lemma InsertedAt<T>(s: seq<T>, k: nat, x: T)
    requires k <= |s|
    ensures |Inserted(s, k, x)| == |s| + 1
    ensures forall i {:trigger Inserted(s, k, x)[i]} :: 0 <= i < |s| + 1 ==>
        Inserted(s, k, x)[i] == if i < k then s[i] else if i == k then x else s[i - 1]
  {
  }

  lemma InsertedMembers(s: seq<Entry>, k: nat, x: Entry)
    requires k <= |s|
    ensures forall e :: e in Inserted(s, k, x) <==> e in s || e == x
  {
    assert s == s[..k] + s[k..];
  }

  lemma InsertedKeeps(s: seq<Entry>, k: nat, x: Entry)
    requires k <= |s| && AllOK(s) && Apart(s) && EntryOK(x)
    requires forall i :: 0 <= i < |s| ==> s[i].index != x.index
    ensures AllOK(Inserted(s, k, x)) && Apart(Inserted(s, k, x))
  {
    hide Inserted, EntryOK;
    InsertedAt(s, k, x);
  }

  lemma InsertedOrdered(s: seq<Entry>, k: nat, x: Entry)
    requires k <= |s| && AllOK(s) && EntryOK(x) && Ordered(s)
    requires k > 0 ==> !Before(Rest(x), Rest(s[k - 1]))
    requires k < |s| ==> Before(Rest(x), Rest(s[k]))
    ensures AllOK(Inserted(s, k, x)) && Ordered(Inserted(s, k, x))
  {
    hide Before, Inserted, EntryOK, Rest;
    InsertedAt(s, k, x);
    var r := Inserted(s, k, x);
    if k < |s| {
      BeforeAsymmetric(Rest(x), Rest(s[k]));
    }
    forall i | 0 <= i < |r| - 1 ensures !Before(Rest(r[i + 1]), Rest(r[i])) {
      if i + 1 < k {
        assert r[i] == s[i] && r[i + 1] == s[i + 1];
      } else if i > k {
        assert r[i] == s[i - 1] && r[i + 1] == s[(i - 1) + 1];
      }
    }
  }

  /** The entries with a given suffix, in order. */
  ghost function With(keys: seq<Entry>, s: Key): seq<Entry>
    requires AllOK(keys)
  {
    if keys == [] then []
    else
      var n := |keys| - 1;
      With(keys[..n], s) + if Rest(keys[n]) == s then [keys[n]] else []
  }

  lemma {:induction false} WithAppend(a: seq<Entry>, b: seq<Entry>, s: Key)
    requires AllOK(a) && AllOK(b)
    ensures AllOK(a + b) && With(a + b, s) == With(a, s) + With(b, s)
    decreases |b|
  {
    hide EntryOK, Rest;
    if b == [] {
      assert a + b == a;
    } else {
      var n := |b| - 1;
      WithAppend(a, b[..n], s);
      assert (a + b)[..|a + b| - 1] == a + b[..n];
    }
  }

  lemma {:induction false} WithNone(a: seq<Entry>, s: Key)
    requires AllOK(a) && forall i :: 0 <= i < |a| ==> Rest(a[i]) != s
    ensures With(a, s) == []
    decreases |a|
  {
    if a != [] {
      WithNone(a[..|a| - 1], s);
    }
  }

  lemma BeforeIrreflexive(s: Key)
    requires NulFree(s)
    ensures !Before(s, s)
  {
  }

  // An entry inserted before greater ones only is the last of its suffix.
  lemma InsertedWith(s: seq<Entry>, k: nat, x: Entry, t: Key)
    requires k <= |s| && AllOK(s) && EntryOK(x)
    requires forall i :: k <= i < |s| ==> Before(Rest(x), Rest(s[i]))
    ensures AllOK(Inserted(s, k, x))
    ensures With(Inserted(s, k, x), t) == With(s, t) + With([x], t)
  {
    hide Before, EntryOK, Rest, With, AllOK;
    var a, b := s[..k], s[k..];
    Parted(s, k, x);
    WithAppend(a, [x], t);
    WithAppend(a + [x], b, t);
    WithAppend(a, b, t);
    BeforeIrreflexive(Rest(x));
    if Rest(x) == t {
      WithNone(b, t);
      assert With(a, t) + With([x], t) + [] == With(a, t) + [] + With([x], t);
    } else {
      WithOther(x, t);
      assert With(a, t) + [] + With(b, t) == With(a, t) + With(b, t) + [];
    }
  }

  lemma Parted(s: seq<Entry>, k: nat, x: Entry)
    requires k <= |s| && AllOK(s) && EntryOK(x)
    ensures AllOK(s[..k]) && AllOK(s[k..]) && AllOK([x])
    ensures s == s[..k] + s[k..] && Inserted(s, k, x) == (s[..k] + [x]) + s[k..]
  {
    hide EntryOK;
  }

  lemma WithOther(x: Entry, t: Key)
    requires EntryOK(x) && Rest(x) != t
    ensures With([x], t) == []
  {
  }

  /** What a suffix takes of the tail when nothing is shared: its bytes, a terminator, a value. */
  function Load(e: Entry): nat
    requires EntryOK(e)
  {
    |Rest(e)| + 5
  }

  ghost function TotalLoad(keys: seq<Entry>): nat
    requires AllOK(keys)
  {
    if keys == [] then 0 else TotalLoad(keys[..|keys| - 1]) + Load(keys[|keys| - 1])
  }

  lemma {:induction false} LoadAppend(a: seq<Entry>, b: seq<Entry>)
    requires AllOK(a) && AllOK(b)
    ensures AllOK(a + b) && TotalLoad(a + b) == TotalLoad(a) + TotalLoad(b)
    decreases |b|
  {
    hide EntryOK, Load;
    if b == [] {
      assert a + b == a;
    } else {
      LoadAppend(a, b[..|b| - 1]);
      assert (a + b)[..|a + b| - 1] == a + b[..|b| - 1];
    }
  }

  lemma InsertedLoad(s: seq<Entry>, k: nat, x: Entry)
    requires k <= |s| && AllOK(s) && EntryOK(x)
    ensures AllOK(Inserted(s, k, x)) && TotalLoad(Inserted(s, k, x)) == TotalLoad(s) + Load(x)
  {
    hide EntryOK, Load, TotalLoad, AllOK;
    var a, b := s[..k], s[k..];
    Parted(s, k, x);
    LoadAppend(a, [x]);
    LoadAppend(a + [x], b);
    LoadAppend(a, b);
    LoadOne(x);
  }

  lemma LoadOne(x: Entry)
    requires EntryOK(x)
    ensures TotalLoad([x]) == Load(x)
  {
  }

  /** The entries in the order of their suffixes; entries with one suffix keep their order. */
  method SortSuffixes(keys: seq<Entry>) returns (sorted: seq<Entry>)
    requires AllOK(keys) && Apart(keys)
    ensures |sorted| == |keys| && AllOK(sorted) && Apart(sorted) && Ordered(sorted)
    ensures forall e :: e in sorted <==> e in keys
    ensures forall s :: With(sorted, s) == With(keys, s)
    ensures TotalLoad(sorted) == TotalLoad(keys)
  {
    hide Before, Inserted, With, TotalLoad, Load;
    sorted := [];
    assert keys[..0] == [];
    for i := 0 to |keys|
      invariant |sorted| == i && AllOK(sorted) && Apart(sorted) && Ordered(sorted)
      invariant forall e :: e in sorted <==> e in keys[..i]
      invariant forall s :: With(sorted, s) == With(keys[..i], s)
      invariant TotalLoad(sorted) == TotalLoad(keys[..i])
    {
      var k := |sorted|;
      while k > 0 && Before(Rest(keys[i]), Rest(sorted[k - 1]))
        invariant 0 <= k <= |sorted|
        invariant forall j :: k <= j < |sorted| ==> Before(Rest(keys[i]), Rest(sorted[j]))
      {
        k := k - 1;
      }
      InsertNext(keys, i, sorted, k);
      sorted := Inserted(sorted, k, keys[i]);
    }
    assert keys[..|keys|] == keys;
  }

  lemma InsertNext(keys: seq<Entry>, i: nat, sorted: seq<Entry>, k: nat)
    requires AllOK(keys) && Apart(keys) && i < |keys|
    requires |sorted| == i && AllOK(sorted) && Apart(sorted) && Ordered(sorted) && k <= i
    requires forall e :: e in sorted <==> e in keys[..i]
    requires forall s :: With(sorted, s) == With(keys[..i], s)
    requires TotalLoad(sorted) == TotalLoad(keys[..i])
    requires k > 0 ==> !Before(Rest(keys[i]), Rest(sorted[k - 1]))
    requires forall j :: k <= j < |sorted| ==> Before(Rest(keys[i]), Rest(sorted[j]))
    ensures var next := Inserted(sorted, k, keys[i]);
      && |next| == i + 1 && AllOK(next) && Apart(next) && Ordered(next)
      && (forall e :: e in next <==> e in keys[..i + 1])
      && (forall s :: With(next, s) == With(keys[..i + 1], s))
      && TotalLoad(next) == TotalLoad(keys[..i + 1])
  {
    hide Before, Inserted, With, TotalLoad, Load, EntryOK, Rest;
    forall j | 0 <= j < |sorted| ensures sorted[j].index != keys[i].index {
      assert sorted[j] in keys[..i];
    }
    InsertedMembers(sorted, k, keys[i]);
    InsertedKeeps(sorted, k, keys[i]);
    InsertedOrdered(sorted, k, keys[i]);
    InsertedAt(sorted, k, keys[i]);
    InsertedLoad(sorted, k, keys[i]);
    assert keys[..i + 1] == keys[..i] + [keys[i]];
    LoadAppend(keys[..i], [keys[i]]);
    LoadOne(keys[i]);
    forall s: Key ensures With(Inserted(sorted, k, keys[i]), s) == With(keys[..i + 1], s) {
      InsertedWith(sorted, k, keys[i], s);
      WithAppend(keys[..i], [keys[i]], s);
    }
  }

  // ---- the block being filled ----

  /** The tail ends with the suffix `last`, its terminator at `base` - 1, and the values so far. */
  ghost predicate Block(tail: seq<Byte>, base: nat, values: seq<int>, last: Key) {
    && |tail| == base + 4 * |values|
    && |last| + 1 <= base
    && tail[base - 1 - |last|..base - 1] == last
    && tail[base - 1] == 0
    && forall j :: 0 <= j < |values| ==> tail[base + 4 * j..base + 4 * j + 4] == Bytes(values[j])
  }

  // A suffix of the last one ends where the last one ends.
  lemma BlockSuffix(tail: seq<Byte>, base: nat, values: seq<int>, last: Key, s: Key)
    requires Block(tail, base, values, last) && IsSuffix(s, last)
    ensures Block(tail, base, values, s)
  {
    hide Bytes;
    var a, b := base - 1 - |last|, base - 1 - |s|;
    assert tail[b..base - 1] == tail[a..base - 1][|last| - |s|..];
  }

  lemma BlockNew(tail: seq<Byte>, s: Key)
    ensures Block(tail + s + [0], |tail| + |s| + 1, [], s)
  {
    var t := tail + s + [0];
    assert t[|tail|..|tail| + |s|] == s;
  }

  lemma BlockValue(tail: seq<Byte>, base: nat, values: seq<int>, last: Key, value: int)
    requires Block(tail, base, values, last)
    ensures Block(tail + Bytes(value), base, values + [value], last)
  {
    hide Bytes;
    var t, n := tail + Bytes(value), |values|;
    assert t[base - 1 - |last|..base - 1] == tail[base - 1 - |last|..base - 1];
    forall j | 0 <= j < n + 1
      ensures t[base + 4 * j..base + 4 * j + 4] == Bytes((values + [value])[j])
    {
      if j < n {
        assert t[base + 4 * j..base + 4 * j + 4] == tail[base + 4 * j..base + 4 * j + 4];
      } else {
        assert t[base + 4 * j..base + 4 * j + 4] == Bytes(value);
      }
    }
  }

  lemma BlockHolds(tail: seq<Byte>, base: nat, values: seq<int>, s: Key, id: nat)
    requires Block(tail, base, values, s) && id < |values|
    ensures Holds(tail, base - 1 - |s|, id, s, values[id])
  {
    hide Bytes;
  }

  /** The first slot that holds the value, or the next free one. */
  method FindValue(values: seq<int>, value: int) returns (id: nat)
    ensures id <= |values| && (id < |values| ==> values[id] == value)
    ensures forall j :: 0 <= j < id ==> values[j] != value
  {
    id := 0;
    while id < |values| && values[id] != value
      invariant id <= |values|
      invariant forall j :: 0 <= j < id ==> values[j] != value
    {
      id := id + 1;
    }
  }

  // ---- what is shared ----

  // Entry i ends with the block of the one before it.
  ghost predicate Merged(ends: seq<nat>, i: nat)
    requires i < |ends|
  {
    i > 0 && ends[i] == ends[i - 1]
  }

  // No entry before has the slot of entry i.
  ghost predicate NewSlot(ends: seq<nat>, ids: seq<nat>, i: nat)
    requires i < |ends| == |ids|
  {
    forall k :: 0 <= k < i ==> ends[k] != ends[i] || ids[k] != ids[i]
  }

  // The block before entry i has all its slots taken by other values.
  ghost predicate Full(keys: seq<Entry>, ends: seq<nat>, ids: seq<nat>, i: nat, idMax: nat)
    requires 0 < i < |ends| == |ids| <= |keys|
  {
    forall id :: 0 <= id < idMax ==> Taken(keys, ends, ids, i, id)
  }

  ghost predicate Taken(keys: seq<Entry>, ends: seq<nat>, ids: seq<nat>, i: nat, id: nat)
    requires 0 < i < |ends| == |ids| <= |keys|
  {
    exists k :: 0 <= k < i && ends[k] == ends[i - 1] && ids[k] == id && keys[k].value != keys[i].value
  }

  /** The bytes of the first n entries: a suffix and its terminator for each that is not merged, a value
      for each new slot. */
  ghost function Space(keys: seq<Entry>, ends: seq<nat>, ids: seq<nat>, n: nat): nat
    requires AllOK(keys) && n <= |ends| == |ids| <= |keys|
  {
    if n == 0 then 0
    else
      Space(keys, ends, ids, n - 1) + (if Merged(ends, n - 1) then 0 else |Rest(keys[n - 1])| + 1)
      + if NewSlot(ends, ids, n - 1) then 4 else 0
  }

  /** In the order in which they are stored, entry k ends at ends[k] and has slot ids[k]: a suffix of the
      entry before it is merged with it unless all slots are taken by other values, equal values of one
      block share a slot, and the tail holds nothing else. */
  ghost predicate Compact(keys: seq<Entry>, ends: seq<nat>, ids: seq<nat>, size: nat, idMax: nat)
    requires AllOK(keys)
  {
    && |ends| == |ids| <= |keys|
    && OneSlot(keys, ends, ids) && AllMerged(keys, ends, ids, idMax)
    && size == Space(keys, ends, ids, |ends|)
  }

  ghost predicate OneSlot(keys: seq<Entry>, ends: seq<nat>, ids: seq<nat>)
    requires |ends| == |ids| <= |keys|
  {
    forall i, j :: 0 <= i < j < |ends| && ends[i] == ends[j] && keys[i].value == keys[j].value ==> ids[i] == ids[j]
  }

  ghost predicate AllMerged(keys: seq<Entry>, ends: seq<nat>, ids: seq<nat>, idMax: nat)
    requires AllOK(keys) && |ends| == |ids| <= |keys|
  {
    forall i :: 0 < i < |ends| && IsSuffix(Rest(keys[i]), Rest(keys[i - 1])) ==>
      Merged(ends, i) || Full(keys, ends, ids, i, idMax)
  }

  // The block being filled: which entries end there, and with which values.
  ghost predicate Filling(keys: seq<Entry>, ends: seq<nat>, ids: seq<nat>, base: nat, values: seq<int>) {
    && |ends| == |ids| <= |keys|
    && (ends != [] ==> ends[|ends| - 1] + 1 == base)
    && (forall k :: 0 <= k < |ends| ==> ends[k] + 1 <= base)
    && (forall k :: 0 <= k < |ends| && ends[k] + 1 == base ==> ids[k] < |values| && values[ids[k]] == keys[k].value)
    && (forall id :: 0 <= id < |values| ==> Sits(ends, ids, base, id))
    && (forall a, b :: 0 <= a < b < |values| ==> values[a] != values[b])
  }

  ghost predicate Sits(ends: seq<nat>, ids: seq<nat>, base: nat, id: nat)
    requires |ends| == |ids|
  {
    exists k :: 0 <= k < |ends| && ends[k] + 1 == base && ids[k] == id
  }

  lemma NothingStored(keys: seq<Entry>, idMax: nat)
    requires AllOK(keys)
    ensures Compact(keys, [], [], 0, idMax) && Filling(keys, [], [], 0, [])
  {
  }

  lemma {:induction false} SpaceSame(keys: seq<Entry>, ends: seq<nat>, ids: seq<nat>, end: nat, id: nat, n: nat)
    requires AllOK(keys) && n <= |ends| == |ids| < |keys|
    ensures Space(keys, ends + [end], ids + [id], n) == Space(keys, ends, ids, n)
    decreases n
  {
    hide Rest, EntryOK;
    if n > 0 {
      SpaceSame(keys, ends, ids, end, id, n - 1);
      var ends', ids' := ends + [end], ids + [id];
      assert ends'[..|ends|] == ends && ids'[..|ids|] == ids;
      assert NewSlot(ends', ids', n - 1) <==> NewSlot(ends, ids, n - 1);
    }
  }

  // An entry is merged with the one before it.
  lemma MergeStep(keys: seq<Entry>, ends: seq<nat>, ids: seq<nat>, size: nat, idMax: nat, base: nat, values: seq<int>,
      id: nat)
    requires AllOK(keys) && Compact(keys, ends, ids, size, idMax) && Filling(keys, ends, ids, base, values)
    requires 0 < |ends| < |keys| && id <= |values| && base > 0
    requires forall k :: 0 <= k < id ==> values[k] != keys[|ends|].value
    requires id < |values| ==> values[id] == keys[|ends|].value
    ensures var v := keys[|ends|].value;
      var values' := if id == |values| then values + [v] else values;
      && Compact(keys, ends + [base - 1], ids + [id], if id == |values| then size + 4 else size, idMax)
      && Filling(keys, ends + [base - 1], ids + [id], base, values')
  {
    hide Rest, EntryOK, IsSuffix, Filling, OneSlot, AllMerged, Space, NewSlot;
    SpaceSame(keys, ends, ids, base - 1, id, |ends|);
    SpaceLast(keys, ends + [base - 1], ids + [id]);
    MergeSlot(keys, ends, ids, base, values, id);
    MergeEnds(keys, ends, ids, base, values);
    MoreMerged(keys, ends, ids, base - 1, id, idMax);
    MergeFilling(keys, ends, ids, base, values, id);
    MergeOne(keys, ends, ids, base, values, id);
  }

  lemma SpaceLast(keys: seq<Entry>, ends: seq<nat>, ids: seq<nat>)
    requires AllOK(keys) && 0 < |ends| == |ids| <= |keys|
    ensures var n := |ends| - 1;
      Space(keys, ends, ids, n + 1) == Space(keys, ends, ids, n) + (if Merged(ends, n) then 0 else |Rest(keys[n])| + 1)
                                       + if NewSlot(ends, ids, n) then 4 else 0
  {
    hide Rest, EntryOK;
  }

  lemma MergeEnds(keys: seq<Entry>, ends: seq<nat>, ids: seq<nat>, base: nat, values: seq<int>)
    requires Filling(keys, ends, ids, base, values) && ends != [] && base > 0
    ensures Merged(ends + [base - 1], |ends|)
  {
  }

  // The entries so far stay merged, or before full blocks.
  lemma MoreMerged(keys: seq<Entry>, ends: seq<nat>, ids: seq<nat>, end: nat, id: nat, idMax: nat)
    requires AllOK(keys) && |ends| == |ids| < |keys| && AllMerged(keys, ends, ids, idMax)
    requires var n := |ends|;
      n > 0 && IsSuffix(Rest(keys[n]), Rest(keys[n - 1])) ==>
        Merged(ends + [end], n) || Full(keys, ends + [end], ids + [id], n, idMax)
    ensures AllMerged(keys, ends + [end], ids + [id], idMax)
  {
    hide Rest, EntryOK, IsSuffix, Full;
    FullSame(keys, ends, ids, end, id, idMax);
    var ends', ids' := ends + [end], ids + [id];
    forall i | 0 < i < |ends'| && IsSuffix(Rest(keys[i]), Rest(keys[i - 1]))
      ensures Merged(ends', i) || Full(keys, ends', ids', i, idMax)
    {
      if i < |ends| {
        assert Merged(ends, i) || Full(keys, ends, ids, i, idMax);
      }
    }
  }

  lemma MergeOne(keys: seq<Entry>, ends: seq<nat>, ids: seq<nat>, base: nat, values: seq<int>, id: nat)
    requires Filling(keys, ends, ids, base, values) && |ends| < |keys| && id <= |values| && base > 0
    requires OneSlot(keys, ends, ids)
    requires forall k :: 0 <= k < id ==> values[k] != keys[|ends|].value
    requires id < |values| ==> values[id] == keys[|ends|].value
    ensures OneSlot(keys, ends + [base - 1], ids + [id])
  {
    hide Sits;
    var n, ends', ids' := |ends|, ends + [base - 1], ids + [id];
    forall i, j | 0 <= i < j < |ends'| && ends'[i] == ends'[j] && keys[i].value == keys[j].value
      ensures ids'[i] == ids'[j]
    {
      if j == n {
        assert ends[i] + 1 == base && values[ids[i]] == keys[i].value;
      } else {
        assert ends[i] == ends[j];
      }
    }
  }

  lemma MergeSlot(keys: seq<Entry>, ends: seq<nat>, ids: seq<nat>, base: nat, values: seq<int>, id: nat)
    requires Filling(keys, ends, ids, base, values) && id <= |values| && base > 0
    ensures NewSlot(ends + [base - 1], ids + [id], |ends|) <==> id == |values|
  {
    var n, ends', ids' := |ends|, ends + [base - 1], ids + [id];
    if id < |values| {
      assert Sits(ends, ids, base, id);
      var k :| 0 <= k < n && ends[k] + 1 == base && ids[k] == id;
      assert ends'[k] == ends'[n] && ids'[k] == ids'[n];
    } else {
      forall k | 0 <= k < n ensures ends'[k] != ends'[n] || ids'[k] != ids'[n] {
        assert ends'[k] == ends[k] && ids'[k] == ids[k];
      }
    }
  }

  lemma MergeFilling(keys: seq<Entry>, ends: seq<nat>, ids: seq<nat>, base: nat, values: seq<int>, id: nat)
    requires Filling(keys, ends, ids, base, values) && |ends| < |keys| && id <= |values| && base > 0
    requires forall k :: 0 <= k < id ==> values[k] != keys[|ends|].value
    requires id < |values| ==> values[id] == keys[|ends|].value
    ensures Filling(keys, ends + [base - 1], ids + [id], base,
                    if id == |values| then values + [keys[|ends|].value] else values)
  {
    var n, ends', ids' := |ends|, ends + [base - 1], ids + [id];
    var values' := if id == |values| then values + [keys[n].value] else values;
    forall x | 0 <= x < |values'| ensures Sits(ends', ids', base, x) {
      if x < |values| {
        assert Sits(ends, ids, base, x);
        var k :| 0 <= k < n && ends[k] + 1 == base && ids[k] == x;
        assert ends'[k] == ends[k] && ids'[k] == ids[k];
      } else {
        assert ends'[n] + 1 == base && ids'[n] == x;
      }
    }
    forall k | 0 <= k < |ends'| && ends'[k] + 1 == base ensures ids'[k] < |values'|
        && values'[ids'[k]] == keys[k].value {
      if k < n {
        assert ends'[k] == ends[k] && ids'[k] == ids[k];
      }
    }
  }

  lemma FullSame(keys: seq<Entry>, ends: seq<nat>, ids: seq<nat>, end: nat, id: nat, idMax: nat)
    requires |ends| == |ids| < |keys|
    ensures forall i :: 0 < i < |ends| && Full(keys, ends, ids, i, idMax) ==>
      Full(keys, ends + [end], ids + [id], i, idMax)
  {
    var ends', ids' := ends + [end], ids + [id];
    forall i | 0 < i < |ends| && Full(keys, ends, ids, i, idMax) ensures Full(keys, ends', ids', i, idMax) {
      forall x | 0 <= x < idMax ensures Taken(keys, ends', ids', i, x) {
        assert Taken(keys, ends, ids, i, x);
        var k :| 0 <= k < i && ends[k] == ends[i - 1] && ids[k] == x && keys[k].value != keys[i].value;
        assert ends'[k] == ends[k] && ids'[k] == ids[k] && ends'[i - 1] == ends[i - 1];
      }
    }
  }

  // An entry begins a block of its own.
  lemma BlockStep(keys: seq<Entry>, ends: seq<nat>, ids: seq<nat>, size: nat, idMax: nat, base: nat, values: seq<int>,
      base': nat)
    requires AllOK(keys) && Compact(keys, ends, ids, size, idMax) && Filling(keys, ends, ids, base, values)
    requires |ends| < |keys| && base' > base
    requires ends != [] && IsSuffix(Rest(keys[|ends|]), Rest(keys[|ends| - 1])) ==>
      idMax <= |values| && forall k :: 0 <= k < idMax ==> values[k] != keys[|ends|].value
    ensures var n := |ends|;
      && Compact(keys, ends + [base' - 1], ids + [0], size + |Rest(keys[n])| + 5, idMax)
      && Filling(keys, ends + [base' - 1], ids + [0], base', [keys[n].value])
  {
    hide Rest, EntryOK, IsSuffix, OneSlot, AllMerged, Space, NewSlot, Filling, Full;
    var n := |ends|;
    SpaceSame(keys, ends, ids, base' - 1, 0, n);
    SpaceLast(keys, ends + [base' - 1], ids + [0]);
    OwnBlock(keys, ends, ids, base, values, base');
    if n > 0 && IsSuffix(Rest(keys[n]), Rest(keys[n - 1])) {
      AllTaken(keys, ends, ids, idMax, base, values, base' - 1);
    }
    MoreMerged(keys, ends, ids, base' - 1, 0, idMax);
  }

  lemma OwnBlock(keys: seq<Entry>, ends: seq<nat>, ids: seq<nat>, base: nat, values: seq<int>, base': nat)
    requires Filling(keys, ends, ids, base, values) && OneSlot(keys, ends, ids) && |ends| < |keys| && base' > base
    ensures var ends', ids' := ends + [base' - 1], ids + [0];
      && NewSlot(ends', ids', |ends|) && !Merged(ends', |ends|) && OneSlot(keys, ends', ids')
      && Filling(keys, ends', ids', base', [keys[|ends|].value])
  {
    hide Sits;
    var n, ends', ids' := |ends|, ends + [base' - 1], ids + [0];
    forall k | 0 <= k < n ensures ends'[k] == ends[k] && ends'[k] + 1 < base' {
    }
    SitsHere(ends', ids', base', n);
  }

  lemma SitsHere(ends: seq<nat>, ids: seq<nat>, base: nat, k: nat)
    requires k < |ends| == |ids| && ends[k] + 1 == base
    ensures Sits(ends, ids, base, ids[k])
  {
  }

  lemma AllTaken(keys: seq<Entry>, ends: seq<nat>, ids: seq<nat>, idMax: nat, base: nat, values: seq<int>, end: nat)
    requires Filling(keys, ends, ids, base, values) && 0 < |ends| < |keys|
    requires idMax <= |values| && forall k :: 0 <= k < idMax ==> values[k] != keys[|ends|].value
    ensures Full(keys, ends + [end], ids + [0], |ends|, idMax)
  {
    var n, ends', ids' := |ends|, ends + [end], ids + [0];
    forall x | 0 <= x < idMax ensures Taken(keys, ends', ids', n, x) {
      assert Sits(ends, ids, base, x);
      var k :| 0 <= k < n && ends[k] + 1 == base && ids[k] == x;
      assert ends'[k] == ends[k] && ids'[k] == ids[k] && ends'[n - 1] == ends[n - 1];
    }
  }

  // The units lead where the entries end.
  ghost predicate EndsAt(units: seq<Unit>, keys: seq<Entry>, ends: seq<nat>, ids: seq<nat>)
    requires AllOK(keys) && |ends| == |ids| <= |keys|
  {
    forall k :: 0 <= k < |ends| ==>
      && keys[k].index < |units| && units[keys[k].index].Leaf?
      && units[keys[k].index].link + |Rest(keys[k])| == ends[k] && units[keys[k].index].valueId == ids[k]
  }

  lemma NothingEnds(units: seq<Unit>, keys: seq<Entry>)
    requires AllOK(keys)
    ensures EndsAt(units, keys, [], [])
  {
  }

  lemma EndsMore(units: seq<Unit>, keys: seq<Entry>, ends: seq<nat>, ids: seq<nat>, id: nat, link: nat)
    requires AllOK(keys) && Apart(keys) && |ends| == |ids| < |keys| && EndsAt(units, keys, ends, ids)
    requires keys[|ends|].index < |units|
    ensures var e := keys[|ends|];
      EndsAt(units[e.index := Leaf(id, link)], keys, ends + [link + |Rest(e)|], ids + [id])
  {
    hide Rest, EntryOK;
  }

  /** Stores every suffix and every value, and links every leaf to its own: a suffix of the one
      stored before shares its bytes, equal values of one block share a slot, and nothing else is
      stored. Fails only when the suffixes and values are too many bytes for a link to fit its field. */
  method ArrangeSuffixes(keys: seq<Entry>, units: seq<Unit>, idMax: nat, linkMax: nat, sorting: bool)
    returns (ok: bool, linked: seq<Unit>, tail: seq<Byte>, ghost sorted: seq<Entry>, ghost ends: seq<nat>,
        ghost ids: seq<nat>)
    requires idMax > 0 && AllOK(keys) && Apart(keys)
    requires forall k :: 0 <= k < |keys| ==> keys[k].index < |units|
    ensures !ok ==> linkMax <= TotalLoad(keys)
    ensures ok ==> |linked| == |units| && |tail| <= TotalLoad(keys)
    ensures ok ==> forall k :: 0 <= k < |keys| ==> Settled(linked, tail, keys[k], idMax, linkMax)
    ensures ok ==> forall x :: 0 <= x < |units| && (forall k :: 0 <= k < |keys| ==> keys[k].index != x) ==>
        linked[x] == units[x]
    ensures |sorted| == |keys| && AllOK(sorted) && (forall e :: e in sorted <==> e in keys)
    ensures if sorting then Ordered(sorted) else sorted == keys
    ensures ok ==> |ends| == |keys| && Compact(sorted, ends, ids, |tail|, idMax) && EndsAt(linked, sorted, ends, ids)
  {
    hide Holds, Block, IsSuffix, Bytes, Before, TotalLoad, With, Compact, Filling, EndsAt, Settled;
    var order := keys;
    if sorting {
      order := SortSuffixes(keys);
    }
    sorted, ends, ids := order, [], [];
    tail, linked := [], units;
    var base: nat, values: seq<int> := 0, [];
    assert sorted[..0] == [];
    NothingStored(sorted, idMax);
    NothingEnds(linked, sorted);
    for i := 0 to |order|
      invariant |linked| == |units| && sorted == order
      invariant |tail| <= TotalLoad(sorted[..i])
      invariant forall k :: 0 <= k < i ==> Settled(linked, tail, sorted[k], idMax, linkMax)
      invariant forall x :: 0 <= x < |units| && (forall k :: 0 <= k < |sorted| ==> sorted[k].index != x) ==>
          linked[x] == units[x]
      invariant |ends| == |ids| == i && SoFar(sorted, ends, ids, tail, base, values, idMax)
      invariant EndsAt(linked, sorted, ends, ids)
    {
      assert sorted[i] in sorted;
      LoadStep(sorted, i);
      ghost var before, linked0 := tail, linked;
      var id, link;
      id, link, tail, base, values := StoreNext(order, i, tail, base, values, idMax, ends, ids);
      if link >= linkMax {
        return false, linked, tail, sorted, ends, ids;
      }
      linked := linked[order[i].index := Leaf(id, link)];
      EndsMore(linked0, sorted, ends, ids, id, link);
      ends, ids := ends + [link + |Rest(sorted[i])|], ids + [id];
      SettledMore(linked0, before, tail, sorted, i, idMax, linkMax, id, link);
    }
    ok := true;
    assert sorted[..|sorted|] == sorted;
    forall k | 0 <= k < |keys| ensures Settled(linked, tail, keys[k], idMax, linkMax) {
      assert keys[k] in sorted;
    }
    forall x | 0 <= x < |units| && (forall k :: 0 <= k < |keys| ==> keys[k].index != x)
      ensures linked[x] == units[x]
    {
      forall k | 0 <= k < |sorted| ensures sorted[k].index != x {
        assert sorted[k] in sorted;
      }
    }
  }

  // What is stored so far, and the block that is being filled.
  ghost predicate SoFar(keys: seq<Entry>, ends: seq<nat>, ids: seq<nat>, tail: seq<Byte>, base: nat, values: seq<int>,
                         idMax: nat)
    requires AllOK(keys)
  {
    && Compact(keys, ends, ids, |tail|, idMax) && Filling(keys, ends, ids, base, values)
    && |tail| == base + 4 * |values|
    && (ends != [] ==> Block(tail, base, values, Rest(keys[|ends| - 1])))
  }

  /** One suffix and its value: merged with the block before it, or in a block of its own. */
  method StoreNext(keys: seq<Entry>, i: nat, tail: seq<Byte>, base: nat, values: seq<int>, idMax: nat,
                   ghost ends: seq<nat>, ghost ids: seq<nat>)
    returns (id: nat, link: nat, tail': seq<Byte>, base': nat, values': seq<int>)
    requires AllOK(keys) && i < |keys| && |ends| == |ids| == i && idMax > 0
    requires SoFar(keys, ends, ids, tail, base, values, idMax)
    ensures tail <= tail' && |tail'| <= |tail| + Load(keys[i]) && id < idMax && link <= |tail'|
    ensures Holds(tail', link, id, Rest(keys[i]), keys[i].value)
    ensures SoFar(keys, ends + [link + |Rest(keys[i])|], ids + [id], tail', base', values', idMax)
  {
    hide Holds, Block, IsSuffix, Bytes, Compact, Filling;
    tail', base', values' := tail, base, values;
    var suffix := Rest(keys[i]);
    var isSuffix := false;
    if i > 0 {
      isSuffix := IsSuffixOf(suffix, Rest(keys[i - 1]));
    }
    id := 0;
    if isSuffix {
      id := FindValue(values, keys[i].value);
      BlockSuffix(tail, base, values, Rest(keys[i - 1]), suffix);
    }
    if !isSuffix || id >= idMax {
      base' := base + 4 * |values| + |suffix| + 1;
      BlockStep(keys, ends, ids, |tail|, idMax, base, values, base');
      values', id := [], 0;
      BlockNew(tail, suffix);
      tail' := tail + suffix + [0];
    } else {
      BlockRoom(tail, base, values, suffix);
      MergeStep(keys, ends, ids, |tail|, idMax, base, values, id);
    }
    BlockRoom(tail', base', values', suffix);
    link := base' - |suffix| - 1;
    if id == |values'| {
      BlockValue(tail', base', values', suffix, keys[i].value);
      values' := values' + [keys[i].value];
      tail' := tail' + Bytes(keys[i].value);
    }
    BlockHolds(tail', base', values', suffix, id);
    assert [] + [keys[i].value] == [keys[i].value];
  }

  lemma SettledMore(units: seq<Unit>, before: seq<Byte>, tail: seq<Byte>, keys: seq<Entry>, i: nat, idMax: nat,
      linkMax: nat, id: nat, link: nat)
    requires AllOK(keys) && Apart(keys) && i < |keys| && keys[i].index < |units| && before <= tail
    requires forall k :: 0 <= k < i ==> Settled(units, before, keys[k], idMax, linkMax)
    requires Holds(tail, link, id, Rest(keys[i]), keys[i].value) && id < idMax && link < linkMax
    ensures var units' := units[keys[i].index := Leaf(id, link)];
      forall k :: 0 <= k < i + 1 ==> Settled(units', tail, keys[k], idMax, linkMax)
  {
    hide Holds, Rest, EntryOK;
    var units' := units[keys[i].index := Leaf(id, link)];
    var more := tail[|before|..];
    assert tail == before + more;
    forall k | 0 <= k < i + 1 ensures Settled(units', tail, keys[k], idMax, linkMax) {
      if k < i {
        assert Settled(units, before, keys[k], idMax, linkMax);
        var u := units[keys[k].index];
        HoldsMore(before, more, u.link, u.valueId, Rest(keys[k]), keys[k].value);
      }
    }
  }

  ghost predicate Settled(units: seq<Unit>, tail: seq<Byte>, e: Entry, idMax: nat, linkMax: nat)
    requires EntryOK(e)
  {
    Reaches(units, tail, e) && units[e.index].valueId < idMax && units[e.index].link < linkMax
  }

  lemma LoadStep(keys: seq<Entry>, i: nat)
    requires AllOK(keys) && i < |keys|
    ensures TotalLoad(keys[..i + 1]) == TotalLoad(keys[..i]) + Load(keys[i])
    ensures TotalLoad(keys[..i + 1]) <= TotalLoad(keys)
  {
    hide EntryOK, Load, TotalLoad;
    assert keys[..i + 1] == keys[..i] + [keys[i]];
    LoadAppend(keys[..i], [keys[i]]);
    LoadOne(keys[i]);
    assert keys == keys[..i + 1] + keys[i + 1..];
    LoadAppend(keys[..i + 1], keys[i + 1..]);
  }

  lemma BlockRoom(tail: seq<Byte>, base: nat, values: seq<int>, s: Key)
    requires Block(tail, base, values, s)
    ensures |tail| == base + 4 * |values| && |s| + 1 <= base
  {
  }
}
