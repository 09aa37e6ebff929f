/** The ranges of keys on the stack of the builder, and what is known of every key and
    node while the stack is worked off. */
module PrefixTrieRanges {
  import opened Bits
  import opened Languages
  import opened SuffixUnits
  import opened SuffixTail
  import opened BuilderInvariant
  import opened PT = PrefixTrie

  /** The keys from lo up to hi, below the node `index`. */
  datatype Range = Range(lo: nat, hi: nat, index: nat)

  // ---- terminated keys ----

  ghost predicate Terminated(t: Key) {
    t != [] && t[|t| - 1] == 0 && NulFree(t[..|t| - 1])
  }

  ghost predicate Precedes(a: Key, b: Key) {
    exists m :: 0 <= m < |a| && m < |b| && a[..m] == b[..m] && a[m] < b[m]
  }

  ghost predicate Dictionary(terms: seq<Key>) {
    && (forall k :: 0 <= k < |terms| ==> Terminated(terms[k]))
    && (forall i, j :: 0 <= i < j < |terms| ==> Precedes(terms[i], terms[j]))
  }

  // A prefix that two keys share, or the empty one, is shorter than each of them.
  lemma SharedShort(terms: seq<Key>, p: Key, lo: nat, hi: nat)
    requires Dictionary(terms) && hi <= |terms| && (p == [] || lo + 1 < hi)
    requires forall k :: lo <= k < hi ==> p <= terms[k]
    ensures hi > lo ==> NulFree(p)
    ensures forall k :: lo <= k < hi ==> |p| < |terms[k]|
  {
    forall k | lo <= k < hi ensures |p| < |terms[k]| {
      SharedAt(terms, p, lo, hi, k);
    }
    if lo < hi {
      SharedAt(terms, p, lo, hi, lo);
    }
  }

  lemma SharedAt(terms: seq<Key>, p: Key, lo: nat, hi: nat, k: nat)
    requires Dictionary(terms) && lo <= k < hi <= |terms| && (p == [] || lo + 1 < hi)
    requires forall k :: lo <= k < hi ==> p <= terms[k]
    ensures NulFree(p) && |p| < |terms[k]|
  {
    hide Precedes, Terminated;
    assert Terminated(terms[k]);
    if p == [] {
      TerminatedSome(terms[k]);
    } else {
      var j := if k == lo then lo + 1 else lo;
      assert Terminated(terms[j]);
      if j < k { Differ(terms[j], terms[k]); } else { Differ(terms[k], terms[j]); }
      TerminatedPrefix(p, terms[k], terms[j]);
    }
  }

  lemma TerminatedSome(t: Key)
    requires Terminated(t)
    ensures |t| > 0
  {
  }

  lemma Differ(a: Key, b: Key)
    requires Precedes(a, b)
    ensures a != b
  {
  }

  lemma TerminatedPrefix(p: Key, a: Key, b: Key)
    requires p <= a && p <= b && a != b && Terminated(a) && Terminated(b)
    ensures |p| < |a| && NulFree(p)
  {
    assert |p| == |a| ==> p == a;
    assert |p| == |b| ==> p == b;
    assert 0 < |p| < |b| ==> b[..|b| - 1][|p| - 1] == p[|p| - 1];
    forall i | 0 <= i < |p| && |p| < |a| ensures p[i] != 0 {
      assert a[..|a| - 1][i] == p[i];
    }
  }

  // Below a common prefix the next letters do not decrease.
  lemma LettersAscend(terms: seq<Key>, p: Key, i: nat, j: nat)
    requires Dictionary(terms) && i < j < |terms| && p <= terms[i] && p <= terms[j]
    requires |p| < |terms[i]| && |p| < |terms[j]|
    ensures terms[i][|p|] <= terms[j][|p|]
  {
    hide Terminated;
    var a, b := terms[i], terms[j];
    assert Precedes(a, b);
    var m :| 0 <= m < |a| && m < |b| && a[..m] == b[..m] && a[m] < b[m];
    if m > |p| {
      assert a[|p|] == a[..m][|p|] == b[..m][|p|];
    }
  }

  lemma PrefixStep(p: Key, c: Byte, t: Key)
    ensures p + [c] <= t <==> p <= t && |p| < |t| && t[|p|] == c
  {
    if p <= t && |p| < |t| && t[|p|] == c {
      assert t[..|p| + 1] == p + [c];
    }
  }

  // ---- the stack ----

  ghost predicate KeysOK(terms: seq<Key>, keys: seq<Entry>) {
    && |keys| == |terms|
    && forall k :: 0 <= k < |keys| ==> keys[k].text + [0] == terms[k] && keys[k].pos <= |terms[k]|
  }

  /** A range on the stack: exactly the keys below its node, each at the depth of the node. */
  ghost predicate RangeOK(terms: seq<Key>, keys: seq<Entry>, units: seq<Unit>, v: View, node: PT.Node, r: Range) {
    && r.lo < r.hi <= |keys| && |keys| == |terms|
    && r.index in node && r.index !in v.done
    && r.index < |units| && units[r.index].Branch? && !units[r.index].leaf
    && (r.index == 0 <==> node[r.index] == [])
    && (forall k :: 0 <= k < |terms| ==> (r.lo <= k < r.hi <==> node[r.index] <= terms[k]))
    && (forall k :: r.lo <= k < r.hi ==> keys[k].pos == |node[r.index]|)
  }

  /** From the top down the ranges follow each other, from key m to the last one. */
  ghost predicate Tiling(stack: seq<Range>, m: nat, n: nat) {
    if stack == [] then m == n
    else
      var r := stack[|stack| - 1];
      r.lo == m && r.lo < r.hi && Tiling(stack[..|stack| - 1], r.hi, n)
  }

  lemma {:induction false} TilingBeyond(stack: seq<Range>, m: nat, n: nat, i: nat)
    requires Tiling(stack, m, n) && i < |stack|
    ensures m <= stack[i].lo < stack[i].hi <= n && m <= n
    decreases |stack|
  {
    var r, rest := stack[|stack| - 1], stack[..|stack| - 1];
    if i < |rest| {
      TilingBeyond(rest, r.hi, n, i);
    } else if rest != [] {
      TilingBeyond(rest, r.hi, n, 0);
    }
  }

  /** A finished key: its leaf stands for it alone, and its suffix starts with the letter of the leaf. */
  ghost predicate LeafKey(terms: seq<Key>, keys: seq<Entry>, units: seq<Unit>, node: PT.Node, k: nat)
    requires k < |keys| && k < |terms|
  {
    var id := keys[k].index;
    && id in node && id < |units| && units[id].Branch? && units[id].leaf
    && node[id] != [] && node[id] <= terms[k]
    && (forall j :: 0 <= j < |terms| && node[id] <= terms[j] ==> j == k)
    && keys[k].pos == |node[id]| - 1
  }

  ghost predicate Accounted(keys: seq<Entry>, v: View, stack: seq<Range>, m: nat, id: nat) {
    || id in v.done
    || (exists i :: 0 <= i < |stack| && stack[i].index == id)
    || (exists k :: 0 <= k < m && k < |keys| && keys[k].index == id)
  }

  /** The first m keys have their leaves; the stack holds the others; every node is decided,
      on the stack, or the leaf of a finished key. */
  ghost predicate Progress(terms: seq<Key>, keys: seq<Entry>, units: seq<Unit>, v: View, node: PT.Node,
                           stack: seq<Range>, m: nat) {
    && KeysOK(terms, keys) && m <= |keys| && Tiling(stack, m, |keys|)
    && (forall i :: 0 <= i < |stack| ==> RangeOK(terms, keys, units, v, node, stack[i]))
    && (forall k :: 0 <= k < m ==> LeafKey(terms, keys, units, node, k))
    && (forall id :: id in node ==> Accounted(keys, v, stack, m, id))
  }

  // ---- a range of one key becomes a leaf ----

  function LeafEntry(e: Entry, index: nat): Entry
    requires e.pos > 0
  {
    e.(pos := e.pos - 1, index := index)
  }

  lemma LeafStep(terms: seq<Key>, keys: seq<Entry>, units: seq<Unit>, v: View, node: PT.Node, stack: seq<Range>, m: nat)
    requires Dictionary(terms) && Progress(terms, keys, units, v, node, stack, m) && stack != []
    requires var r := stack[|stack| - 1]; r.index != 0 && r.hi == r.lo + 1
    ensures var r := stack[|stack| - 1];
      && r.lo == m < |keys| && keys[m].pos > 0 && r.index in node && r.index !in v.done
      && r.index < |units| && units[r.index].Branch?
      && Progress(terms, keys[m := LeafEntry(keys[m], r.index)], units[r.index := units[r.index].(leaf := true)],
                  v, node, stack[..|stack| - 1], m + 1)
  {
    hide Dictionary, Tiling, RangeOK, LeafKey, Accounted;
    var r, rest := stack[|stack| - 1], stack[..|stack| - 1];
    TilingTop(stack, m, |keys|);
    assert RangeOK(terms, keys, units, v, node, r);
    RangeFacts(terms, keys, units, v, node, r);
    LeafHere(terms, keys, units, v, node, r);
    var keys', units' := keys[m := LeafEntry(keys[m], r.index)], units[r.index := units[r.index].(leaf := true)];
    forall i | 0 <= i < |rest| ensures RangeOK(terms, keys', units', v, node, rest[i]) {
      TilingBeyond(rest, m + 1, |keys|, i);
      assert rest[i] == stack[i];
      LeafElsewhere(terms, keys, units, v, node, r, rest[i]);
    }
    forall k | 0 <= k < m + 1 ensures LeafKey(terms, keys', units', node, k) {
      if k < m { LeafStays(terms, keys, units, node, m, r.index, k); }
    }
    forall id | id in node ensures Accounted(keys', v, rest, m + 1, id) {
      AccountedLeaf(keys, v, stack, m, id);
    }
  }

  lemma RangeFacts(terms: seq<Key>, keys: seq<Entry>, units: seq<Unit>, v: View, node: PT.Node, r: Range)
    requires RangeOK(terms, keys, units, v, node, r)
    ensures r.lo < r.hi <= |keys| && |keys| == |terms| && r.index in node && r.index !in v.done
    ensures r.index < |units| && units[r.index].Branch? && !units[r.index].leaf
    ensures r.index == 0 <==> node[r.index] == []
    ensures forall k :: r.lo <= k < r.hi ==> keys[k].pos == |node[r.index]|
    ensures forall k :: 0 <= k < |terms| ==> (r.lo <= k < r.hi <==> node[r.index] <= terms[k])
  {
  }

  lemma LeafHere(terms: seq<Key>, keys: seq<Entry>, units: seq<Unit>, v: View, node: PT.Node, r: Range)
    requires RangeOK(terms, keys, units, v, node, r) && r.index != 0 && r.hi == r.lo + 1
    ensures keys[r.lo].pos > 0
    ensures LeafKey(terms, keys[r.lo := LeafEntry(keys[r.lo], r.index)],
        units[r.index := units[r.index].(leaf := true)], node, r.lo)
  {
  }

  lemma LeafElsewhere(terms: seq<Key>, keys: seq<Entry>, units: seq<Unit>, v: View, node: PT.Node, r: Range, s: Range)
    requires RangeOK(terms, keys, units, v, node, r) && r.index != 0 && r.hi == r.lo + 1
    requires RangeOK(terms, keys, units, v, node, s) && s.lo >= r.hi
    ensures RangeOK(terms, keys[r.lo := LeafEntry(keys[r.lo], r.index)],
        units[r.index := units[r.index].(leaf := true)], v, node, s)
  {
    assert node[r.index] <= terms[r.lo];
    assert s.index != r.index;
  }

  lemma LeafStays(terms: seq<Key>, keys: seq<Entry>, units: seq<Unit>, node: PT.Node, m: nat, index: nat, k: nat)
    requires k < m < |keys| && |keys| == |terms| && keys[m].pos > 0
    requires index < |units| && units[index].Branch? && !units[index].leaf
    requires LeafKey(terms, keys, units, node, k)
    ensures LeafKey(terms, keys[m := LeafEntry(keys[m], index)], units[index := units[index].(leaf := true)], node, k)
  {
  }

  lemma AccountedLeaf(keys: seq<Entry>, v: View, stack: seq<Range>, m: nat, id: nat)
    requires Accounted(keys, v, stack, m, id) && stack != [] && m < |keys| && keys[m].pos > 0
    ensures var r := stack[|stack| - 1];
      Accounted(keys[m := LeafEntry(keys[m], r.index)], v, stack[..|stack| - 1], m + 1, id)
  {
    var r, rest := stack[|stack| - 1], stack[..|stack| - 1];
    var keys' := keys[m := LeafEntry(keys[m], r.index)];
    if exists i :: 0 <= i < |stack| && stack[i].index == id {
      var i :| 0 <= i < |stack| && stack[i].index == id;
      if i < |rest| { assert rest[i].index == id; } else { assert keys'[m].index == id; }
    } else if exists k :: 0 <= k < m && k < |keys| && keys[k].index == id {
      var k :| 0 <= k < m && k < |keys| && keys[k].index == id;
      assert keys'[k].index == id;
    }
  }

  lemma TilingTop(stack: seq<Range>, m: nat, n: nat)
    requires Tiling(stack, m, n) && stack != []
    ensures var r := stack[|stack| - 1];
      r.lo == m && r.lo < r.hi <= n && Tiling(stack[..|stack| - 1], r.hi, n)
  {
    TilingBeyond(stack, m, n, |stack| - 1);
  }

  // ---- a range is split by its next letters ----

  /** The groups cover the keys from lo up to m, the i-th one those whose next letter is the i-th label. */
  ghost predicate Groups(terms: seq<Key>, depth: nat, labels: seq<Byte>, groups: seq<Range>, lo: nat, m: nat) {
    && |groups| <= |labels| && lo <= m <= |terms|
    && (forall i :: 0 <= i < |groups| ==> lo <= groups[i].lo < groups[i].hi <= m)
    && (if groups == [] then m == lo else groups[0].lo == lo && groups[|groups| - 1].hi == m)
    && (forall i :: 0 <= i < |groups| - 1 ==> groups[i].hi == groups[i + 1].lo)
    && (forall i, k :: 0 <= i < |groups| && groups[i].lo <= k < groups[i].hi ==>
          depth < |terms[k]| && terms[k][depth] == labels[i])
  }

  ghost predicate Increasing(labels: seq<Byte>) {
    forall i, j :: 0 <= i < j < |labels| ==> labels[i] < labels[j]
  }

  // Every key covered lies in one of the groups.
  lemma {:induction false} GroupOf(terms: seq<Key>, depth: nat, labels: seq<Byte>, groups: seq<Range>, lo: nat,
      m: nat, k: nat) returns (i: nat)
    requires Groups(terms, depth, labels, groups, lo, m) && lo <= k < m
    ensures i < |groups| && groups[i].lo <= k < groups[i].hi
  {
    i := 0;
    while groups[i].hi <= k
      invariant 0 <= i < |groups| && groups[i].lo <= k
      decreases |groups| - i
    {
      i := i + 1;
    }
  }

  lemma GroupsMore(terms: seq<Key>, depth: nat, labels: seq<Byte>, groups: seq<Range>, lo: nat, m: nat, hi: nat)
    requires Groups(terms, depth, labels, groups, lo, m) && |labels| == |groups| + 1 && m < hi <= |terms|
    requires forall k :: m <= k < hi ==> depth < |terms[k]| && terms[k][depth] == labels[|groups|]
    ensures Groups(terms, depth, labels, groups + [Range(m, hi, 0)], lo, hi)
  {
    var g := groups + [Range(m, hi, 0)];
    assert forall i :: 0 <= i < |groups| ==> g[i] == groups[i];
    forall i, k | 0 <= i < |g| && g[i].lo <= k < g[i].hi
      ensures depth < |terms[k]| && terms[k][depth] == labels[i]
    {
      GroupLetter(terms, depth, labels, groups, lo, m, hi, i, k);
    }
  }

  lemma GroupLetter(terms: seq<Key>, depth: nat, labels: seq<Byte>, groups: seq<Range>, lo: nat, m: nat, hi: nat,
      i: nat, k: nat)
    requires Groups(terms, depth, labels, groups, lo, m) && |labels| == |groups| + 1 && m < hi <= |terms|
    requires forall k :: m <= k < hi ==> depth < |terms[k]| && terms[k][depth] == labels[|groups|]
    requires i <= |groups| && (if i < |groups| then groups[i].lo <= k < groups[i].hi else m <= k < hi)
    ensures depth < |terms[k]| && terms[k][depth] == labels[i]
  {
  }

  lemma GroupsLabel(terms: seq<Key>, depth: nat, labels: seq<Byte>, groups: seq<Range>, lo: nat, m: nat, more: Byte)
    requires Groups(terms, depth, labels, groups, lo, m)
    ensures Groups(terms, depth, labels + [more], groups, lo, m)
  {
  }

  /** The children on the stack, the first one on top. */
  function Kids(groups: seq<Range>, labels: seq<Byte>, w: nat, i: nat): (r: seq<Range>)
    requires i <= |groups| <= |labels|
    ensures |r| == |groups| - i
    decreases |groups| - i
  {
    if i == |groups| then []
    else Kids(groups, labels, w, i + 1) + [Range(groups[i].lo, groups[i].hi, Xor(w, labels[i]))]
  }

  lemma {:induction false} KidAt(groups: seq<Range>, labels: seq<Byte>, w: nat, i: nat, j: nat)
    requires i <= |groups| <= |labels| && j < |groups| - i
    ensures var l := |groups| - 1 - j;
      Kids(groups, labels, w, i)[j] == Range(groups[l].lo, groups[l].hi, Xor(w, labels[l]))
    decreases |groups| - i
  {
    if j < |groups| - i - 1 {
      KidAt(groups, labels, w, i + 1, j);
    }
  }

  lemma {:induction false} KidsTile(terms: seq<Key>, depth: nat, groups: seq<Range>, labels: seq<Byte>, w: nat, i: nat,
                                    rest: seq<Range>, lo: nat, m: nat, n: nat)
    requires Groups(terms, depth, labels, groups, lo, m) && i <= |groups| && Tiling(rest, m, n)
    ensures Tiling(rest + Kids(groups, labels, w, i), if i < |groups| then groups[i].lo else m, n)
    decreases |groups| - i
  {
    hide Xor;
    var s := rest + Kids(groups, labels, w, i);
    if i == |groups| {
      assert s == rest;
    } else {
      KidsTile(terms, depth, groups, labels, w, i + 1, rest, lo, m, n);
      assert s[..|s| - 1] == rest + Kids(groups, labels, w, i + 1);
      assert i + 1 < |groups| ==> groups[i].hi == groups[i + 1].lo;
    }
  }

  // Some key goes on with a letter exactly when the letter was listed.
  lemma ListedIff(terms: seq<Key>, p: Key, labels: seq<Byte>, groups: seq<Range>, lo: nat, hi: nat, c: Byte)
    requires Groups(terms, |p|, labels, groups, lo, hi) && |groups| == |labels|
    requires forall k :: 0 <= k < |terms| ==> (lo <= k < hi <==> p <= terms[k])
    ensures Below(terms, p + [c]) <==> c in labels
  {
    if Below(terms, p + [c]) {
      var k :| 0 <= k < |terms| && p + [c] <= terms[k];
      PrefixStep(p, c, terms[k]);
      var i := GroupOf(terms, |p|, labels, groups, lo, hi, k);
      assert terms[k][|p|] == labels[i];
    }
    if c in labels {
      var i :| 0 <= i < |labels| && labels[i] == c;
      var k := groups[i].lo;
      assert terms[k][|p|] == labels[i];
      PrefixStep(p, c, terms[k]);
    }
  }

  // The keys of a group are those below the child.
  lemma GroupKeys(terms: seq<Key>, p: Key, labels: seq<Byte>, groups: seq<Range>, lo: nat, hi: nat, i: nat, k: nat)
    requires Groups(terms, |p|, labels, groups, lo, hi) && |groups| == |labels| && Increasing(labels)
    requires forall k :: 0 <= k < |terms| ==> (lo <= k < hi <==> p <= terms[k])
    requires i < |groups| && k < |terms|
    ensures groups[i].lo <= k < groups[i].hi <==> p + [labels[i]] <= terms[k]
  {
    PrefixStep(p, labels[i], terms[k]);
    if p + [labels[i]] <= terms[k] {
      var j := GroupOf(terms, |p|, labels, groups, lo, hi, k);
      assert labels[j] == labels[i];
    }
  }

  // ---- what is left to do ----

  function Left(terms: seq<Key>, keys: seq<Entry>, m: nat): nat
    requires |keys| == |terms| && forall k :: 0 <= k < |keys| ==> keys[k].pos <= |terms[k]|
    decreases |keys| - m
  {
    if m >= |keys| then 0 else |terms[m]| + 1 - keys[m].pos + Left(terms, keys, m + 1)
  }

  lemma {:induction false} LeftSame(terms: seq<Key>, keys: seq<Entry>, keys': seq<Entry>, m: nat)
    requires |keys| == |terms| == |keys'|
    requires forall k :: 0 <= k < |keys| ==> keys[k].pos <= |terms[k]| && keys'[k].pos <= |terms[k]|
    requires forall k :: m <= k < |keys| ==> keys'[k].pos >= keys[k].pos
    ensures Left(terms, keys', m) <= Left(terms, keys, m)
    ensures m < |keys| && keys'[m].pos > keys[m].pos ==> Left(terms, keys', m) < Left(terms, keys, m)
    decreases |keys| - m
  {
    if m < |keys| {
      LeftSame(terms, keys, keys', m + 1);
    }
  }
}
