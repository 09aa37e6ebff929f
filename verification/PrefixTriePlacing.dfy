/** Placing the children of one node of the minimal prefix trie, and what that makes of the
    keys and the stack. */
module PrefixTriePlacing {
  import opened Bits
  import opened Languages
  import opened SuffixUnits
  import opened SuffixTail
  import opened BuilderInvariant
  import opened PT = PrefixTrie
  import opened PrefixTrieRanges

  /** Every hanging id hangs from a used offset, and offset 0 is one of them. */
  ghost predicate Quiet(v: View) {
    0 in v.used && forall id :: id in v.owner ==> v.owner[id] in v.used
  }

  // The child of label c is in place.
  ghost predicate Placed(units: seq<Unit>, node: PT.Node, node0: PT.Node, w: nat, p: Key, c: Byte) {
    var t := Xor(w, c);
    && t in node && t !in node0 && node[t] == p + [c]
    && t != 0 && t < |units| && units[t] == Blank.(letter := c)
  }

  ghost predicate Kept(v: View, v0: View, node: PT.Node, node0: PT.Node, w: nat) {
    && v == v0.(free := v.free, low := v.low, hole := v.hole, owner := v.owner)
    && (forall id :: id in v0.owner ==> id in v.owner && v.owner[id] == v0.owner[id])
    && (forall id :: id in v.owner ==> id in v0.owner || v.owner[id] == w)
    && (forall id :: id in node0 ==> id in node && node[id] == node0[id])
    && (forall id :: id in node ==> id in node0 || Hangs(v, w, id))
  }

  /** Below offset w of node d, with prefix p, exactly the children of labels cs are in place. */
  ghost predicate Placing(units: seq<Unit>, v: View, node: PT.Node, units0: seq<Unit>, v0: View, node0: PT.Node,
                          w: nat, p: Key, cs: set<Byte>) {
    && w !in v0.used && Quiet(v0) && Kept(v, v0, node, node0, w)
    && (forall id: nat :: id in v0.owner ==> id < |units0| && id < |units| && units[id] == units0[id])
    && (forall c: Byte :: Hangs(v, w, Xor(w, c)) <==> c in cs)
    && (forall c: Byte :: c in cs ==> Placed(units, node, node0, w, p, c))
  }

  lemma PlacingStart(units: seq<Unit>, v: View, node: PT.Node, w: nat, p: Key)
    requires w !in v.used && Quiet(v) && forall id :: id in v.owner ==> id < |units|
    ensures Placing(units, v, node, units, v, node, w, p, {})
  {
    hide Xor;
  }

  lemma PlacingCarries(units: seq<Unit>, units': seq<Unit>, v: View, v': View, node: PT.Node,
                       units0: seq<Unit>, v0: View, node0: PT.Node, w: nat, p: Key, cs: set<Byte>)
    requires Placing(units, v, node, units0, v0, node0, w, p, cs)
    requires v' == v.(free := v'.free, low := v'.low, hole := v'.hole) && |units| <= |units'|
    requires forall id :: id in node ==> id in v.owner
    requires forall id: nat :: id < |units| && id in v.owner ==> units'[id] == units[id]
    ensures Placing(units', v', node, units0, v0, node0, w, p, cs)
  {
    hide Xor, Quiet;
    forall c: Byte ensures Hangs(v', w, Xor(w, c)) <==> c in cs {
      assert Hangs(v, w, Xor(w, c)) <==> c in cs;
    }
    forall c: Byte | c in cs ensures Placed(units', node, node0, w, p, c) {
      assert Placed(units, node, node0, w, p, c);
    }
    assert Kept(v', v0, node, node0, w) by {
      forall id | id in node ensures id in node0 || Hangs(v', w, id) {
        assert id in node0 || Hangs(v, w, id);
      }
    }
  }

  // The child of label c gets its place.
  lemma PlacingChild(units: seq<Unit>, v: View, node: PT.Node, units0: seq<Unit>, v0: View, node0: PT.Node,
                     w: nat, p: Key, cs: set<Byte>, c: Byte)
    requires Placing(units, v, node, units0, v0, node0, w, p, cs)
    requires var t := Xor(w, c); t < |units| && t !in v.owner && t != 0
    requires forall id :: id in node ==> id in v.owner
    ensures var t := Xor(w, c);
      Placing(units[t := Blank.(letter := c)], PT.Hung(v, w, t), node[t := p + [c]], units0, v0, node0, w, p, cs + {c})
  {
    hide Xor, Quiet;
    var t := Xor(w, c);
    var units', v', node' := units[t := Blank.(letter := c)], PT.Hung(v, w, t), node[t := p + [c]];
    forall b: Byte ensures Hangs(v', w, Xor(w, b)) <==> b in cs + {c} {
      assert Hangs(v, w, Xor(w, b)) <==> b in cs;
      if b != c && Xor(w, b) == t { XorInjective(w, b, c); }
    }
    forall b: Byte | b in cs + {c} ensures Placed(units', node', node0, w, p, b) {
      if b != c {
        assert Placed(units, node, node0, w, p, b);
        if Xor(w, b) == t { XorInjective(w, b, c); }
      }
    }
    assert Kept(v', v0, node', node0, w) by {
      forall id | id in node' ensures id in node0 || Hangs(v', w, id) {
        if id != t { assert id in node0 || Hangs(v, w, id); }
      }
    }
  }

  ghost predicate LabelsAre(labels: seq<Byte>, cs: set<Byte>) {
    forall c: Byte :: c in cs <==> c in labels
  }

  // With all labels in place the node has exactly its children.
  lemma PlacingChildren(terms: seq<Key>, units: seq<Unit>, v: View, node: PT.Node, units0: seq<Unit>, v0: View,
      node0: PT.Node,
                        w: nat, p: Key, cs: set<Byte>, labels: seq<Byte>, groups: seq<Range>, lo: nat, hi: nat)
    requires Placing(units, v, node, units0, v0, node0, w, p, cs) && LabelsAre(labels, cs)
    requires Groups(terms, |p|, labels, groups, lo, hi) && |groups| == |labels|
    requires forall k :: 0 <= k < |terms| ==> (lo <= k < hi <==> p <= terms[k])
    ensures forall c: Byte :: Child(terms, v, node, w, p, c)
  {
    hide Xor, Below, Groups, Quiet, Kept;
    forall c: Byte ensures Child(terms, v, node, w, p, c) {
      ListedIff(terms, p, labels, groups, lo, hi, c);
      assert Hangs(v, w, Xor(w, c)) <==> c in cs;
      if c in cs { assert Placed(units, node, node0, w, p, c); }
    }
  }

  // ---- the keys and the stack after a split ----

  /** The keys of the range have moved on by one letter. */
  ghost predicate Moved(keys: seq<Entry>, keys': seq<Entry>, lo: nat, hi: nat) {
    && |keys'| == |keys|
    && forall k :: 0 <= k < |keys| ==> keys'[k] == if lo <= k < hi then keys[k].(pos := keys[k].pos + 1) else keys[k]
  }

  // What the split of the range r at node d leaves.
  ghost predicate SplitDone(terms: seq<Key>, keys: seq<Entry>, keys': seq<Entry>, units: seq<Unit>, units': seq<Unit>,
                            v: View, v': View, node: PT.Node, node': PT.Node, r: Range, w: nat) {
    && Moved(keys, keys', r.lo, r.hi)
    && v'.done == v.done + {r.index}
    && (forall id :: id in node ==> id in node' && node'[id] == node[id])
    && (forall id: nat :: id in node && id != r.index ==> id < |units| && id < |units'| && units'[id] == units[id])
  }

  lemma RangeStays(terms: seq<Key>, keys: seq<Entry>, keys': seq<Entry>, units: seq<Unit>, units': seq<Unit>,
                   v: View, v': View, node: PT.Node, node': PT.Node, r: Range, w: nat, s: Range)
    requires SplitDone(terms, keys, keys', units, units', v, v', node, node', r, w)
    requires RangeOK(terms, keys, units, v, node, r) && RangeOK(terms, keys, units, v, node, s) && s.lo >= r.hi
    ensures RangeOK(terms, keys', units', v', node', s)
  {
    assert node[r.index] <= terms[r.lo];
    assert s.index != r.index;
  }

  lemma LeafKeyStays(terms: seq<Key>, keys: seq<Entry>, keys': seq<Entry>, units: seq<Unit>, units': seq<Unit>,
                     v: View, v': View, node: PT.Node, node': PT.Node, r: Range, w: nat, k: nat)
    requires SplitDone(terms, keys, keys', units, units', v, v', node, node', r, w)
    requires RangeOK(terms, keys, units, v, node, r) && k < r.lo && LeafKey(terms, keys, units, node, k)
    ensures LeafKey(terms, keys', units', node', k)
  {
    assert keys[k].index != r.index;
  }

  lemma KidOK(terms: seq<Key>, keys: seq<Entry>, keys': seq<Entry>, units: seq<Unit>, units': seq<Unit>,
              v: View, v': View, node: PT.Node, node': PT.Node, r: Range, w: nat,
              labels: seq<Byte>, groups: seq<Range>, i: nat)
    requires SplitDone(terms, keys, keys', units, units', v, v', node, node', r, w)
    requires RangeOK(terms, keys, units, v, node, r) && v.done <= node.Keys
    requires Groups(terms, |node[r.index]|, labels, groups, r.lo, r.hi) && |groups| == |labels| && Increasing(labels)
    requires i < |labels| && Placed(units', node', node, w, node[r.index], labels[i])
    ensures RangeOK(terms, keys', units', v', node', Range(groups[i].lo, groups[i].hi, Xor(w, labels[i])))
  {
    hide Xor, Increasing;
    var s, p := Range(groups[i].lo, groups[i].hi, Xor(w, labels[i])), node[r.index];
    forall k | 0 <= k < |terms| ensures s.lo <= k < s.hi <==> node'[s.index] <= terms[k] {
      GroupKeys(terms, p, labels, groups, r.lo, r.hi, i, k);
    }
  }

  lemma SplitAccounts(keys: seq<Entry>, keys': seq<Entry>, v: View, v': View, stack: seq<Range>, stack': seq<Range>,
      m: nat, id: nat)
    requires Accounted(keys, v, stack, m, id) && stack != [] && m <= |keys| == |keys'|
    requires forall k :: 0 <= k < m ==> keys'[k] == keys[k]
    requires v'.done == v.done + {stack[|stack| - 1].index}
    requires |stack'| >= |stack| - 1 && stack'[..|stack| - 1] == stack[..|stack| - 1]
    ensures Accounted(keys', v', stack', m, id)
  {
    if exists i :: 0 <= i < |stack| && stack[i].index == id {
      var i :| 0 <= i < |stack| && stack[i].index == id;
      if i < |stack| - 1 {
        assert stack'[i] == stack'[..|stack| - 1][i] == stack[..|stack| - 1][i];
      }
    } else if exists k :: 0 <= k < m && k < |keys| && keys[k].index == id {
      var k :| 0 <= k < m && k < |keys| && keys[k].index == id;
      assert keys'[k].index == id;
    }
  }

  /** Splitting the top range by its next letters keeps everything in order. */
  lemma SplitStep(terms: seq<Key>, keys: seq<Entry>, keys': seq<Entry>, units: seq<Unit>, units': seq<Unit>,
                  v: View, v': View, node: PT.Node, node': PT.Node, stack: seq<Range>, m: nat, w: nat,
                  labels: seq<Byte>, groups: seq<Range>)
    requires Progress(terms, keys, units, v, node, stack, m) && stack != [] && KeysOK(terms, keys')
        && v.done <= node.Keys
    requires SplitDone(terms, keys, keys', units, units', v, v', node, node', stack[|stack| - 1], w)
    requires var r := stack[|stack| - 1];
      && r.index in node
      && Groups(terms, |node[r.index]|, labels, groups, r.lo, r.hi) && |groups| == |labels| && Increasing(labels)
      && (forall c: Byte :: c in labels ==> Placed(units', node', node, w, node[r.index], c))
    requires forall id :: id in node' ==> id in node || exists i :: 0 <= i < |labels| && id == Xor(w, labels[i])
    ensures Progress(terms, keys', units', v', node', stack[..|stack| - 1] + Kids(groups, labels, w, 0), m)
  {
    hide Xor, RangeOK, LeafKey, Accounted, Groups, Increasing, Placed, SplitDone, Tiling;
    var r, rest := stack[|stack| - 1], stack[..|stack| - 1];
    var stack' := rest + Kids(groups, labels, w, 0);
    TilingTop(stack, m, |keys|);
    assert RangeOK(terms, keys, units, v, node, r);
    SplitKeys(terms, keys, keys', units, units', v, v', node, node', r, w);
    KidsTile(terms, |node[r.index]|, groups, labels, w, 0, rest, r.lo, r.hi, |keys|);
    GroupsStart(terms, |node[r.index]|, labels, groups, r.lo, r.hi);
    forall i | 0 <= i < |stack'| ensures RangeOK(terms, keys', units', v', node', stack'[i]) {
      if i < |rest| {
        TilingBeyond(rest, r.hi, |keys|, i);
        assert stack'[i] == stack[i];
        RangeStays(terms, keys, keys', units, units', v, v', node, node', r, w, stack[i]);
      } else {
        KidAt(groups, labels, w, 0, i - |rest|);
        var l := |groups| - 1 - (i - |rest|);
        assert labels[l] in labels;
        KidOK(terms, keys, keys', units, units', v, v', node, node', r, w, labels, groups, l);
      }
    }
    forall k | 0 <= k < m ensures LeafKey(terms, keys', units', node', k) {
      LeafKeyStays(terms, keys, keys', units, units', v, v', node, node', r, w, k);
    }
    forall id | id in node' ensures Accounted(keys', v', stack', m, id) {
      if id in node {
        assert stack'[..|stack| - 1] == rest;
        SplitAccounts(keys, keys', v, v', stack, stack', m, id);
      } else {
        var i :| 0 <= i < |labels| && id == Xor(w, labels[i]);
        var j := |groups| - 1 - i;
        KidAt(groups, labels, w, 0, j);
        StackedAccounts(keys', v', stack', m, id, |rest| + j);
      }
    }
  }

  lemma SplitKeys(terms: seq<Key>, keys: seq<Entry>, keys': seq<Entry>, units: seq<Unit>, units': seq<Unit>,
                  v: View, v': View, node: PT.Node, node': PT.Node, r: Range, w: nat)
    requires SplitDone(terms, keys, keys', units, units', v, v', node, node', r, w)
    ensures |keys'| == |keys| && (forall k :: 0 <= k < r.lo && k < |keys| ==> keys'[k] == keys[k])
    ensures v'.done == v.done + {r.index}
  {
  }

  lemma GroupsStart(terms: seq<Key>, depth: nat, labels: seq<Byte>, groups: seq<Range>, lo: nat, hi: nat)
    requires Groups(terms, depth, labels, groups, lo, hi) && lo < hi
    ensures |groups| > 0 && groups[0].lo == lo
  {
  }

  lemma StackedAccounts(keys: seq<Entry>, v: View, stack: seq<Range>, m: nat, id: nat, i: nat)
    requires i < |stack| && stack[i].index == id
    ensures Accounted(keys, v, stack, m, id)
  {
  }
}
