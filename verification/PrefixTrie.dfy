/** The invariant of the builder of the minimal prefix trie (`DoubleArrayBuilder` in
    src/include/darts-clone.h).  A node stands for a prefix of the terminated keys; the
    window, the used offsets and the ids that hang from them are kept as in
    BuilderInvariant, whose dictionary fields stay empty here. */
module PrefixTrie {
  import opened Bits
  import opened Languages
  import opened FreeList
  import opened SuffixUnits
  import opened SuffixTail
  import opened BI = BuilderInvariant
  import opened BS = BuilderSteps

  type Node = map<nat, Key>

  function Base(units: seq<Unit>, id: nat): nat
    requires id < |units| && units[id].Branch?
  {
    Xor(id, units[id].offset)
  }

  ghost predicate Below(terms: seq<Key>, p: Key) {
    exists k :: 0 <= k < |terms| && p <= terms[k]
  }

  function Last(p: Key): Byte
    requires p != []
  {
    p[|p| - 1]
  }

  // ---- the roles of the ids ----

  // An id carries its letter relative to the offset it hangs from; the letter of a
  // node is the last one of its prefix.
  ghost predicate Role(units: seq<Unit>, v: View, node: Node, id: nat)
    requires id in v.owner
  {
    && id < |units| && units[id].Branch?
    && id / 256 == v.owner[id] / 256 && (id == 0 ==> v.owner[id] == 0)
    && units[id].letter == Xor(v.owner[id], id)
    && (id in node && id != 0 ==> node[id] != [] && Last(node[id]) == units[id].letter)
    && (units[id].leaf ==> id in node && id != 0 && id !in v.done)
  }

  ghost predicate Roles(units: seq<Unit>, v: View, node: Node) {
    && (forall id :: id in v.owner ==> Role(units, v, node, id))
    && (forall id :: id in node ==> id in v.owner)
  }

  ghost predicate Parts(units: seq<Unit>, v: View) {
    && (forall id: nat :: v.low <= id < |units| ==> (id !in v.free <==> id in v.owner || id in v.hole))
    && (forall id :: id in v.hole ==> v.low <= id < |units| && id !in v.owner)
    && (forall id: nat :: v.low <= id < |units| && id !in v.owner ==> units[id] == Blank)
  }

  ghost predicate Filler(u: Unit, used: set<nat>, id: nat) {
    && u.Branch? && !u.leaf
    && forall w :: w in used && w / 256 == id / 256 ==> u.letter != Xor(w, id)
  }

  ghost predicate Fillers(units: seq<Unit>, v: View) {
    forall id: nat :: id < v.low && id < |units| && id !in v.owner ==> Filler(units[id], v.used, id)
  }

  // ---- the decided nodes ----

  ghost predicate Child(terms: seq<Key>, v: View, node: Node, w: nat, p: Key, c: Byte) {
    && (Hangs(v, w, Xor(w, c)) <==> Below(terms, p + [c]))
    && (Below(terms, p + [c]) ==> Xor(w, c) in node && node[Xor(w, c)] == p + [c])
  }

  ghost predicate Decided(terms: seq<Key>, units: seq<Unit>, v: View, node: Node, d: nat) {
    && d in node && d < |units| && units[d].Branch? && !units[d].leaf
    && NulFree(node[d])
    && var w := Base(units, d);
       && w in v.used && w != 0
       && forall c: Byte :: Child(terms, v, node, w, node[d], c)
  }

  ghost predicate AllDecided(terms: seq<Key>, units: seq<Unit>, v: View, node: Node) {
    forall d :: d in v.done ==> Decided(terms, units, v, node, d)
  }

  ghost predicate TrieOK(terms: seq<Key>, units: seq<Unit>, v: View, node: Node) {
    && Roles(units, v, node) && Parts(units, v) && Fillers(units, v)
    && RepsOK(v) && AllDecided(terms, units, v, node)
  }

  // ---- steps that leave the owned units alone ----

  ghost predicate SameOwned(units: seq<Unit>, units': seq<Unit>, v: View) {
    && |units| <= |units'|
    && forall id: nat :: id < |units| && id in v.owner ==> units'[id] == units[id]
  }

  lemma Carry(terms: seq<Key>, units: seq<Unit>, units': seq<Unit>, v: View, v': View, node: Node)
    requires Roles(units, v, node) && RepsOK(v) && AllDecided(terms, units, v, node)
    requires v' == v.(free := v'.free, low := v'.low, hole := v'.hole) && SameOwned(units, units', v)
    ensures Roles(units', v', node) && RepsOK(v') && AllDecided(terms, units', v', node)
  {
    hide Xor, Below;
    forall id | id in v'.owner ensures Role(units', v', node, id) {
      assert Role(units, v, node, id);
    }
    forall w | w in v'.used ensures w in v'.rep && Hangs(v', w, v'.rep[w]) {
      assert Hangs(v, w, v.rep[w]);
    }
    forall d | d in v'.done ensures Decided(terms, units', v', node, d) {
      CarryDecided(terms, units, units', v, v', node, d);
    }
  }

  lemma CarryDecided(terms: seq<Key>, units: seq<Unit>, units': seq<Unit>, v: View, v': View, node: Node, d: nat)
    requires Roles(units, v, node) && Decided(terms, units, v, node, d)
    requires v' == v.(free := v'.free, low := v'.low, hole := v'.hole) && SameOwned(units, units', v)
    ensures Decided(terms, units', v', node, d)
  {
    hide Xor, Below, Role, NulFree;
    assert units'[d] == units[d];
    var w := Base(units, d);
    forall c: Byte ensures Child(terms, v', node, w, node[d], c) {
      assert Child(terms, v, node, w, node[d], c);
    }
  }

  lemma DetachTrie(terms: seq<Key>, units: seq<Unit>, v: View, node: Node, k: nat)
    requires TrieOK(terms, units, v, node) && k < |v.free| && Ascending(v.free) && Within(v.free, v.low, |units|)
    ensures TrieOK(terms, units, Detached(v, k), node)
  {
    hide Roles, Filler, RepsOK, AllDecided, Remove, Ascending;
    var v' := Detached(v, k);
    Carry(terms, units, units, v, v', node);
    assert Parts(units, v') by {
      forall id: nat | v.low <= id < |units|
        ensures id !in v'.free <==> id in v'.owner || id in v'.hole
      {
        RemoveMembers(v.free, k, id);
      }
    }
  }

  /** The lowest ids leave the window when none of them is free. */
  lemma RaiseTrie(terms: seq<Key>, units: seq<Unit>, v: View, node: Node, m: nat)
    requires TrieOK(terms, units, v, node) && v.hole == {} && v.low <= m <= |units|
    requires forall id :: v.low <= id < m ==> id !in v.free
    ensures TrieOK(terms, units, v.(low := m), node)
  {
    hide Roles, Filler, RepsOK, AllDecided;
    Carry(terms, units, units, v, v.(low := m), node);
  }

  lemma FillTrie(terms: seq<Key>, units: seq<Unit>, v: View, node: Node, z: nat)
    requires TrieOK(terms, units, v, node) && v.low in v.hole
    requires z / 256 == v.low / 256 && z !in v.used
    ensures v.low < |units| && Xor(v.low, z) < 256
    ensures TrieOK(terms, units[v.low := Blank.(letter := Xor(v.low, z))], v.(low := v.low + 1,
        hole := v.hole - {v.low}), node)
    ensures units[v.low] == Blank && v.low !in v.owner
  {
    hide Roles, RepsOK, AllDecided, Xor;
    var id := v.low;
    XorSameBlock(id, z);
    var units', v' := units[id := Blank.(letter := Xor(id, z))], v.(low := id + 1, hole := v.hole - {id});
    Carry(terms, units, units', v, v', node);
    assert Filler(units'[id], v.used, id) by {
      forall w | w in v.used && w / 256 == id / 256 ensures units'[id].letter != Xor(w, id) {
        XorComm(w, id);
        if Xor(id, z) == Xor(id, w) { XorInjective(id, z, w); }
      }
    }
  }

  function Blanks(): (r: seq<Unit>)
    ensures |r| == 256 && forall i :: 0 <= i < 256 ==> r[i] == Blank
  {
    seq(256, _ => Blank)
  }

  lemma GrowTrie(terms: seq<Key>, units: seq<Unit>, v: View, node: Node)
    requires TrieOK(terms, units, v, node) && v.low <= |units| && Within(v.free, v.low, |units|)
    ensures TrieOK(terms, units + Blanks(), v.(free := v.free + Fresh(|units|)), node)
  {
    hide Role, Filler, RepsOK, AllDecided;
    var n := |units|;
    var units', v' := units + Blanks(), v.(free := v.free + Fresh(n));
    Carry(terms, units, units', v, v', node);
    forall id: nat | v'.low <= id < |units'|
      ensures id !in v'.free <==> id in v'.owner || id in v'.hole
    {
      if id >= n {
        assert v'.free[|v.free| + (id - n)] == id;
        if id in v.owner { OwnedBelow(units, v, node, id); }
      } else {
        assert id in v'.free <==> id in v.free;
      }
    }
    forall id: nat | v'.low <= id < |units'| && id !in v'.owner ensures units'[id] == Blank {
    }
  }

  lemma OwnedBelow(units: seq<Unit>, v: View, node: Node, id: nat)
    requires Roles(units, v, node) && id in v.owner
    ensures id < |units|
  {
    assert Role(units, v, node, id);
  }

  // ---- new nodes ----

  ghost function Hung(v: View, w: nat, id: nat): View {
    v.(owner := v.owner[id := w], hole := v.hole - {id})
  }

  // The reserved id starts to hang from w, which no decided node uses.
  lemma HangTrie(terms: seq<Key>, units: seq<Unit>, v: View, node: Node, w: nat, id: nat, node': Node)
    requires TrieOK(terms, units, v, node) && id in v.hole
    requires w !in v.used && id / 256 == w / 256 && (id == 0 ==> w == 0)
    requires node' == node || (id in node' && node' == node[id := node'[id]]
                               && (id != 0 ==> node'[id] != [] && Last(node'[id]) == Xor(w, id)))
    ensures id < |units| && Xor(w, id) < 256 && units[id] == Blank && id !in v.owner
    ensures TrieOK(terms, units[id := Blank.(letter := Xor(w, id))], Hung(v, w, id), node')
  {
    hide Xor, Below, Decided, Filler, Roles;
    XorSameBlock(w, id);
    var units', v' := units[id := Blank.(letter := Xor(w, id))], Hung(v, w, id);
    HangRoles(units, v, node, w, id, node');
    forall u | u in v'.used ensures u in v'.rep && Hangs(v', u, v'.rep[u]) {
      assert Hangs(v, u, v.rep[u]);
    }
    forall d | d in v'.done ensures Decided(terms, units', v', node', d) {
      assert Decided(terms, units, v, node, d);
      HangDecided(terms, units, units', v, node, w, id, node', d);
    }
    forall x: nat | x < v'.low && x < |units'| && x !in v'.owner ensures Filler(units'[x], v'.used, x) {
      assert Filler(units[x], v.used, x);
    }
  }

  lemma HangRoles(units: seq<Unit>, v: View, node: Node, w: nat, id: nat, node': Node)
    requires Roles(units, v, node) && id < |units| && id !in v.owner && Xor(w, id) < 256
    requires id / 256 == w / 256 && (id == 0 ==> w == 0)
    requires node' == node || (id in node' && node' == node[id := node'[id]]
                               && (id != 0 ==> node'[id] != [] && Last(node'[id]) == Xor(w, id)))
    ensures Roles(units[id := Blank.(letter := Xor(w, id))], Hung(v, w, id), node')
  {
    hide Xor;
    var units', v' := units[id := Blank.(letter := Xor(w, id))], Hung(v, w, id);
    forall x | x in v'.owner ensures Role(units', v', node', x) {
      if x != id { assert Role(units, v, node, x); }
    }
  }

  lemma HangDecided(terms: seq<Key>, units: seq<Unit>, units': seq<Unit>, v: View, node: Node, w: nat, id: nat,
      node': Node, d: nat)
    requires Decided(terms, units, v, node, d) && Roles(units, v, node)
    requires id !in v.owner && w !in v.used
    requires node' == node || (id in node' && node' == node[id := node'[id]])
    requires |units'| == |units| && forall x :: 0 <= x < |units| && x != id ==> units'[x] == units[x]
    ensures Decided(terms, units', Hung(v, w, id), node', d)
  {
    hide Xor, Below, Role, NulFree;
    var b, v' := Base(units, d), Hung(v, w, id);
    assert d in v.owner && d != id;
    assert units'[d] == units[d];
    forall c: Byte ensures Child(terms, v', node', b, node[d], c) {
      assert Child(terms, v, node, b, node[d], c);
      var t := Xor(b, c);
      assert t != id ==> (Hangs(v', b, t) <==> Hangs(v, b, t));
      assert t == id ==> !Hangs(v', b, t) && !Hangs(v, b, t);
    }
  }

  // ---- the word of an undecided node ----

  lemma TouchTrie(terms: seq<Key>, units: seq<Unit>, v: View, node: Node, d: nat, u: Unit)
    requires TrieOK(terms, units, v, node) && (d in node || d in v.owner) && d !in v.done
    ensures d < |units| && units[d].Branch?
    ensures u.Branch? && u.letter == units[d].letter && (u.leaf ==> d in node && d != 0) ==>
        TrieOK(terms, units[d := u], v, node)
  {
    hide Xor, Below, Filler, Base;
    assert Role(units, v, node, d);
    if u.Branch? && u.letter == units[d].letter && (u.leaf ==> d in node && d != 0) {
      var units' := units[d := u];
      forall x | x in v.owner ensures Role(units', v, node, x) {
        assert Role(units, v, node, x);
      }
      forall x | x in v.done ensures Decided(terms, units', v, node, x) {
        assert Decided(terms, units, v, node, x);
        TouchDecided(terms, units, units', v, node, x);
      }
      forall x: nat | x < v.low && x < |units'| && x !in v.owner ensures Filler(units'[x], v.used, x) {
        assert Filler(units[x], v.used, x);
      }
    }
  }

  lemma TouchDecided(terms: seq<Key>, units: seq<Unit>, units': seq<Unit>, v: View, node: Node, x: nat)
    requires Decided(terms, units, v, node, x) && |units'| == |units| && x < |units| && units'[x] == units[x]
    ensures Decided(terms, units', v, node, x)
  {
    hide Xor, Below, NulFree, Child;
  }

  // ---- deciding a node ----

  ghost function Committed(v: View, d: nat, w: nat, id: nat): View {
    v.(used := v.used + {w}, rep := v.rep[w := id], done := v.done + {d})
  }

  lemma CommitTrie(terms: seq<Key>, units: seq<Unit>, v: View, node: Node, d: nat, w: nat, id: nat)
    requires TrieOK(terms, units, v, node) && d in node && d < |units| && units[d].Branch? && !units[d].leaf
    requires NulFree(node[d]) && Base(units, d) == w && w != 0
    requires w !in v.used && v.low % 256 == 0 && v.low <= w && Hangs(v, w, id)
    requires forall c: Byte :: Child(terms, v, node, w, node[d], c)
    ensures TrieOK(terms, units, Committed(v, d, w, id), node)
  {
    hide Xor, Below, NulFree, Filler;
    var v' := Committed(v, d, w, id);
    forall x | x in v'.owner ensures Role(units, v', node, x) {
      assert Role(units, v, node, x);
    }
    forall u | u in v'.used ensures u in v'.rep && Hangs(v', u, v'.rep[u]) {
      if u != w { assert Hangs(v, u, v.rep[u]); }
    }
    forall x: nat | x < v'.low && x < |units| && x !in v'.owner ensures Filler(units[x], v'.used, x) {
      FillerMore(units[x], v.used, x, w);
    }
    forall x | x in v'.done ensures Decided(terms, units, v', node, x) {
      if x != d { assert Decided(terms, units, v, node, x); }
      CommitDecided(terms, units, v, v', node, x);
    }
  }

  lemma FillerMore(u: Unit, used: set<nat>, id: nat, w: nat)
    requires Filler(u, used, id) && w / 256 != id / 256
    ensures Filler(u, used + {w}, id)
  {
    hide Xor;
  }

  lemma CommitDecided(terms: seq<Key>, units: seq<Unit>, v: View, v': View, node: Node, x: nat)
    requires v'.owner == v.owner && v.used <= v'.used
    requires x in node && x < |units| && units[x].Branch? && !units[x].leaf && NulFree(node[x])
    requires Base(units, x) in v'.used && Base(units, x) != 0
    requires forall c: Byte :: Child(terms, v, node, Base(units, x), node[x], c)
    ensures Decided(terms, units, v', node, x)
  {
    hide Xor, Below, NulFree;
    var w := Base(units, x);
    forall c: Byte ensures Child(terms, v', node, w, node[x], c) {
      assert Child(terms, v, node, w, node[x], c);
    }
  }

  // ---- the pigeonhole ----

  lemma RepNear(units: seq<Unit>, v: View, node: Node, w: nat, begin: nat)
    requires Roles(units, v, node) && RepsOK(v) && w in v.used
    requires begin % 256 == 0 && begin <= w < begin + 256
    ensures w in v.rep && v.rep[w] in v.owner && v.owner[v.rep[w]] == w
    ensures begin <= v.rep[w] < begin + 256
  {
    hide Xor;
    assert Hangs(v, w, v.rep[w]);
    assert Role(units, v, node, v.rep[w]);
  }

  /** A block with a free id has an offset that is not used. */
  lemma UnusedLeft(terms: seq<Key>, units: seq<Unit>, v: View, node: Node, begin: nat, id: nat)
    requires TrieOK(terms, units, v, node) && begin % 256 == 0 && begin <= id < begin + 256
    requires id in v.free && v.low <= id < |units|
    ensures !(Ids(begin, begin + 256) <= v.used)
  {
    hide Xor, Ids, Roles, RepsOK, Fillers, AllDecided;
    if Ids(begin, begin + 256) <= v.used {
      var S := Ids(begin, begin + 256);
      forall w | w in S
        ensures w in v.rep && v.rep[w] in v.owner && v.owner[v.rep[w]] == w && v.rep[w] in S
      {
        RepNear(units, v, node, w, begin);
      }
      var x := InjectiveOnto(S, v.rep, id);
      assert false;
    }
  }

  // ---- the finished trie ----

  /** The unit a step leads to, as a search sees it: the child on this very path when some key
      goes on this way, and otherwise a unit whose letter gives it away. */
  lemma StepTrie(terms: seq<Key>, units: seq<Unit>, v: View, node: Node, d: nat, c: Byte)
    requires TrieOK(terms, units, v, node) && d in v.done && v.low == |units| && |units| % 256 == 0
    requires forall w :: w in v.used ==> w < |units|
    ensures d < |units| && units[d].Branch?
    ensures var t := Xor(Base(units, d), c);
      && t < |units| && units[t].Branch? && d in node
      && (Below(terms, node[d] + [c]) ==> t in node && t != 0 && node[t] == node[d] + [c] && units[t].letter == c)
      && (!Below(terms, node[d] + [c]) ==> units[t].letter != c)
      && (units[t].leaf ==> t in node && t != 0 && node[t] != [] && Last(node[t]) == units[t].letter)
  {
    hide Xor, Below, NulFree, Last;
    assert Decided(terms, units, v, node, d);
    var w := Base(units, d);
    var t := Xor(w, c);
    assert Child(terms, v, node, w, node[d], c);
    XorBlock(w, c);
    XorCancel(w, c);
    assert t / 256 == w / 256;
    XorZero(w);
    if t in v.owner {
      assert Role(units, v, node, t);
      XorComm(v.owner[t], t);
      XorComm(w, t);
      if v.owner[t] != w && Xor(v.owner[t], t) == Xor(w, t) {
        XorInjective(t, v.owner[t], w);
      }
    } else {
      assert Filler(units[t], v.used, t);
    }
  }
}
