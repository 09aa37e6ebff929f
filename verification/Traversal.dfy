/** The resumable search and the enumeration below a node (`traverse`, `visit`). */
module Traversal {
  import opened Bits
  import opened Units
  import opened Languages
  import opened DoubleArray

  // ---- traverse ----

  // The node where a traversal from id along q ends, and the number of steps taken.
  function Reach(a: seq<Word>, id: nat, q: Key): (nat, nat)
    decreases |q|
  {
    if q == [] || id >= |a| then (id, 0)
    else
      var t := Xor(id, Xor(OffsetOf(a[id]), q[0]));
      if t < |a| && LabelOf(a[t]) == q[0] then
        var (node, steps) := Reach(a, t, q[1..]);
        (node, steps + 1)
      else (id, 0)
  }

  // The value traverse returns: -2 when it got stuck, -1 at a node that is no key.
  function Verdict(a: seq<Word>, id: nat, q: Key): int {
    var (node, steps) := Reach(a, id, q);
    if steps < |q| then -2
    else if node < |a| && HasLeaf(a[node]) && Base(a, node) < |a| then ValueOf(a[Base(a, node)])
    else -1
  }

  lemma {:induction false} ReachBounds(a: seq<Word>, id: nat, q: Key)
    ensures Reach(a, id, q).1 <= |q|
    decreases |q|
  {
    hide Xor, OffsetOf, LabelOf;
    if q != [] && id < |a| {
      var t := Xor(id, Xor(OffsetOf(a[id]), q[0]));
      if t < |a| && LabelOf(a[t]) == q[0] { ReachBounds(a, t, q[1..]); }
    }
  }

  /** Traversal composes: running on p and then resuming on q ends at the same
      node, with the same result, as running on p + q. */
  lemma {:induction false} TraverseComposes(a: seq<Word>, id: nat, p: Key, q: Key)
    ensures var (mid, steps) := Reach(a, id, p);
            if steps == |p| then
              && Reach(a, id, p + q) == (Reach(a, mid, q).0, |p| + Reach(a, mid, q).1)
              && Verdict(a, id, p + q) == Verdict(a, mid, q)
            else
              && Reach(a, id, p + q) == (mid, steps)
              && Verdict(a, id, p + q) == -2 == Verdict(a, id, p)
    decreases |p|
  {
    hide Xor, OffsetOf, LabelOf, HasLeaf, ValueOf;
    ReachBounds(a, id, p);
    if p == [] {
      assert p + q == q;
    } else if id < |a| {
      var t := Xor(id, Xor(OffsetOf(a[id]), p[0]));
      assert (p + q)[1..] == p[1..] + q;
      if t < |a| && LabelOf(a[t]) == p[0] {
        TraverseComposes(a, t, p[1..], q);
      }
    }
  }

  // The step taken by the loop extends the reach by one.
  lemma {:induction false} ReachStep(a: seq<Word>, id: nat, q: Key, i: nat, pos: nat)
    requires i < |q| && pos < |a| && Reach(a, id, q[..i]) == (pos, i)
    requires Xor(pos, Xor(OffsetOf(a[pos]), q[i])) < |a|
    ensures var t := Xor(pos, Xor(OffsetOf(a[pos]), q[i]));
            if LabelOf(a[t]) == q[i] then Reach(a, id, q[..i + 1]) == (t, i + 1)
            else Reach(a, id, q) == (pos, i)
  {
    hide Xor, OffsetOf, LabelOf, HasLeaf, ValueOf;
    TraverseComposes(a, id, q[..i], q[i..]);
    assert q[..i] + q[i..] == q;
    TraverseComposes(a, id, q[..i], [q[i]]);
    assert q[..i] + [q[i]] == q[..i + 1];
    assert q[i..][0] == q[i];
  }

  // What is left of the query from position keyPos on.
  function RestOf(key: seq<Byte>, length: nat, keyPos: nat): seq<Byte>
    requires if length != 0 then length <= |key| else keyPos <= |key| && 0 in key[keyPos..]
  {
    if length == 0 then UpToNul(key[keyPos..])
    else if keyPos < length then key[keyPos..length] else []
  }

  /** traverse follows the bytes from keyPos on and stops at the first missing transition; the two
      positions are left at the last node reached. Every access is inside the array. */
  method Traverse(a: seq<Word>, key: seq<Byte>, nodePos: nat, keyPos: nat, length: nat, ghost lang: map<nat, Lang>)
    returns (value: int, nodePos': nat, keyPos': nat)
    requires Serves(a, lang, nodePos)
    requires if length != 0 then length <= |key| else keyPos <= |key| && 0 in key[keyPos..]
    ensures var q := RestOf(key, length, keyPos);
      (nodePos', keyPos' - keyPos) == Reach(a, nodePos, q) && value == Verdict(a, nodePos, q)
  {
    hide After, Xor, OffsetOf, LabelOf, HasLeaf, ValueOf, Represents, Barren, Walk, Serves;
    nodePos', keyPos' := nodePos, keyPos;
    ghost var q, i := RestOf(key, length, keyPos), 0;
    assert nodePos in lang by { ServesNode(a, lang, nodePos); }
    ghost var L := lang[nodePos];
    WalkStart(a, lang, q, nodePos);
    var id := nodePos;
    assert q[..0] == [];
    while (length != 0 && keyPos' < length) || (length == 0 && key[keyPos'] != 0)
      invariant keyPos' == keyPos + i && id == nodePos' && i <= |q|
      invariant Walk(a, lang, L, q, i, id)
      invariant Reach(a, nodePos, q[..i]) == (id, i)
      decreases |q| - i
    {
      assert i < |q| && q[i] == key[keyPos'];
      WalkInside(a, lang, L, q, i, id);
      WalkStep(a, lang, L, q, i, id);
      ReachStep(a, nodePos, q, i, id);
      id := Xor(id, Xor(OffsetOf(a[id]), key[keyPos']));
      if LabelOf(a[id]) != key[keyPos'] {
        return -2, nodePos', keyPos';
      }
      nodePos' := id;
      keyPos' := keyPos' + 1;
      i := i + 1;
    }
    assert q[..i] == q;
    WalkInside(a, lang, L, q, i, id);
    WalkEnd(a, lang, L, q, i, id);
    if !HasLeaf(a[id]) {
      return -1, nodePos', keyPos';
    }
    value := ValueOf(a[Xor(id, OffsetOf(a[id]))]);
  }

  lemma ServesNode(a: seq<Word>, lang: map<nat, Lang>, id: nat)
    requires Serves(a, lang, id)
    ensures id in lang
  {
  }

  lemma WalkInside(a: seq<Word>, lang: map<nat, Lang>, L: Lang, q: Key, i: nat, pos: nat)
    requires Walk(a, lang, L, q, i, pos)
    ensures pos < |a| && i <= |q|
  {
  }

  /** From a node with keys below it the walk of a traversal tells the dictionary: -2 exactly when no
      stored key extends what was read, -1 exactly when some does but the string itself is no key,
      else the value; the node reached is that of what was read. */
  lemma {:induction false} TraverseMeans(a: seq<Word>, lang: map<nat, Lang>, pos: nat, q: Key)
    requires Represents(a, lang) && pos in lang && lang[pos] != map[]
    ensures var L, (node, steps), value := lang[pos], Reach(a, pos, q), Verdict(a, pos, q);
      && node in lang && steps <= |q| && lang[node] == After(L, q[..steps]) != map[]
      && (steps < |q| ==> After(L, q[..steps + 1]) == map[])
      && (value == -2 <==> After(L, q) == map[])
      && (value != -2 ==> value == Lookup(L, q))
  {
    hide After, Xor, OffsetOf, LabelOf, HasLeaf, ValueOf, Represents;
    var L, id, i := lang[pos], pos, 0;
    AtStart(a, lang, q, pos);
    AfterEmpty(L);
    assert q[..0] == [];
    while i < |q|
      invariant i <= |q| && At(a, lang, L, q, i, id)
      invariant Reach(a, pos, q[..i]) == (id, i)
      invariant After(L, q[..i]) != map[]
    {
      Transition(a, lang, L, q, i, id);
      ReachStep(a, pos, q, i, id);
      var next := Xor(id, Xor(OffsetOf(a[id]), q[i]));
      if LabelOf(a[next]) != q[i] {
        DeadPrefix(L, q[..i + 1], q[i + 1..]);
        assert q[..i + 1] + q[i + 1..] == q;
        return;
      }
      id, i := next, i + 1;
    }
    assert q[..i] == q;
    Arrival(a, lang, L, q, i, id);
  }

  /** On the array of no keys a traversal should answer -2; it answers -1 exactly on zero bytes
      followed by at most one byte that is not 1. The root and node 1, where a zero byte leads, are
      alike. */
  lemma {:induction false} EmptyTraverse(pos: nat, q: Key)
    requires pos <= 1
    ensures Verdict(EmptyArray(), pos, q)
         == if q == [] || (q[|q| - 1] != 1 && forall i :: 0 <= i < |q| - 1 ==> q[i] == 0) then -1 else -2
    decreases |q|
  {
    hide Xor, LabelOf, OffsetOf, HasLeaf;
    var a := EmptyArray();
    EmptyWords();
    EmptyBarren();
    if q != [] {
      var c, rest := q[0], q[1..];
      var t := Xor(1, c);
      EmptyStep(pos, c);
      if c == 0 {
        EmptyTraverse(1, rest);
        EmptyZero(pos, q);
      } else if c != 1 {
        if |q| > 1 {
          EmptyStuck(t, q[1]);
        }
        assert Reach(a, t, rest) == (t, 0);
        assert Reach(a, pos, q) == (t, 1);
      }
    }
  }

  // A zero byte leads to node 1.
  lemma EmptyZero(pos: nat, q: Key)
    requires pos <= 1 && q != [] && q[0] == 0
    ensures Verdict(EmptyArray(), pos, q) == Verdict(EmptyArray(), 1, q[1..])
  {
    hide Xor, LabelOf, OffsetOf, HasLeaf, ValueOf;
    EmptyStep(pos, 0);
  }

  // From the root and from node 1 a zero byte leads to node 1, every byte but 0 and 1 to a filler.
  lemma EmptyStep(pos: nat, c: Byte)
    requires pos <= 1
    ensures var t := Xor(1, c);
      && t < 256 && (c == 1 <==> t == 0) && (c == 0 <==> t == 1)
      && (LabelOf(EmptyArray()[t]) == c <==> c != 1) && Xor(pos, Xor(OffsetOf(EmptyArray()[pos]), c)) == t
      && (t > 1 ==> OffsetOf(EmptyArray()[t]) == 0)
  {
    hide Xor;
    var t := Xor(1, c);
    EmptyWords();
    XorTransition(pos, OffsetOf(EmptyArray()[pos]), c);
    XorBlock(1, c);
    XorSelf(1);
    XorZero(1);
    XorCancel(c, 1);
    XorComm(1, c);
    XorComm(t, 1);
    XorBlock(t, 1);
    if t == 0 { XorInjective(1, c, 1); }
    if t == 1 { XorInjective(1, c, 0); }
  }

  // And from there no byte leads on.
  lemma EmptyStuck(t: nat, d: Byte)
    requires 2 <= t < 256
    ensures var u := Xor(t, Xor(0, d)); u < 256 && LabelOf(EmptyArray()[u]) != d
  {
    hide Xor;
    XorZero(d);
    XorZero(t);
    var u := Xor(t, d);
    XorBlock(t, d);
    XorBlock(u, 1);
    XorCancel(t, d);
    if u != 0 && Xor(u, 1) == d {
      XorComm(u, 1);
      XorCancel(1, u);
      XorComm(1, d);
      XorComm(t, d);
      XorInjective(d, t, 1);
    }
  }

  // ---- the keys below a node ----

  ghost predicate LexLess(s: Key, t: Key) {
    t != [] && (s == [] || s[0] < t[0] || (s[0] == t[0] && LexLess(s[1..], t[1..])))
  }

  ghost predicate Climbs(ks: seq<Key>) {
    forall i, j :: 0 <= i < j < |ks| ==> LexLess(ks[i], ks[j])
  }

  // ks lists the keys of L once each in byte order.
  ghost predicate Enumerates(L: Lang, ks: seq<Key>) {
    && Climbs(ks)
    && (forall s :: s in ks <==> s in L)
  }

  ghost predicate Bounded(L: Lang, n: nat) {
    forall s :: s in L ==> |s| <= n
  }

  function Prefixed(c: Byte, ks: seq<Key>): (r: seq<Key>)
    ensures |r| == |ks| && forall i :: 0 <= i < |ks| ==> r[i] == [c] + ks[i]
  {
    seq(|ks|, i requires 0 <= i < |ks| => [c] + ks[i])
  }

  // The keys of L, none longer than n, in byte order.
  ghost function KeysIn(L: Lang, n: nat): seq<Key>
    decreases n, 257
  {
    (if [] in L then [[]] else []) + KeysFrom(L, n, 0)
  }

  // Those that begin with a byte >= c.
  ghost function KeysFrom(L: Lang, n: nat, c: nat): seq<Key>
    requires c <= 256
    decreases n, 256 - c
  {
    if c == 256 then []
    else (if n > 0 && Starts(L, c) then Prefixed(c, KeysIn(After(L, [c]), n - 1)) else [])
         + KeysFrom(L, n, c + 1)
  }

  lemma BoundedAfter(L: Lang, n: nat, c: Byte)
    requires Bounded(L, n) && Starts(L, c)
    ensures n > 0 && Bounded(After(L, [c]), n - 1)
  {
    var t: Key :| [c] + t in L;
    forall s | s in After(L, [c]) ensures |s| <= n - 1 {
      AfterHas(L, [c], s);
      assert |[c] + s| <= n;
    }
  }

  lemma {:induction false} KeysInEnumerate(L: Lang, n: nat)
    requires Bounded(L, n)
    ensures Enumerates(L, KeysIn(L, n))
    decreases n, 257
  {
    hide After, Starts, KeysFrom;
    KeysFromEnumerate(L, n, 0);
    EmptyFirst(L, KeysFrom(L, n, 0));
  }

  // The empty key comes before the others.
  lemma EmptyFirst(L: Lang, rest: seq<Key>)
    requires Climbs(rest)
    requires forall s: Key :: s in rest <==> s in L && s != [] && s[0] >= 0
    ensures Enumerates(L, (if [] in L then [[]] else []) + rest)
  {
    var ks := (if [] in L then [[]] else []) + rest;
    forall i, j | 0 <= i < j < |ks| ensures LexLess(ks[i], ks[j]) {
      if [] in L {
        assert ks[j] == rest[j - 1] && rest[j - 1] in rest;
      }
    }
    forall s ensures s in ks <==> s in L {
      assert s in ks <==> (s == [] && [] in L) || s in rest;
    }
  }

  lemma {:induction false} KeysFromEnumerate(L: Lang, n: nat, c: nat)
    requires Bounded(L, n) && c <= 256
    ensures var ks := KeysFrom(L, n, c);
            && Climbs(ks)
            && (forall s: Key :: s in ks <==> s in L && s != [] && s[0] >= c)
    decreases n, 256 - c
  {
    hide After, Starts, Climbs, KeysIn, Bounded, Enumerates, Prefixed;
    if c < 256 {
      KeysFromEnumerate(L, n, c + 1);
      var rest, ks := KeysFrom(L, n, c + 1), KeysFrom(L, n, c);
      if Starts(L, c) {
        BoundedAfter(L, n, c);
        KeysInEnumerate(After(L, [c]), n - 1);
        var below := KeysIn(After(L, [c]), n - 1);
        var front := Prefixed(c, below);
        assert ks == front + rest;
        FrontEnumerates(L, c, below);
        JoinAscends(front, rest, c);
        forall s: Key ensures s in ks <==> s in L && s != [] && s[0] >= c {
          assert s in ks <==> s in front || s in rest;
        }
      } else {
        assert ks == rest;
        forall s: Key ensures s in ks <==> s in L && s != [] && s[0] >= c {
          if s in L && s != [] && s[0] == c { NoStart(L, c, s); }
        }
      }
    } else {
      EmptyClimbs();
    }
  }

  lemma EmptyClimbs()
    ensures Climbs([])
  {
  }

  lemma NoStart(L: Lang, c: Byte, s: Key)
    requires s in L && s != [] && s[0] == c
    ensures Starts(L, c)
  {
    assert [c] + s[1..] == s;
  }

  lemma FrontEnumerates(L: Lang, c: Byte, below: seq<Key>)
    requires Enumerates(After(L, [c]), below)
    ensures var front := Prefixed(c, below);
            && Climbs(front)
            && (forall s: Key :: s in front <==> s in L && s != [] && s[0] == c)
  {
    hide After;
    var front := Prefixed(c, below);
    forall i, j | 0 <= i < j < |front| ensures LexLess(front[i], front[j]) {
      assert front[i][1..] == below[i] && front[j][1..] == below[j];
    }
    forall s: Key ensures s in front <==> s in L && s != [] && s[0] == c {
      if s in front {
        var i :| 0 <= i < |front| && front[i] == s;
        AfterHas(L, [c], below[i]);
      }
      if s in L && s != [] && s[0] == c {
        assert [c] + s[1..] == s;
        AfterHas(L, [c], s[1..]);
        var i :| 0 <= i < |below| && below[i] == s[1..];
        assert front[i] == s;
      }
    }
  }

  lemma JoinAscends(front: seq<Key>, rest: seq<Key>, c: Byte)
    requires Climbs(front)
    requires Climbs(rest)
    requires forall s: Key :: s in front ==> s != [] && s[0] == c
    requires forall s: Key :: s in rest ==> s != [] && s[0] > c
    ensures Climbs(front + rest)
  {
    var ks := front + rest;
    forall i, j | 0 <= i < j < |ks| ensures LexLess(ks[i], ks[j]) {
      if i < |front| <= j {
        assert ks[i] in front && ks[j] in rest;
      }
    }
  }

  // What visit reports for the keys ks below a node at depth length.
  ghost function Reports(L: Lang, ks: seq<Key>, length: nat): (r: seq<(nat, nat)>)
    requires forall s :: s in ks ==> s in L
    ensures |r| == |ks|
  {
    seq(|ks|, i requires 0 <= i < |ks| => (L[ks[i]], length + |ks[i]|))
  }

  lemma ReportsBelow(L: Lang, c: Byte, ks: seq<Key>, length: nat)
    requires forall s :: s in ks ==> s in After(L, [c])
    ensures forall s :: s in Prefixed(c, ks) ==> s in L
    ensures Reports(L, Prefixed(c, ks), length) == Reports(After(L, [c]), ks, length + 1)
  {
    hide After;
    forall i | 0 <= i < |ks|
      ensures [c] + ks[i] in L && L[[c] + ks[i]] == After(L, [c])[ks[i]]
    {
      assert ks[i] in ks;
      AfterHas(L, [c], ks[i]);
    }
  }

  lemma ReportsJoin(L: Lang, s: seq<Key>, t: seq<Key>, length: nat)
    requires forall x :: x in s + t ==> x in L
    ensures forall x :: x in s ==> x in L
    ensures forall x :: x in t ==> x in L
    ensures Reports(L, s + t, length) == Reports(L, s, length) + Reports(L, t, length)
  {
    forall x | x in s ensures x in L { assert x in s + t; }
    forall x | x in t ensures x in L { assert x in s + t; }
  }

  lemma FirstJoin<T>(s: seq<T>, t: seq<T>, max: nat)
    ensures |s| <= max ==> First(s + t, max) == s + First(t, max - |s|)
    ensures |s| >= max ==> First(s + t, max) == First(s, max)
  {
  }

  lemma ReportsOf(L: Lang, n: nat)
    requires Bounded(L, n)
    ensures forall s :: s in KeysIn(L, n) ==> s in L
  {
    KeysInEnumerate(L, n);
  }

  // What visit has collected when it is about to try label i.
  ghost predicate Collected(L: Lang, n: nat, i: nat, length: nat, max: nat, seen: seq<Key>, results: seq<(nat, nat)>) {
    && i <= 256
    && KeysIn(L, n) == seen + KeysFrom(L, n, i)
    && (forall s :: s in seen ==> s in L)
    && results == First(Reports(L, seen, length), max)
  }

  // A label without a child.
  lemma CollectNone(L: Lang, n: nat, i: nat, length: nat, max: nat, seen: seq<Key>, results: seq<(nat, nat)>)
    requires Collected(L, n, i, length, max, seen, results) && i < 256 && !Starts(L, i)
    ensures Collected(L, n, i + 1, length, max, seen, results)
  {
    hide Starts, After, KeysIn;
    assert KeysFrom(L, n, i) == [] + KeysFrom(L, n, i + 1);
  }

  // The room is used up.
  lemma CollectFull(L: Lang, n: nat, i: nat, length: nat, max: nat, seen: seq<Key>, results: seq<(nat, nat)>)
    requires Collected(L, n, i, length, max, seen, results) && Bounded(L, n)
    requires |results| >= max || i == 256
    ensures forall s :: s in KeysIn(L, n) ==> s in L
    ensures results == First(Reports(L, KeysIn(L, n), length), max)
  {
    hide Starts, After, KeysIn;
    ReportsOf(L, n);
    ReportsJoin(L, seen, KeysFrom(L, n, i), length);
    FirstJoin(Reports(L, seen, length), Reports(L, KeysFrom(L, n, i), length), max);
  }

  lemma KeysFromStep(L: Lang, n: nat, i: nat)
    requires i < 256 && n > 0 && Starts(L, i)
    ensures KeysFrom(L, n, i) == Prefixed(i, KeysIn(After(L, [i]), n - 1)) + KeysFrom(L, n, i + 1)
  {
    hide Starts, After, KeysIn, Prefixed;
  }

  // What is not full holds everything.
  lemma FirstAll<T>(s: seq<T>, max: nat)
    ensures |First(s, max)| < max ==> First(s, max) == s
  {
  }

  // The keys below the child of label i are added.
  lemma CollectChild(L: Lang, n: nat, i: nat, length: nat, max: nat, seen: seq<Key>, results: seq<(nat, nat)>,
      more: seq<(nat, nat)>)
    requires Collected(L, n, i, length, max, seen, results) && Bounded(L, n)
    requires i < 256 && Starts(L, i) && n > 0 && |results| < max
    requires forall s :: s in KeysIn(After(L, [i]), n - 1) ==> s in After(L, [i])
    requires more == First(Reports(After(L, [i]), KeysIn(After(L, [i]), n - 1), length + 1), max - |results|)
    ensures Collected(L, n, i + 1, length, max, seen + Prefixed(i, KeysIn(After(L, [i]), n - 1)), results + more)
  {
    hide Starts, After, KeysIn, KeysFrom, Reports, First, Prefixed, Bounded;
    var below := KeysIn(After(L, [i]), n - 1);
    var front := Prefixed(i, below);
    KeysFromStep(L, n, i);
    assert seen + (front + KeysFrom(L, n, i + 1)) == (seen + front) + KeysFrom(L, n, i + 1);
    ReportsBelow(L, i, below, length);
    ReportsJoin(L, seen, front, length);
    FirstAll(Reports(L, seen, length), max);
    FirstJoin(Reports(L, seen, length), Reports(L, front, length), max);
  }

  // ---- visit ----

  /** What a call of visit comes to within a number of nested calls: its results, or more calls. */
  datatype Run = Deeper | Listed(results: seq<(nat, nat)>)

  /** visit from a node, with room for `max` results. */
  function VisitRun(a: seq<Word>, length: nat, pos: nat, max: nat, calls: nat): Run
    decreases calls, 257
  {
    if calls == 0 || pos >= |a| || Base(a, pos) >= |a| then Deeper
    else
      var found := if HasLeaf(a[pos]) then [(ValueOf(a[Base(a, pos)]), length)] else [];
      LabelsRun(a, length, Base(a, pos), 0, found, max, calls)
  }

  /** Its loop, from label i on. */
  function LabelsRun(a: seq<Word>, length: nat, base: nat, i: nat, found: seq<(nat, nat)>, max: nat, calls: nat): Run
    requires i <= 256 && calls > 0
    decreases calls, 256 - i
  {
    if i == 256 then Listed(found)
    else
      var child := Xor(base, i);
      if child >= |a| then Deeper
      else if LabelOf(a[child]) != i then LabelsRun(a, length, base, i + 1, found, max, calls)
      else if |found| >= max then Listed(found)
      else
        match VisitRun(a, length + 1, child, max - |found|, calls - 1)
        case Deeper => Deeper
        case Listed(more) => LabelsRun(a, length, base, i + 1, found + more, max, calls)
  }

  /** The recursion of visit ends. */
  ghost predicate Ends(a: seq<Word>, length: nat, pos: nat, max: nat) {
    exists calls :: VisitRun(a, length, pos, max, calls).Listed?
  }

  /** Whenever the recursion ends, visit counts what it lists and writes what there is room for. */
  method Visit(a: seq<Word>, length: nat, nodePos: nat, maxResults: nat, ghost calls: nat)
    returns (results: seq<(nat, nat)>, num: nat)
    requires VisitRun(a, length, nodePos, maxResults, calls).Listed?
    ensures var listed := VisitRun(a, length, nodePos, maxResults, calls).results;
      num == |listed| && results == First(listed, maxResults)
    decreases calls
  {
    hide Xor, OffsetOf, LabelOf, HasLeaf, ValueOf;
    var base := Xor(nodePos, OffsetOf(a[nodePos]));
    results, num := [], 0;
    ghost var found: seq<(nat, nat)> := if HasLeaf(a[nodePos]) then [(ValueOf(a[base]), length)] else [];
    if HasLeaf(a[nodePos]) {
      if maxResults > 0 {
        results := results + [(ValueOf(a[base]), length)];
      }
      num := num + 1;
    }
    var i: nat := 0;
    while i < 256
      invariant 0 <= i <= 256 && num == |found| && results == First(found, maxResults)
      invariant LabelsRun(a, length, base, i, found, maxResults, calls)
             == VisitRun(a, length, nodePos, maxResults, calls)
    {
      var child := Xor(base, i);
      if LabelOf(a[child]) == i {
        if num >= maxResults {
          return;
        }
        var more, count := Visit(a, length + 1, child, maxResults - num, calls - 1);
        ghost var below := VisitRun(a, length + 1, child, maxResults - num, calls - 1).results;
        FirstJoin(found, below, maxResults);
        found := found + below;
        results, num := results + more, num + count;
      }
      i := i + 1;
    }
  }

  /** From a real node, with room for at least one result, visit reports the first `max` keys
      below the node in byte order, with as many nested calls as the longest key has bytes. */
  lemma {:induction false} VisitNode(a: seq<Word>, lang: map<nat, Lang>, length: nat, pos: nat, max: nat, n: nat)
    requires Represents(a, lang) && pos in lang && Bounded(lang[pos], n) && max >= 1
    ensures Enumerates(lang[pos], KeysIn(lang[pos], n))
    ensures VisitRun(a, length, pos, max, n + 1)
         == Listed(First(Reports(lang[pos], KeysIn(lang[pos], n), length), max))
    decreases n
  {
    hide After, Starts, Xor, OffsetOf, LabelOf, HasLeaf, ValueOf, KeysIn, KeysFrom, Reports, Collected, Bounded;
    hide Enumerates;
    hide VisitRun, LabelsRun;
    var L, base := lang[pos], Base(a, pos);
    KeysInEnumerate(L, n);
    NodeStart(a, lang, length, pos, max, n + 1);
    var results := if [] in L then [(L[[]], length)] else [];
    var seen := if [] in L then [[]] else [];
    CollectStart(L, n, length, max);
    var i: nat := 0;
    while i < 256
      invariant 0 <= i <= 256
      invariant Collected(L, n, i, length, max, seen, results)
      invariant LabelsRun(a, length, base, i, results, max, n + 1) == VisitRun(a, length, pos, max, n + 1)
    {
      NodeStep(a, lang, pos, i);
      LabelStep(a, length, base, i, results, max, n + 1);
      var child := Xor(base, i);
      if LabelOf(a[child]) == i {
        if |results| >= max {
          CollectFull(L, n, i, length, max, seen, results);
          return;
        }
        BoundedAfter(L, n, i);
        VisitNode(a, lang, length + 1, child, max - |results|, n - 1);
        ReportsOf(After(L, [i]), n - 1);
        var below := KeysIn(After(L, [i]), n - 1);
        var more := First(Reports(After(L, [i]), below, length + 1), max - |results|);
        CollectChild(L, n, i, length, max, seen, results, more);
        seen := seen + Prefixed(i, below);
        results := results + more;
      } else {
        CollectNone(L, n, i, length, max, seen, results);
      }
      i := i + 1;
    }
    LabelsEnd(a, length, base, results, max, n + 1);
    CollectFull(L, n, i, length, max, seen, results);
  }

  /** Without room, visit ends at once and lists the node's own key, if it is one: it is counted but
      not written. */
  lemma VisitNoRoom(a: seq<Word>, lang: map<nat, Lang>, length: nat, pos: nat, calls: nat)
    requires Represents(a, lang) && pos in lang && calls > 0
    ensures VisitRun(a, length, pos, 0, calls)
         == Listed(if [] in lang[pos] then [(lang[pos][[]], length)] else [])
  {
    hide After, Starts, Xor, OffsetOf, LabelOf, HasLeaf, ValueOf, VisitRun, LabelsRun, Represents;
    NodeStart(a, lang, length, pos, 0, calls);
    var found := if [] in lang[pos] then [(lang[pos][[]], length)] else [];
    var i, base: nat := 0, Base(a, pos);
    while i < 256
      invariant 0 <= i <= 256
      invariant LabelsRun(a, length, base, i, found, 0, calls) == VisitRun(a, length, pos, 0, calls)
    {
      NodeStep(a, lang, pos, i);
      LabelStep(a, length, base, i, found, 0, calls);
      if LabelOf(a[Xor(base, i)]) == i {
        return;
      }
      i := i + 1;
    }
    LabelsEnd(a, length, base, found, 0, calls);
  }

  lemma NodeStart(a: seq<Word>, lang: map<nat, Lang>, length: nat, pos: nat, max: nat, calls: nat)
    requires Represents(a, lang) && pos in lang && calls > 0
    ensures pos < |a| && Base(a, pos) < |a|
    ensures VisitRun(a, length, pos, max, calls)
         == LabelsRun(a, length, Base(a, pos), 0, if [] in lang[pos] then [(lang[pos][[]], length)] else [], max, calls)
  {
    hide StepOK, Xor, OffsetOf, LabelsRun;
    assert NodeOK(a, lang, pos);
  }

  lemma NodeStep(a: seq<Word>, lang: map<nat, Lang>, pos: nat, i: Byte)
    requires Represents(a, lang) && pos in lang
    ensures pos < |a|
    ensures var child := Xor(Base(a, pos), i);
      && child < |a| && (LabelOf(a[child]) == i <==> Starts(lang[pos], i))
      && (Starts(lang[pos], i) ==> child in lang && lang[child] == After(lang[pos], [i]))
  {
    hide Starts, After, Xor, OffsetOf, LabelOf, HasLeaf, ValueOf;
    assert NodeOK(a, lang, pos);
    assert StepOK(a, lang, Base(a, pos), lang[pos], i);
  }

  // One pass of the loop.
  lemma LabelStep(a: seq<Word>, length: nat, base: nat, i: nat, found: seq<(nat, nat)>, max: nat, calls: nat)
    requires i < 256 && calls > 0 && Xor(base, i) < |a|
    ensures var child := Xor(base, i);
      LabelsRun(a, length, base, i, found, max, calls)
      == if LabelOf(a[child]) != i then LabelsRun(a, length, base, i + 1, found, max, calls)
         else if |found| >= max then Listed(found)
         else
           match VisitRun(a, length + 1, child, max - |found|, calls - 1)
           case Deeper => Deeper
           case Listed(more) => LabelsRun(a, length, base, i + 1, found + more, max, calls)
  {
    hide Xor, LabelOf, VisitRun;
  }

  lemma LabelsEnd(a: seq<Word>, length: nat, base: nat, found: seq<(nat, nat)>, max: nat, calls: nat)
    requires calls > 0
    ensures LabelsRun(a, length, base, 256, found, max, calls) == Listed(found)
  {
  }

  /** In the array of no keys the label of id 1 is 0 and its offset is 0: the label test leads it to
      itself, and the root to it, so visit with room never ends. */
  lemma {:induction false} EmptyVisit(length: nat, pos: nat, max: nat, calls: nat)
    requires pos <= 1 && max >= 1
    ensures Base(EmptyArray(), pos) == 1 && Xor(1, 0) == 1 && LabelOf(EmptyArray()[1]) == 0
    ensures VisitRun(EmptyArray(), length, pos, max, calls) == Deeper
    decreases calls
  {
    hide Xor, LabelsRun;
    EmptyWords();
    XorZero(1);
    if calls > 0 {
      EmptyVisit(length + 1, 1, max, calls - 1);
      LabelStep(EmptyArray(), length, 1, 0, [], max, calls);
    }
  }

  lemma EmptyWords()
    ensures EmptyArray()[0] == 1024 && EmptyArray()[1] == 0
    ensures Base(EmptyArray(), 0) == 1 && Base(EmptyArray(), 1) == 1
    ensures !HasLeaf(1024) && !HasLeaf(0)
  {
    hide Xor;
    XorSelf(1);
    XorZero(1);
  }

  lemma {:induction false} BoundExists(L: Lang) returns (n: nat)
    ensures Bounded(L, n)
    decreases |L|
  {
    if L == map[] {
      n := 0;
    } else {
      var k :| k in L;
      n := BoundExists(L - {k});
      n := if n < |k| then |k| else n;
    }
  }

  /** For every built array: visit from the root with room ends exactly when the dictionary is not
      empty, and then it enumerates. */
  lemma VisitEndsIff(a: seq<Word>, lang: map<nat, Lang>, L: Lang, length: nat, max: nat) returns (n: nat)
    requires Built(a, lang, L) && max >= 1
    ensures Ends(a, length, 0, max) <==> L != map[]
    ensures Bounded(L, n)
    ensures L != map[] ==> Enumerates(L, KeysIn(L, n))
    ensures L != map[] ==>
      var keys := KeysIn(L, n);
      var count := if max < |keys| then max else |keys|;
      && VisitRun(a, length, 0, max, n + 1).Listed?
      && var results := VisitRun(a, length, 0, max, n + 1).results;
         |results| == count && forall i :: 0 <= i < count ==> results[i] == (L[keys[i]], length + |keys[i]|)
  {
    hide VisitRun, KeysIn, Bounded, Represents;
    n := BoundExists(L);
    if L == map[] {
      forall calls: nat ensures VisitRun(a, length, 0, max, calls) == Deeper {
        EmptyVisit(length, 0, max, calls);
      }
    } else {
      VisitNode(a, lang, length, 0, max, n);
    }
  }

  lemma CollectStart(L: Lang, n: nat, length: nat, max: nat)
    requires max >= 1
    ensures Collected(L, n, 0, length, max, if [] in L then [[]] else [],
                      if [] in L then [(L[[]], length)] else [])
  {
    hide Starts, After, KeysFrom;
    var seen: seq<Key> := if [] in L then [[]] else [];
    assert Reports(L, seen, length) == if [] in L then [(L[[]], length)] else [];
  }
}
