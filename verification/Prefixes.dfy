/** How many nodes a trie of a dictionary needs: one for each prefix of a key. */
module Prefixes {
  import opened Bits
  import opened Languages

  ghost function PrefixesOf(L: Lang): set<Key> {
    set k, i | k in L && 0 <= i <= |k| :: k[..i]
  }

  ghost function Size(L: Lang): nat {
    |PrefixesOf(L)|
  }

  // The prefixes that begin with one of the bytes.
  ghost function Starting(L: Lang, cs: set<Byte>): set<Key> {
    set p | p in PrefixesOf(L) && p != [] && p[0] in cs
  }

  ghost function SizeBelow(L: Lang, cs: set<Byte>): nat {
    |Starting(L, cs)|
  }

  lemma PrefixIff(L: Lang, p: Key)
    ensures p in PrefixesOf(L) <==> exists k :: k in L && p <= k
  {
    if exists k :: k in L && p <= k {
      var k :| k in L && p <= k;
      assert p == k[..|p|];
    }
    if p in PrefixesOf(L) {
      var k, i :| k in L && 0 <= i <= |k| && p == k[..i];
      assert p <= k;
    }
  }

  // ---- a child has the prefixes that begin with its byte ----

  ghost function Under(c: Byte, S: set<Key>): set<Key> {
    set p | p in S :: [c] + p
  }

  lemma {:induction false} UnderSize(c: Byte, S: set<Key>)
    ensures |Under(c, S)| == |S|
    decreases |S|
  {
    if S == {} {
      assert Under(c, S) == {};
    } else {
      var a :| a in S;
      var T := S - {a};
      UnderSize(c, T);
      assert Under(c, S) == Under(c, T) + {[c] + a};
      forall p | p in T ensures [c] + p != [c] + a {
        assert ([c] + p)[1..] == p && ([c] + a)[1..] == a;
      }
    }
  }

  lemma ChildSize(L: Lang, c: Byte)
    ensures Size(After(L, [c])) == SizeBelow(L, {c})
  {
    hide After, PrefixesOf;
    var S, T := PrefixesOf(After(L, [c])), Starting(L, {c});
    forall p: Key ensures p in Under(c, S) <==> p in T {
      if p in Under(c, S) {
        var q :| q in S && p == [c] + q;
        UnderIn(L, c, q);
      }
      if p in T {
        assert p == [c] + p[1..];
        UnderIn(L, c, p[1..]);
      }
    }
    assert Under(c, S) == T;
    UnderSize(c, S);
  }

  lemma UnderIn(L: Lang, c: Byte, q: Key)
    ensures q in PrefixesOf(After(L, [c])) <==> [c] + q in PrefixesOf(L)
  {
    hide After, PrefixesOf;
    PrefixIff(After(L, [c]), q);
    PrefixIff(L, [c] + q);
    if q in PrefixesOf(After(L, [c])) {
      var k :| k in After(L, [c]) && q <= k;
      AfterHas(L, [c], k);
      assert [c] + q <= [c] + k;
    }
    if [c] + q in PrefixesOf(L) {
      var k :| k in L && [c] + q <= k;
      assert k == [c] + k[1..] && q <= k[1..];
      AfterHas(L, [c], k[1..]);
    }
  }

  // ---- adding up ----

  lemma BelowSplit(L: Lang, cs: set<Byte>, c: Byte)
    requires c in cs
    ensures SizeBelow(L, cs) == SizeBelow(L, cs - {c}) + Size(After(L, [c]))
  {
    hide PrefixesOf, After, Size;
    ChildSize(L, c);
    assert Starting(L, cs) == Starting(L, cs - {c}) + Starting(L, {c});
    assert Starting(L, cs - {c}) !! Starting(L, {c});
  }

  lemma BelowNone(L: Lang)
    ensures SizeBelow(L, {}) == 0
  {
    assert Starting(L, {}) == {};
  }

  // A dictionary with keys has the empty prefix besides those below.
  lemma BelowAll(L: Lang, cs: set<Byte>)
    requires L != map[]
    ensures SizeBelow(L, cs) + 1 <= Size(L)
  {
    var k :| k in L;
    assert k[..0] == [] && [] in PrefixesOf(L);
    var S := Starting(L, cs);
    Smaller(S + {[]}, PrefixesOf(L));
    assert |S + {[]}| == |S| + 1;
  }

  lemma Smaller<T>(A: set<T>, B: set<T>)
    requires A <= B
    ensures |A| <= |B|
  {
    assert B == A + (B - A);
  }

  // ---- the prefixes of a list ----

  /** The bytes of a key list and a terminator for each key. */
  ghost function TotalLength(keys: seq<Key>): nat {
    if keys == [] then 0 else TotalLength(keys[..|keys| - 1]) + |keys[|keys| - 1]| + 1
  }

  ghost function Cuts(k: Key, n: nat): (r: set<Key>)
    requires n <= |k|
    ensures forall i :: 0 <= i <= n ==> k[..i] in r
    ensures |r| <= n + 1
    decreases n
  {
    if n == 0 then {k[..0]} else Cuts(k, n - 1) + {k[..n]}
  }

  ghost function ListPrefixes(keys: seq<Key>): (r: set<Key>)
    ensures forall i, j :: 0 <= i < |keys| && 0 <= j <= |keys[i]| ==> keys[i][..j] in r
    ensures |r| <= TotalLength(keys)
    decreases |keys|
  {
    if keys == [] then {}
    else
      var n := |keys| - 1;
      var front, last := ListPrefixes(keys[..n]), Cuts(keys[n], |keys[n]|);
      Union(front, last);
      assert forall i :: 0 <= i < n ==> keys[..n][i] == keys[i];
      front + last
  }

  lemma Union<T>(A: set<T>, B: set<T>)
    ensures |A + B| <= |A| + |B|
  {
    assert A + B == A + (B - A);
    Smaller(B - A, B);
  }

  /** A dictionary of listed keys has no more prefixes than the list has bytes and terminators. */
  lemma SizeBound(L: Lang, keys: seq<Key>)
    requires forall k :: k in L ==> k in keys
    ensures Size(L) <= TotalLength(keys)
  {
    hide TotalLength;
    var R := ListPrefixes(keys);
    forall p | p in PrefixesOf(L) ensures p in R {
      var k, i :| k in L && 0 <= i <= |k| && p == k[..i];
      var j :| 0 <= j < |keys| && keys[j] == k;
      assert keys[j][..i] == p;
    }
    Smaller(PrefixesOf(L), R);
  }
}
