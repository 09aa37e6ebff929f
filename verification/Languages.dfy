/** The specification of a dictionary: a finite map from byte strings to
    non-negative values, and its quotients by a prefix. */
module Languages {
  import opened Bits

  type Key = seq<Byte>
  type Lang = map<Key, nat>

  // The answer of a search: the stored value, or -1.
  function Lookup(L: Lang, key: Key): int {
    if key in L then L[key] else -1
  }

  // What is left of the keys of L that begin with p.
  function After(L: Lang, p: Key): Lang {
    map s | s in (set t | t in L && p <= t :: t[|p|..]) && p + s in L :: L[p + s]
  }

  ghost predicate Starts(L: Lang, c: Byte) {
    exists s: Key :: [c] + s in L
  }

  lemma AfterHas(L: Lang, p: Key, s: Key)
    ensures s in After(L, p) <==> p + s in L
    ensures s in After(L, p) ==> After(L, p)[s] == L[p + s]
  {
    if p + s in L {
      assert p <= p + s && (p + s)[|p|..] == s;
    }
    if s in After(L, p) {
      var t :| t in L && p <= t && t[|p|..] == s;
      assert t == p + s;
    }
  }

  lemma AfterEmpty(L: Lang)
    ensures After(L, []) == L
  {
    forall s: Key
      ensures s in After(L, []) <==> s in L
      ensures s in L ==> After(L, [])[s] == L[s]
    {
      AfterHas(L, [], s);
      assert [] + s == s;
    }
  }

  lemma AfterAfter(L: Lang, p: Key, q: Key)
    ensures After(After(L, p), q) == After(L, p + q)
  {
    forall s: Key
      ensures s in After(After(L, p), q) <==> s in After(L, p + q)
      ensures s in After(L, p + q) ==> After(After(L, p), q)[s] == After(L, p + q)[s]
    {
      AfterHas(After(L, p), q, s);
      AfterHas(L, p, q + s);
      AfterHas(L, p + q, s);
      assert p + (q + s) == (p + q) + s;
    }
  }

  lemma StartsAfter(L: Lang, c: Byte)
    ensures Starts(L, c) <==> After(L, [c]) != map[]
  {
    if Starts(L, c) {
      var s: Key :| [c] + s in L;
      AfterHas(L, [c], s);
    }
    if After(L, [c]) != map[] {
      var s: Key :| s in After(L, [c]);
      AfterHas(L, [c], s);
    }
  }

  // A key of L can be looked up one byte at a time.
  lemma LookupStep(L: Lang, key: Key, i: nat)
    requires i < |key|
    ensures !Starts(After(L, key[..i]), key[i]) ==> After(L, key[..i + 1]) == map[]
    ensures After(After(L, key[..i]), [key[i]]) == After(L, key[..i + 1])
  {
    AfterAfter(L, key[..i], [key[i]]);
    assert key[..i] + [key[i]] == key[..i + 1];
    StartsAfter(After(L, key[..i]), key[i]);
  }

  lemma LookupAfter(L: Lang, key: Key)
    ensures Lookup(L, key) == Lookup(After(L, key), [])
  {
    AfterHas(L, key, []);
    assert key + [] == key;
  }

  // Nothing extends a string once nothing extends one of its prefixes.
  lemma DeadPrefix(L: Lang, p: Key, s: Key)
    requires After(L, p) == map[]
    ensures After(L, p + s) == map[]
    ensures p + s !in L
  {
    AfterAfter(L, p, s);
    AfterHas(L, p, s);
  }
}
