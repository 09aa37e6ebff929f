/** Searching a minimal prefix trie with its tail, and the whole way from a list of keys to the
    answer of a search (`DoubleArrayBase` in src/include/darts-clone.h). */
module PrefixTrieSearch {
  import opened Bits
  import opened Languages
  import opened SuffixUnits
  import opened SuffixTail
  import opened BuilderInvariant
  import opened PT = PrefixTrie
  import opened PrefixTrieRanges
  import opened PrefixTrieBuilder

  // ---- queries ----

  /** What dereferencing a query gives: the terminator at its end. */
  function QueryAt(q: seq<Byte>, i: nat): Byte {
    if i < |q| then q[i] else 0
  }

  /** The part of a query before its first NUL. */
  function Cut(q: seq<Byte>): (r: Key)
    ensures NulFree(r) && r <= q && (NulFree(q) ==> r == q)
  {
    if q == [] || q[0] == 0 then [] else [q[0]] + Cut(q[1..])
  }

  /** From position i on the query reads s and then a terminator. */
  ghost predicate Spells(q: seq<Byte>, i: nat, s: Key) {
    && i + |s| <= |q|
    && (forall k :: i <= k < i + |s| ==> q[k] == s[k - i])
    && QueryAt(q, i + |s|) == 0
  }

  lemma {:induction false} CutSpells(q: seq<Byte>)
    ensures Spells(q, 0, Cut(q))
  {
    if q != [] && q[0] != 0 {
      CutSpells(q[1..]);
      var c, r := Cut(q), Cut(q[1..]);
      forall k | 0 <= k < |c| ensures q[k] == c[k] {
        if k > 0 { assert q[1..][k - 1] == r[k - 1]; }
      }
      assert QueryAt(q[1..], |r|) == QueryAt(q, |c|);
    }
  }

  lemma SpellsIsCut(q: seq<Byte>, s: Key)
    requires NulFree(s)
    ensures Spells(q, 0, s) <==> Cut(q) == s
  {
    CutSpells(q);
    if Spells(q, 0, s) {
      SpellsOnce(q, s, Cut(q));
    }
  }

  lemma SpellsOnce(q: seq<Byte>, s: Key, t: Key)
    requires NulFree(s) && NulFree(t) && Spells(q, 0, s) && Spells(q, 0, t)
    ensures s == t
  {
    assert |s| == |t|;
    forall k | 0 <= k < |s| ensures s[k] == t[k] {
      assert q[k] == s[k];
    }
  }

  // Reading on from a prefix without NUL stays within the terminated query.
  lemma {:induction false} WithinQuery(q: seq<Byte>, i: nat)
    requires i <= |q| && NulFree(q[..i])
    ensures q[..i] + [QueryAt(q, i)] <= Cut(q) + [0]
    decreases i
  {
    if i > 0 {
      var rest := q[1..];
      assert q[..i][0] != 0;
      var head := rest[..i - 1];
      forall k | 0 <= k < |head| ensures head[k] != 0 {
        assert q[..i][k + 1] != 0;
      }
      WithinQuery(rest, i - 1);
      PrefixUnder(q[0], rest[..i - 1] + [QueryAt(rest, i - 1)], Cut(rest) + [0]);
      assert [q[0]] + (rest[..i - 1] + [QueryAt(rest, i - 1)]) == q[..i] + [QueryAt(q, i)];
      assert [q[0]] + (Cut(rest) + [0]) == Cut(q) + [0];
    }
  }

  lemma PrefixUnder(c: Byte, p: Key, t: Key)
    requires p <= t
    ensures [c] + p <= [c] + t
  {
  }

  lemma SpellsOn(q: seq<Byte>, i: nat, text: Key)
    requires i <= |text| && i <= |q| && q[..i] == text[..i]
    ensures Spells(q, 0, text) <==> Spells(q, i, text[i..])
  {
    var s := text[i..];
    assert forall k :: 0 <= k < i ==> q[k] == q[..i][k] && text[k] == text[..i][k];
    assert forall k :: i <= k < |text| ==> s[k - i] == text[k];
  }

  // ---- what a built array answers ----

  /** The ghost account of a built array: its keys, and the trie before the leaves were linked. */
  datatype Account = Account(terms: seq<Key>, keys: seq<Entry>, trie: seq<Unit>, v: View, node: PT.Node)

  ghost predicate Served(a: Account, units: seq<Unit>, tail: seq<Byte>) {
    if a.keys == [] then Hollow(units)
    else
      && Finished(a.terms, a.keys, a.trie, a.v, a.node)
      && AllOK(a.keys) && (forall k :: 0 <= k < |a.keys| ==> IsInt32(a.keys[k].value))
      && |units| == |a.trie|
      && (forall k :: 0 <= k < |a.keys| ==> Reaches(units, tail, a.keys[k]))
      && (forall x :: 0 <= x < |units| && !(a.trie[x].Branch? && a.trie[x].leaf) ==> units[x] == a.trie[x])
  }

  /** The answer of a map from the keys to their values. */
  ghost predicate Answer(keys: seq<Entry>, q: seq<Byte>, found: bool, value: int, length: nat) {
    && (found <==> exists k :: 0 <= k < |keys| && keys[k].text == Cut(q))
    && (forall k :: 0 <= k < |keys| && keys[k].text == Cut(q) ==> value == keys[k].value)
    && (found ==> length == |Cut(q)|)
    && (!found ==> value == -1)
  }

  /** The loop that compares suffixes. */
  method CompareTail(tail: seq<Byte>, link: nat, id: nat, q: seq<Byte>, i: nat, ghost suffix: Key, ghost stored: int)
    returns (found: bool, value: int, length: nat)
    requires Holds(tail, link, id, suffix, stored) && NulFree(suffix) && IsInt32(stored) && i <= |q|
    ensures found <==> Spells(q, i, suffix)
    ensures found ==> value == stored && length == i + |suffix|
    ensures !found ==> value == -1
  {
    hide Bytes, FromBytes;
    value, length := -1, 0;
    var j := 0;
    while tail[link + j] == QueryAt(q, i + j)
      invariant 0 <= j <= |suffix| && i + j <= |q|
      invariant forall k :: i <= k < i + j ==> q[k] == suffix[k - i]
      decreases |suffix| - j
    {
      assert j < |suffix| ==> tail[link + j] == tail[link..link + |suffix|][j];
      if tail[link + j] == 0 {
        var at := link + j + 1 + 4 * id;
        BytesRoundTrip(stored);
        return true, FromBytes(tail[at..at + 4]), i + j;
      }
      j := j + 1;
    }
    assert j < |suffix| ==> tail[link + j] == tail[link..link + |suffix|][j];
    return false, -1, 0;
  }

  // ---- one step ----

  // Where the search stands: a decided node, reached by the letters read so far.
  ghost predicate Stands(a: Account, q: seq<Byte>, i: nat, index: nat) {
    && i <= |q| && index in a.v.done && index in a.node && a.node[index] == q[..i] && NulFree(q[..i])
  }

  lemma DecidedUnit(a: Account, units: seq<Unit>, tail: seq<Byte>, index: nat)
    requires a.keys != [] && Served(a, units, tail) && index in a.v.done
    ensures index < |units| && units[index].Branch? && a.trie[index] == units[index]
    ensures index in a.node && NulFree(a.node[index])
  {
    hide LeafKey, Reaches, Roles, Parts, Fillers, RepsOK, KeysOK;
    assert Decided(a.terms, a.trie, a.v, a.node, index);
  }

  ghost predicate Leads(a: Account, q: seq<Byte>, i: nat, t: nat) {
    && i <= |q| && t < |a.trie| && a.trie[t].Branch?
    && var c := QueryAt(q, i);
       var on := Below(a.terms, q[..i] + [c]);
       && (on ==> t in a.node && a.node[t] == q[..i] + [c] && a.trie[t].letter == c)
       && (!on ==> a.trie[t].letter != c)
       && (a.trie[t].leaf ==> t in a.node && a.node[t] != [] && Last(a.node[t]) == a.trie[t].letter && t !in a.v.done)
       && (!a.trie[t].leaf && on ==> t in a.v.done)
  }

  lemma StepLeads(a: Account, units: seq<Unit>, tail: seq<Byte>, q: seq<Byte>, i: nat, index: nat)
    requires a.keys != [] && Served(a, units, tail) && i <= |q| && Stands(a, q, i, index)
    ensures index < |units| && units[index].Branch?
    ensures Leads(a, q, i, Xor(index, Xor(units[index].offset, QueryAt(q, i))))
  {
    hide Xor, Below, LeafKey, Reaches, KeysOK, NulFree, TrieOK, Last;
    DecidedUnit(a, units, tail, index);
    var c := QueryAt(q, i);
    StepTrie(a.terms, a.trie, a.v, a.node, index, c);
    XorTransition(index, units[index].offset, c);
    var t := Xor(Base(a.trie, index), c);
    if a.trie[t].leaf {
      LeafUndecided(a.terms, a.trie, a.v, a.node, t);
    } else if Below(a.terms, q[..i] + [c]) && t !in a.v.done {
      var k :| 0 <= k < |a.keys| && a.keys[k].index == t;
      LeafFlag(a, k);
      assert false;
    }
  }

  lemma LeafUndecided(terms: seq<Key>, units: seq<Unit>, v: View, node: PT.Node, t: nat)
    requires TrieOK(terms, units, v, node) && t < |units| && units[t].Branch? && units[t].leaf
    ensures t !in v.done
  {
    hide Xor, Below, Parts, Fillers, RepsOK, NulFree;
    assert t in v.done ==> Decided(terms, units, v, node, t);
  }

  lemma LeafFlag(a: Account, k: nat)
    requires Finished(a.terms, a.keys, a.trie, a.v, a.node) && k < |a.keys|
    ensures |a.keys| == |a.terms| && LeafKey(a.terms, a.keys, a.trie, a.node, k)
    ensures a.keys[k].index < |a.trie| && a.trie[a.keys[k].index].Branch? && a.trie[a.keys[k].index].leaf
  {
    hide TrieOK, Xor;
  }

  // A letter that no key goes on with: the query is not a key.
  lemma OffPath(a: Account, q: seq<Byte>, i: nat)
    requires Finished(a.terms, a.keys, a.trie, a.v, a.node) && i <= |q| && NulFree(q[..i])
    requires !Below(a.terms, q[..i] + [QueryAt(q, i)])
    ensures forall k :: 0 <= k < |a.keys| ==> a.keys[k].text != Cut(q)
  {
    hide TrieOK, LeafKey, Xor, Cut, NulFree;
    WithinQuery(q, i);
    forall k | 0 <= k < |a.keys| ensures a.keys[k].text != Cut(q) {
      assert a.keys[k].text + [0] == a.terms[k];
    }
  }

  /** At a leaf: the key of the leaf is the only one the query can be, and its stored suffix decides. */
  lemma AtLeaf(a: Account, q: seq<Byte>, i: nat, t: nat, k: nat)
    requires Finished(a.terms, a.keys, a.trie, a.v, a.node) && AllOK(a.keys)
    requires i <= |q| && NulFree(q[..i]) && Leads(a, q, i, t) && a.trie[t].leaf
    requires k < |a.keys| && a.keys[k].index == t
    ensures Spells(q, i, Rest(a.keys[k])) <==> a.keys[k].text == Cut(q)
    ensures Spells(q, i, Rest(a.keys[k])) ==> i + |Rest(a.keys[k])| == |Cut(q)|
    ensures forall j :: 0 <= j < |a.keys| && a.keys[j].text == Cut(q) ==> j == k
  {
    hide TrieOK, Xor, Cut, Below, NulFree;
    LeafFlag(a, k);
    var e, c := a.keys[k], QueryAt(q, i);
    assert e.text + [0] == a.terms[k];
    var p := a.node[t];
    assert EntryOK(e);
    if Below(a.terms, q[..i] + [c]) {
      assert p == q[..i] + [c] && p <= e.text + [0] && e.pos == i;
      PrefixCut(q[..i], c, e.text);
      SpellsOn(q, i, e.text);
      SpellsIsCut(q, e.text);
      WithinQuery(q, i);
      forall j | 0 <= j < |a.keys| && a.keys[j].text == Cut(q) ensures j == k {
        assert a.keys[j].text + [0] == a.terms[j];
      }
    } else {
      OffPath(a, q, i);
      FirstOfRest(e, p);
      NotSpelled(q, i, Rest(e), Last(p));
    }
  }

  lemma PrefixCut(p: Key, c: Byte, text: Key)
    requires p + [c] <= text + [0]
    ensures |p| <= |text| && text[..|p|] == p
  {
    var t := text + [0];
    assert t[..|p| + 1] == p + [c];
    assert p == (p + [c])[..|p|] == t[..|p|] == text[..|p|];
  }

  // A stored suffix starts with the letter of its leaf.
  lemma FirstOfRest(e: Entry, p: Key)
    requires EntryOK(e) && p != [] && p <= e.text + [0] && e.pos == |p| - 1
    ensures (Rest(e) + [0])[0] == Last(p)
  {
    assert (e.text + [0])[|p| - 1] == p[|p| - 1];
  }

  lemma NotSpelled(q: seq<Byte>, i: nat, s: Key, c: Byte)
    requires (s + [0])[0] == c && c != QueryAt(q, i)
    ensures !Spells(q, i, s)
  {
    assert s != [] ==> (s + [0])[0] == s[0];
  }

  // ---- the search ----

  /** The words of an array and a tail that answer the keys of the account. */
  ghost predicate Stored(a: Account, units: seq<Unit>, idMax: nat, words: seq<Word>, tail: seq<Byte>) {
    && Served(a, units, tail)
    && idMax > 0 && (forall x :: 0 <= x < |units| ==> InRange(units[x], idMax))
    && words == Words(units, idMax)
  }

  lemma WordAt(a: Account, units: seq<Unit>, idMax: nat, words: seq<Word>, tail: seq<Byte>, x: nat)
    requires Stored(a, units, idMax, words, tail) && x < |units|
    ensures idMax > 0 && x < |words| && (LeafBit(words[x]) <==> IsLeaf(units[x]))
    ensures units[x].Branch? ==> LetterBits(words[x]) == units[x].letter && OffsetBits(words[x]) == units[x].offset
    ensures units[x].Leaf? ==> IdBits(words[x], idMax) == units[x].valueId && LinkBits(words[x], idMax) == units[x].link
  {
    hide Served, LetterBits, OffsetBits, LeafBit, IdBits, LinkBits, WordOf, IsLeaf;
    WordFields(units[x], idMax);
  }

  /** Follows the letters to a leaf and compares the rest with its suffix, reading bit fields of
      32-bit words: it succeeds exactly on the given keys and yields the value of each, also when
      a step leads to a foreign leaf. */
  method ExactMatch(words: seq<Word>, tail: seq<Byte>, idMax: nat, q: seq<Byte>, ghost a: Account,
      ghost units: seq<Unit>)
    returns (found: bool, value: int, length: nat)
    requires Stored(a, units, idMax, words, tail)
    ensures Answer(a.keys, q, found, value, length)
  {
    hide Served, Stored, Answer, Leads, Stands, Cut, Xor, Reaches, Holds, IsInt32, NulFree;
    hide LetterBits, OffsetBits, LeafBit, IdBits, LinkBits;
    assert Served(a, units, tail) by { StoredServes(a, units, idMax, words, tail); }
    var index, i := 0, 0;
    if a.keys != [] {
      StartsAtRoot(a, units, tail, q);
    }
    while true
      invariant i <= |q|
      invariant a.keys != [] ==> Stands(a, q, i, index)
      invariant a.keys == [] ==> Wanders(i, index)
      decreases |q| - i
    {
      var c := QueryAt(q, i);
      if a.keys != [] {
        StepLeads(a, units, tail, q, i, index);
        UnitAt(a, units, tail, q, i, Xor(index, Xor(units[index].offset, c)));
      } else {
        HollowStep(a, units, tail, i, index, c);
      }
      WordAt(a, units, idMax, words, tail, index);
      var t := Xor(index, Xor(OffsetBits(words[index]), c));
      WordAt(a, units, idMax, words, tail, t);
      if LeafBit(words[t]) {
        ghost var k :| 0 <= k < |a.keys| && a.keys[k].index == t;
        LeafHolds(a, units, tail, k);
        found, value, length :=
          CompareTail(tail, LinkBits(words[t], idMax), IdBits(words[t], idMax), q, i, Rest(a.keys[k]), a.keys[k].value);
        LeafAnswer(a, units, tail, q, i, index, t, k, found, value, length);
        return;
      } else if LetterBits(words[t]) != c {
        if a.keys != [] {
          MissAnswer(a, units, tail, q, i, index, t);
        }
        assert Answer(a.keys, q, false, -1, 0) by { EmptyAnswer(a.keys, q); }
        return false, -1, 0;
      }
      if a.keys != [] {
        StandsNext(a, units, tail, q, i, index, t);
      }
      index, i := t, i + 1;
    }
  }

  lemma StoredServes(a: Account, units: seq<Unit>, idMax: nat, words: seq<Word>, tail: seq<Byte>)
    requires Stored(a, units, idMax, words, tail)
    ensures Served(a, units, tail)
  {
  }

  lemma StartsAtRoot(a: Account, units: seq<Unit>, tail: seq<Byte>, q: seq<Byte>)
    requires a.keys != [] && Served(a, units, tail)
    ensures Stands(a, q, 0, 0)
  {
    hide TrieOK, LeafKey, Reaches, KeysOK;
    assert q[..0] == [];
  }

  // The unit a step leads to is one of the trie, or a leaf with a key of its own.
  lemma UnitAt(a: Account, units: seq<Unit>, tail: seq<Byte>, q: seq<Byte>, i: nat, t: nat)
    requires a.keys != [] && Served(a, units, tail) && Leads(a, q, i, t)
    ensures t < |units| && t < |a.trie| && a.trie[t].Branch?
    ensures !a.trie[t].leaf ==> units[t] == a.trie[t]
    ensures a.trie[t].leaf ==> exists k :: 0 <= k < |a.keys| && a.keys[k].index == t
    ensures a.trie[t].leaf ==> units[t].Leaf?
  {
    hide TrieOK, LeafKey, KeysOK, Xor, Below, Last;
    if a.trie[t].leaf {
      var k :| 0 <= k < |a.keys| && a.keys[k].index == t;
      assert Reaches(units, tail, a.keys[k]);
    }
  }

  lemma LeafHolds(a: Account, units: seq<Unit>, tail: seq<Byte>, k: nat)
    requires a.keys != [] && Served(a, units, tail) && k < |a.keys|
    ensures EntryOK(a.keys[k]) && IsInt32(a.keys[k].value) && a.keys[k].index < |units| && units[a.keys[k].index].Leaf?
    ensures var u := units[a.keys[k].index]; Holds(tail, u.link, u.valueId, Rest(a.keys[k]), a.keys[k].value)
    ensures NulFree(Rest(a.keys[k]))
  {
    hide Finished, Holds;
    assert Reaches(units, tail, a.keys[k]);
  }

  lemma LeafAnswer(a: Account, units: seq<Unit>, tail: seq<Byte>, q: seq<Byte>, i: nat, index: nat, t: nat, k: nat,
                   found: bool, value: int, length: nat)
    requires a.keys != [] && Served(a, units, tail) && Stands(a, q, i, index) && Leads(a, q, i, t)
    requires t < |units| && IsLeaf(units[t]) && k < |a.keys| && a.keys[k].index == t && EntryOK(a.keys[k])
    requires found <==> Spells(q, i, Rest(a.keys[k]))
    requires found ==> value == a.keys[k].value && length == i + |Rest(a.keys[k])|
    requires !found ==> value == -1
    ensures Answer(a.keys, q, found, value, length)
  {
    hide Finished, Spells, Cut, Leads, Rest, Reaches, NulFree;
    UnitAt(a, units, tail, q, i, t);
    assert a.trie[t].leaf;
    AtLeaf(a, q, i, t, k);
  }

  lemma MissAnswer(a: Account, units: seq<Unit>, tail: seq<Byte>, q: seq<Byte>, i: nat, index: nat, t: nat)
    requires a.keys != [] && Served(a, units, tail) && Stands(a, q, i, index) && Leads(a, q, i, t)
    requires t < |units| && units[t].Branch? && !units[t].leaf && units[t].letter != QueryAt(q, i)
    ensures forall k :: 0 <= k < |a.keys| ==> a.keys[k].text != Cut(q)
  {
    hide Finished, Cut, Below, Reaches, NulFree, Last;
    UnitAt(a, units, tail, q, i, t);
    OffPath(a, q, i);
  }

  lemma EmptyAnswer(keys: seq<Entry>, q: seq<Byte>)
    requires forall k :: 0 <= k < |keys| ==> keys[k].text != Cut(q)
    ensures Answer(keys, q, false, -1, 0)
  {
  }

  lemma StandsNext(a: Account, units: seq<Unit>, tail: seq<Byte>, q: seq<Byte>, i: nat, index: nat, t: nat)
    requires a.keys != [] && Served(a, units, tail) && Stands(a, q, i, index) && Leads(a, q, i, t)
    requires t < |units| && units[t].Branch? && !units[t].leaf && units[t].letter == QueryAt(q, i)
    ensures i < |q| && Stands(a, q, i + 1, t)
  {
    hide Finished, Below, Reaches, Last;
    UnitAt(a, units, tail, q, i, t);
    DecidedUnit(a, units, tail, t);
    var c := QueryAt(q, i);
    assert a.node[t][i] == c;
    assert q[..i + 1] == q[..i] + [c];
  }

  // ---- the trie of no keys ----

  // From the root one step may go on, to a filler; from there none does.
  ghost predicate Wanders(i: nat, index: nat) {
    (i == 0 && index == 0) || (i == 1 && 2 <= index < 256)
  }

  lemma HollowStep(a: Account, units: seq<Unit>, tail: seq<Byte>, i: nat, index: nat, c: Byte)
    requires a.keys == [] && Served(a, units, tail) && Wanders(i, index)
    ensures index < |units| && units[index].Branch?
    ensures var t := Xor(index, Xor(units[index].offset, c));
      t < |units| && !IsLeaf(units[t]) && (units[t].letter == c ==> c != 0 && Wanders(i + 1, t))
  {
    hide Xor;
    var t := Xor(index, Xor(units[index].offset, c));
    XorZero(c);
    XorZero(Xor(1, c));
    XorBlock(1, c);
    XorBlock(index, c);
    assert index == 0 ==> t == Xor(1, c);
    assert index >= 2 ==> t == Xor(index, c);
    XorComm(1, c);
    XorComm(t, 1);
    XorCancel(c, 1);
    XorZero(1);
    XorSelf(1);
    XorSelf(0);
    XorBlock(t, 1);
    if index == 0 && t == 1 {
      XorInjective(1, c, 0);
    }
    if index == 0 && t == 0 {
      XorInjective(1, c, 1);
    }
    if index >= 2 {
      SecondStep(index, c);
    }
  }

  // From a filler, the letter of the unit reached is never the letter read.
  lemma SecondStep(index: nat, c: Byte)
    requires 2 <= index < 256
    ensures var t := Xor(index, c);
      && t < 256 && (t == 0 ==> c != 0) && (t == 1 ==> c != 1)
      && (Xor(t, 1) % 256 != c)
  {
    hide Xor;
    var t := Xor(index, c);
    XorBlock(index, c);
    XorZero(index);
    XorCancel(index, c);
    XorBlock(t, 1);
    if t == 1 && c == 1 {
      XorSelf(1);
    }
    if Xor(t, 1) == c {
      XorAssoc(index, c, 1);
      XorComm(c, 1);
      XorAssoc(index, 1, c);
      XorZero(c);
      XorComm(Xor(index, 1), c);
      XorComm(0, c);
      XorInjective(c, Xor(index, 1), 0);
      XorSelf(1);
      XorComm(index, 1);
      XorInjective(1, index, 1);
    }
  }
}
