/** The linear-probing hash table of registered groups: its hash function, its
    invariant, and the pigeonhole argument that every probe ends. */
module DawgTable {
  import opened Bits

  // ---- hashing, in 32-bit arithmetic ----

  const W32: nat := 0x1_0000_0000

  function Hash(key: nat): nat {
    var k1 := (W32 - 1 - key % W32 + key * 0x8000) % W32;
    var k2 := Xor(k1, k1 / 0x1000);
    var k3 := (k2 + k2 * 4) % W32;
    var k4 := Xor(k3, k3 / 0x10);
    var k5 := (k4 * 2057) % W32;
    Xor(k5, k5 / 0x1_0000)
  }

  // The contribution of one sibling: hash((label << 24) ^ unit).
  function Share(tag: Byte, u: Word): nat {
    Hash(Xor(tag * 0x100_0000, u))
  }

  // The hash of a list of siblings, combined by xor from the left.
  function HashSeq(units: seq<Word>, tags: seq<Byte>): nat
    requires |units| == |tags|
  {
    if units == [] then 0
    else Xor(HashSeq(units[..|units| - 1], tags[..|tags| - 1]), Share(tags[|tags| - 1], units[|units| - 1]))
  }

  // From the right the result is the same.
  lemma {:induction false} HashFromRight(units: seq<Word>, tags: seq<Byte>, acc: nat)
    requires |units| == |tags| > 0
    ensures var n := |units|;
            Xor(Xor(acc, Share(tags[n - 1], units[n - 1])), HashSeq(units[..n - 1], tags[..n - 1]))
            == Xor(acc, HashSeq(units, tags))
  {
    hide Share, Xor;
    var n := |units|;
    var a, b := Share(tags[n - 1], units[n - 1]), HashSeq(units[..n - 1], tags[..n - 1]);
    XorAssoc(acc, a, b);
    XorComm(a, b);
  }

  // ---- probing ----

  // The slot reached from home h after e steps in a table of size t.
  function Slot(h: nat, e: nat, t: nat): (p: nat)
    requires h < t && e < t
    ensures p < t
  {
    if h + e < t then h + e else h + e - t
  }

  lemma SlotNext(h: nat, e: nat, t: nat)
    requires h < t && e + 1 < t
    ensures Slot(h, e + 1, t) == (Slot(h, e, t) + 1) % t
  {
    var x := Slot(h, e, t) + 1;
    ModSmall(x, t);
  }

  lemma ModSmall(x: nat, t: nat)
    requires 0 < t && x <= t
    ensures x % t == if x == t then 0 else x
  {
    if x < t { SmallMod(x, t); } else { assert x == t * 1; MultMod(t); }
  }

  lemma SmallMod(x: nat, t: nat)
    requires x < t
    ensures x % t == x
  {
  }

  lemma MultMod(t: nat)
    requires 0 < t
    ensures t % t == 0
  {
  }

  // Every slot is some number of steps from home.
  function Steps(h: nat, p: nat, t: nat): (e: nat)
    requires h < t && p < t
    ensures e < t && Slot(h, e, t) == p
  {
    if p >= h then p - h else p + t - h
  }

  // The first e slots from home are taken.
  ghost predicate Taken(table: seq<nat>, h: nat, e: nat)
    requires h < |table| && e <= |table|
  {
    forall i :: 0 <= i < e ==> table[Slot(h, i, |table|)] != 0
  }

  // ---- the table invariant ----

  /** hash[g] is the hash of group g; dist[g] tells how far from its home g lies. */
  ghost predicate Seated(table: seq<nat>, h: nat, e: nat, g: nat)
    requires h < |table|
  {
    && e < |table| && g != 0
    && table[Slot(h, e, |table|)] == g && Taken(table, h, e)
  }

  function Home(hash: nat, t: nat): (h: nat)
    requires t > 0
    ensures h < t
  {
    hash % t
  }

  ghost predicate TableOK(table: seq<nat>, hash: map<nat, nat>, dist: map<nat, nat>) {
    && |table| > 0
    && hash.Keys == dist.Keys
    && (forall g :: g in hash ==> Seated(table, Home(hash[g], |table|), dist[g], g))
    && (forall p :: 0 <= p < |table| && table[p] != 0 ==>
          table[p] in hash && Slot0(table, hash, dist, table[p]) == p)
  }

  ghost function Slot0(table: seq<nat>, hash: map<nat, nat>, dist: map<nat, nat>, g: nat): int
    requires g in hash
  {
    if |table| > 0 && g in dist && dist[g] < |table| then Slot(Home(hash[g], |table|), dist[g], |table|) else -1
  }

  lemma {:induction false} SeatKeeps(table: seq<nat>, hash: map<nat, nat>, dist: map<nat, nat>, g: nat, k: nat, e: nat)
    requires TableOK(table, hash, dist) && g != 0 && g !in hash
    requires e < |table| && Taken(table, Home(k, |table|), e)
    requires table[Slot(Home(k, |table|), e, |table|)] == 0
    ensures TableOK(table[Slot(Home(k, |table|), e, |table|) := g], hash[g := k], dist[g := e])
  {
    hide Home;
    var t := |table|;
    var p := Slot(Home(k, t), e, t);
    var table' := table[p := g];
    var hash', dist' := hash[g := k], dist[g := e];
    forall x | x in hash'
      ensures Seated(table', Home(hash'[x], t), dist'[x], x)
    {
      if x != g {
        assert Seated(table, Home(hash[x], t), dist[x], x);
      }
    }
  }

  // A probe that met an empty slot after e steps has passed every group with its hash.
  lemma Passed(table: seq<nat>, hash: map<nat, nat>, dist: map<nat, nat>, g: nat, e: nat)
    requires TableOK(table, hash, dist) && g in hash && e < |table|
    requires table[Slot(Home(hash[g], |table|), e, |table|)] == 0
    ensures dist[g] < e
  {
    hide Home;
    assert Seated(table, Home(hash[g], |table|), dist[g], g);
  }

  // ---- there is always an empty slot ----

  lemma {:induction false} DistinctBound(s: seq<nat>, S: set<nat>)
    requires forall i :: 0 <= i < |s| ==> s[i] in S
    requires forall i, j :: 0 <= i < j < |s| ==> s[i] != s[j]
    ensures |s| <= |S|
    decreases |s|
  {
    if s != [] {
      var rest, last := s[..|s| - 1], s[|s| - 1];
      DistinctBound(rest, S - {last});
    }
  }

  /** A table with fewer groups than slots has an empty slot. */
  lemma EmptySlot(table: seq<nat>, hash: map<nat, nat>, dist: map<nat, nat>) returns (p: nat)
    requires TableOK(table, hash, dist) && |hash| < |table|
    ensures p < |table| && table[p] == 0
  {
    hide Home;
    if forall i :: 0 <= i < |table| ==> table[i] != 0 {
      forall i, j | 0 <= i < j < |table| ensures table[i] != table[j] {
        assert Slot0(table, hash, dist, table[i]) == i && Slot0(table, hash, dist, table[j]) == j;
      }
      DistinctBound(table, hash.Keys);
      assert false;
    }
    p :| p < |table| && table[p] == 0;
  }

  // So a probe ends before it has gone round.
  lemma ProbeEnds(table: seq<nat>, hash: map<nat, nat>, dist: map<nat, nat>, h: nat, e: nat)
    requires TableOK(table, hash, dist) && |hash| < |table|
    requires h < |table| && e < |table| && Taken(table, h, e)
    requires table[Slot(h, e, |table|)] != 0
    ensures e + 1 < |table| && Taken(table, h, e + 1)
  {
    hide TableOK;
    var p := EmptySlot(table, hash, dist);
    var z := Steps(h, p, |table|);
    assert z > e;
  }
}
