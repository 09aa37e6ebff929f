/** The builder of the acyclic word graph (`DawgBuilder`). */
module DawgBuilder {
  import opened Bits
  import opened Outcomes
  import opened Languages
  import opened Keyset
  import opened DawgKeys
  import opened Prefixes
  import opened DawgRegistry
  import opened DawgTable
  import opened DawgSpine
  import opened DawgNodes
  import opened BitVector

  // unit() of a node.
  function NodeUnit(node: DawgNode): Word
    requires Packable(NodeItem(node))
  {
    Pack(NodeItem(node), node.isState, node.hasSibling)
  }

  ghost predicate AllPackable(items: seq<Item>) {
    forall i :: 0 <= i < |items| ==> Packable(items[i])
  }

  ghost function GroupHash(items: seq<Item>): nat
    requires AllPackable(items)
  {
    HashSeq(Words(items), TagSeq(items))
  }

  // The registry is in order, and the table holds the groups of S, each where
  // a probe from its home finds it; at most 3/4 of the slots are ever needed.
  ghost predicate StoreOK(units: seq<Word>, labels: seq<Byte>, sem: map<nat, Lang>, cont: map<nat, seq<Item>>,
                          table: seq<nat>, hash: map<nat, nat>, dist: map<nat, nat>, numStates: nat, S: set<nat>) {
    && RegistryOK(units, labels, sem, cont)
    && TableOK(table, hash, dist)
    && hash.Keys == S <= sem.Keys
    && (forall g :: g in cont ==> AllPackable(cont[g]))
    && (forall g :: g in hash ==> hash[g] == GroupHash(cont[g]))
    && |table| % 4 == 0 && numStates == |sem| + 1 <= |table| - |table| / 4
  }

  // The marks of units that are appended.
  ghost function Falses(n: nat): seq<bool> { seq(n, i => false) }

  // Exactly one mark has been set.
  ghost predicate Marked(before: seq<bool>, after: seq<bool>, g: nat) {
    g < |before| && after == before[g := true]
  }

  class DawgBuilder {
    var nodes: seq<DawgNode>
    var units: seq<Word>
    var labels: seq<Byte>
    const marks: BitVector
    var table: seq<nat>
    var nodeStack: seq<nat>
    var recycleBin: seq<nat>
    var numStates: nat
    // registered groups: their dictionaries, their siblings, and where the table holds them
    ghost var sem: map<nat, Lang>
    ghost var cont: map<nat, seq<Item>>
    ghost var hash: map<nat, nat>
    ghost var dist: map<nat, nat>
    // the unregistered part, and a bound on the number of units ever needed
    ghost var t: Tree
    ghost var weight: nat

    ghost predicate Registered()
      reads this, marks
    {
      Mapped(sem.Keys)
    }

    ghost predicate Mapped(S: set<nat>)
      reads this, marks
    {
      && marks.Valid() && marks.size == |units|
      && StoreOK(units, labels, sem, cont, table, hash, dist, numStates, S)
    }

    constructor ()
      ensures fresh(marks) && marks.Valid() && marks.size == 0
      ensures nodes == [] && units == [] && labels == [] && table == []
      ensures nodeStack == [] && recycleBin == [] && numStates == 0
      ensures sem == map[] && cont == map[] && hash == map[] && dist == map[]
    {
      t, weight := Tree([], [], [], -1, false, map[]), 0;
      nodes, units, labels, table, nodeStack, recycleBin, numStates := [], [], [], [], [], [], 0;
      sem, cont, hash, dist := map[], map[], map[], map[];
      marks := new BitVector();
    }

    // ---- are_equal ----

    /** Whether the chain from nodeId has the siblings of the registered group unitId. */
    method AreEqual(nodeId: nat, unitId: nat, ghost group: seq<nat>, ghost items: seq<Item>) returns (r: bool)
      requires Registered() && unitId in cont
      requires ChainOK(nodes, group, items, false) && AllPackable(items) && items != []
      requires nodeId == group[|group| - 1]
      ensures r <==> items == cont[unitId]
    {
      hide Pack, Registered, ChainOK;
      var last := SameLength(nodeId, unitId, group, items);
      if last < unitId {
        return false;
      }
      r := SameSiblings(nodeId, unitId, last, group, items);
    }

    // The last unit of the group when it is as long as the chain, else 0.
    method SameLength(nodeId: nat, unitId: nat, ghost group: seq<nat>, ghost items: seq<Item>) returns (last: nat)
      requires Registered() && unitId in cont
      requires ChainOK(nodes, group, items, false) && items != [] && nodeId == group[|group| - 1]
      ensures 1 <= unitId && last == if |items| == |cont[unitId]| then unitId + |items| - 1 else 0
    {
      hide RegistryOK, TableOK, UnitMore, GroupHash, AllPackable;
      GroupFacts(unitId);
      ChainIds(nodes, group, items, false);
      LinkAt(nodes, group, items, false, |group| - 1);
      ghost var n, m, k := |items|, |cont[unitId]|, 0;
      var i, u := nodes[nodeId].sibling, unitId;
      while i != 0
        invariant 0 <= k < n && k < m && u == unitId + k
        invariant i == (if k + 1 < n then group[n - 2 - k] else 0)
        decreases n - k
      {
        UnitAt(unitId, k);
        if !UnitMore(units[u]) {
          return 0;
        }
        u := u + 1;
        LinkAt(nodes, group, items, false, n - 2 - k);
        i := nodes[i].sibling;
        k := k + 1;
      }
      UnitAt(unitId, k);
      if UnitMore(units[u]) {
        return 0;
      }
      return u;
    }

    method SameSiblings(nodeId: nat, unitId: nat, last: nat, ghost group: seq<nat>,
        ghost items: seq<Item>) returns (r: bool)
      requires Registered() && unitId in cont && |items| == |cont[unitId]| && last == unitId + |items| - 1
      requires ChainOK(nodes, group, items, false) && AllPackable(items) && items != []
      requires nodeId == group[|group| - 1]
      ensures r <==> items == cont[unitId]
    {
      hide Pack, RegistryOK, TableOK, GroupHash;
      ghost var other, n := cont[unitId], |items|;
      GroupFacts(unitId);
      ChainIds(nodes, group, items, false);
      var i, u := nodeId, last;
      ghost var k := n;
      while i != 0
        invariant 0 <= k <= n && u == unitId + k - 1
        invariant i == (if k > 0 then group[k - 1] else 0)
        invariant forall j :: k <= j < n ==> items[j] == other[j]
        decreases k
      {
        UnitAt(unitId, k - 1);
        LinkAt(nodes, group, items, false, k - 1);
        PackEqual(items[k - 1], other[k - 1], k - 1 == 0, k < n);
        if NodeUnit(nodes[i]) != units[u] || nodes[i].tag != labels[u] {
          return false;
        }
        i := nodes[i].sibling;
        u := u - 1;
        k := k - 1;
      }
      assert items == other;
      return true;
    }

    // ---- hash_node, hash_unit ----

    method HashNode(nodeId: nat, ghost group: seq<nat>, ghost items: seq<Item>) returns (h: nat)
      requires ChainOK(nodes, group, items, false) && AllPackable(items) && items != []
      requires nodeId == group[|group| - 1]
      ensures h == GroupHash(items)
    {
      hide Pack, Share, Xor;
      ghost var words, tags, k := Words(items), TagSeq(items), |items|;
      ChainIds(nodes, group, items, false);
      h := 0;
      XorZero(GroupHash(items));
      assert words[..k] == words && tags[..k] == tags;
      var i := nodeId;
      while i != 0
        invariant 0 <= k <= |items|
        invariant i == (if k > 0 then group[k - 1] else 0)
        invariant Xor(h, HashSeq(words[..k], tags[..k])) == GroupHash(items)
        decreases k
      {
        LinkAt(nodes, group, items, false, k - 1);
        HashFromRight(words[..k], tags[..k], h);
        assert words[..k][..k - 1] == words[..k - 1] && tags[..k][..k - 1] == tags[..k - 1];
        h := Xor(h, Share(nodes[i].tag, NodeUnit(nodes[i])));
        i := nodes[i].sibling;
        k := k - 1;
      }
      XorZero(h);
    }

    method HashUnit(id: nat) returns (h: nat)
      requires Mapped(hash.Keys) && id in cont
      ensures h == GroupHash(cont[id])
    {
      hide Pack, Share, Xor, RegistryOK, TableOK, UnitMore;
      GroupFacts(id);
      ghost var items := cont[id];
      ghost var words, tags := Words(items), TagSeq(items);
      h := 0;
      var u := id;
      while true
        invariant id <= u < id + |items|
        invariant h == HashSeq(words[..u - id], tags[..u - id])
        decreases id + |items| - u
      {
        ghost var k := u - id;
        UnitAt(id, k);
        assert words[..k + 1][..k] == words[..k] && tags[..k + 1][..k] == tags[..k];
        h := Xor(h, Share(labels[u], units[u]));
        if !UnitMore(units[u]) {
          break;
        }
        u := u + 1;
      }
      assert words[..|items|] == words && tags[..|items|] == tags;
    }

    // ---- find_node, find_unit ----

    /** Probes for a group equal to the chain; on a miss, hashId is the empty
        slot where the group belongs, e steps from its home. */
    method FindNode(nodeId: nat, ghost group: seq<nat>, ghost items: seq<Item>)
      returns (matchId: nat, hashId: nat, ghost e: nat)
      requires Registered()
      requires ChainOK(nodes, group, items, false) && AllPackable(items) && items != []
      requires nodeId == group[|group| - 1]
      ensures matchId != 0 ==> matchId in cont && cont[matchId] == items
      ensures matchId == 0 ==> forall g :: g in cont ==> cont[g] != items
      ensures matchId == 0 ==> Vacant(table, GroupHash(items), hashId, e)
    {
      hide GroupHash, Home, ChainOK, Registered, Slot, Taken, TableOK, Skipped;
      var key := HashNode(nodeId, group, items);
      TableFacts();
      hashId := Home(key, |table|);
      ghost var h := hashId;
      e := 0;
      ProbeStart(table, cont, h, items);
      while true
        invariant e < |table| && hashId == Slot(h, e, |table|) && Taken(table, h, e)
        invariant Skipped(table, cont, h, e, items)
        decreases |table| - e
      {
        if table[hashId] == 0 {
          MissedAll(items, e);
          return 0, hashId, e;
        }
        OccupantIn(hashId);
        var equal := AreEqual(nodeId, table[hashId], group, items);
        if equal {
          return table[hashId], hashId, e;
        }
        ProbeEnds(table, hash, dist, h, e);
        SlotNext(h, e, |table|);
        SkipOne(table, cont, h, e, items);
        hashId := (hashId + 1) % |table|;
        e := e + 1;
      }
    }

    lemma TableFacts()
      requires Registered()
      ensures TableOK(table, hash, dist) && |hash| < |table| && |table| > 0 && hash.Keys == cont.Keys == sem.Keys
    {
      assert |hash.Keys| == |hash| && |sem.Keys| == |sem|;
    }
    lemma OccupantIn(p: nat)
      requires Registered() && p < |table| && table[p] != 0
      ensures table[p] in cont
    {
    }

    // After e steps to an empty slot without a match, no group has these siblings.
    lemma MissedAll(items: seq<Item>, e: nat)
      requires Registered() && AllPackable(items) && e < |table|
      requires var h := Home(GroupHash(items), |table|);
               table[Slot(h, e, |table|)] == 0 && Skipped(table, cont, h, e, items)
      ensures forall g :: g in cont ==> cont[g] != items
    {
      hide Home, GroupHash, RegistryOK;
      TableFacts();
      forall g | g in cont ensures cont[g] != items {
        if hash[g] == GroupHash(items) {
          Passed(table, hash, dist, g, e);
          assert Seated(table, Home(hash[g], |table|), dist[g], g);
        }
      }
    }

    /** The slot where a group not yet in the table belongs. */
    method FindUnit(id: nat) returns (hashId: nat, ghost e: nat)
      requires Mapped(hash.Keys) && id in cont && |hash| < |table|
      ensures e < |table| && Taken(table, Home(GroupHash(cont[id]), |table|), e)
      ensures hashId == Slot(Home(GroupHash(cont[id]), |table|), e, |table|) && table[hashId] == 0
    {
      hide GroupHash, Home, RegistryOK, TableOK, UnitMore;
      var key := HashUnit(id);
      hashId := Home(key, |table|);
      ghost var h := hashId;
      e := 0;
      while table[hashId] != 0
        invariant e < |table| && hashId == Slot(h, e, |table|) && Taken(table, h, e)
        decreases |table| - e
      {
        ProbeEnds(table, hash, dist, h, e);
        SlotNext(h, e, |table|);
        hashId := (hashId + 1) % |table|;
        e := e + 1;
      }
    }

    // ---- expand_table ----

    /** Doubles the table and seats every registered group again. */
    method ExpandTable()
      requires Registered()
      modifies this`table, this`hash, this`dist
      ensures Registered() && |table| == 2 * |old(table)|
    {
      hide GroupHash, Home, RegistryOK, TableOK, LooksLikeHead, AllPackable, Mapped;
      HeadsAre();
      ClearTable();
      var i := 1;
      while i < |units|
        invariant 1 <= i <= |units|
        invariant |table| == 2 * |old(table)|
        invariant forall g :: g in hash <==> g in sem && g < i
        invariant Mapped(hash.Keys)
      {
        if LooksLikeHead(units, labels, i) {
          Seat(i);
        }
        i := i + 1;
      }
      assert hash.Keys == sem.Keys;
    }

    method ClearTable()
      requires Registered()
      modifies this`table, this`hash, this`dist
      ensures Mapped({}) && hash.Keys == {} && |table| == 2 * |old(table)|
    {
      hide StoreOK;
      StoreCleared(units, labels, sem, cont, table, hash, dist, numStates);
      table := seq(2 * |table|, _ => 0);
      hash, dist := map[], map[];
    }

    method Seat(id: nat)
      requires Mapped(hash.Keys) && id in cont && id in sem && id !in hash && id != 0
      modifies this`table, this`hash, this`dist
      ensures Mapped(hash.Keys) && hash.Keys == old(hash).Keys + {id} && |table| == |old(table)|
    {
      hide GroupHash, Home, RegistryOK, TableOK;
      FewSeated(hash.Keys, sem.Keys);
      assert |hash.Keys| == |hash| && |sem.Keys| == |sem|;
      var hashId, e := FindUnit(id);
      SeatKeeps(table, hash, dist, id, GroupHash(cont[id]), e);
      table := table[hashId := id];
      hash, dist := hash[id := GroupHash(cont[id])], dist[id := e];
    }

    // ---- the registration step of flush ----

    method AppendUnit() returns (id: nat)
      requires marks.Valid() && marks.size == |units| == |labels|
      modifies this`units, this`labels, marks
      ensures marks.Valid() && marks.size == |units| == |labels|
      ensures id == |old(units)| && units == old(units) + [0] && labels == old(labels) + [0]
      ensures marks.bits == old(marks.bits) + [false]
    {
      marks.Append();
      units := units + [0];
      labels := labels + [0];
      id := marks.size - 1;
    }

    method CountSiblings(nodeId: nat, ghost group: seq<nat>, ghost items: seq<Item>) returns (num: nat)
      requires ChainOK(nodes, group, items, false) && items != [] && nodeId == group[|group| - 1]
      ensures num == |items|
    {
      ChainIds(nodes, group, items, false);
      num := 0;
      var i := nodeId;
      while i != 0
        invariant 0 <= num <= |items|
        invariant i == (if num < |items| then group[|group| - 1 - num] else 0)
        decreases |items| - num
      {
        LinkAt(nodes, group, items, false, |group| - 1 - num);
        num := num + 1;
        i := nodes[i].sibling;
      }
    }

    /** Appends the chain as a new group of units, smallest label first. */
    method AppendGroup(nodeId: nat, num: nat, ghost group: seq<nat>, ghost items: seq<Item>) returns (first: nat)
      requires marks.Valid() && marks.size == |units| == |labels|
      requires ChainOK(nodes, group, items, false) && AllPackable(items) && items != []
      requires nodeId == group[|group| - 1] && num == |items| && |units| >= 1
      modifies this`units, this`labels, marks
      ensures marks.Valid() && marks.size == |units| && first == |old(units)|
      ensures units == old(units) + Words(items) && labels == old(labels) + TagSeq(items)
      ensures marks.bits == old(marks.bits) + Falses(num)
    {
      hide ChainOK, Words, TagSeq, AllPackable;
      ghost var n := |units|;
      var unitId := AppendAll(num);
      first := FillGroup(nodeId, unitId, n, group, items);
      assert units == units[..n] + units[n..] && labels == labels[..n] + labels[n..];
    }

    method FillGroup(nodeId: nat, lastId: nat, ghost n: nat, ghost group: seq<nat>, ghost items: seq<Item>)
      returns (first: nat)
      requires ChainOK(nodes, group, items, false) && AllPackable(items) && items != []
      requires nodeId == group[|group| - 1] && lastId == n + |items| - 1 && |units| == |labels| == n + |items| && n >= 1
      modifies this`units, this`labels
      ensures |units| == |labels| == n + |items| && first == n
      ensures units[..n] == old(units)[..n] && labels[..n] == old(labels)[..n]
      ensures units[n..] == Words(items) && labels[n..] == TagSeq(items)
    {
      hide Words, TagSeq, Pack;
      ChainIds(nodes, group, items, false);
      var i, unitId := nodeId, lastId;
      ghost var k := |items|;
      while i != 0
        invariant 0 <= k <= |items| && unitId == n + k - 1
        invariant i == (if k > 0 then group[k - 1] else 0)
        invariant |units| == |labels| == n + |items|
        invariant units[..n] == old(units)[..n] && labels[..n] == old(labels)[..n]
        invariant units[n + k..] == Words(items)[k..] && labels[n + k..] == TagSeq(items)[k..]
        decreases k
      {
        LinkAt(nodes, group, items, false, k - 1);
        FillStep(units, n, k, Words(items));
        FillStep(labels, n, k, TagSeq(items));
        units := units[unitId := NodeUnit(nodes[i])];
        labels := labels[unitId := nodes[i].tag];
        i := nodes[i].sibling;
        unitId := unitId - 1;
        k := k - 1;
      }
      first := unitId + 1;
    }

    method AppendAll(num: nat) returns (unitId: nat)
      requires marks.Valid() && marks.size == |units| == |labels|
      modifies this`units, this`labels, marks
      ensures marks.Valid() && marks.size == |units| == |labels| == |old(units)| + num
      ensures units[..|old(units)|] == old(units) && labels[..|old(units)|] == old(labels)
      ensures num > 0 ==> unitId == |units| - 1
      ensures marks.bits == old(marks.bits) + Falses(num)
    {
      unitId := 0;
      var i := 0;
      assert old(marks.bits) + Falses(0) == old(marks.bits);
      while i < num
        invariant 0 <= i <= num
        invariant marks.Valid() && marks.size == |units| == |labels| == |old(units)| + i
        invariant units[..|old(units)|] == old(units) && labels[..|old(units)|] == old(labels)
        invariant i > 0 ==> unitId == |units| - 1
        invariant marks.bits == old(marks.bits) + Falses(i)
      {
        unitId := AppendUnit();
        assert old(marks.bits) + Falses(i) + [false] == old(marks.bits) + Falses(i + 1);
        i := i + 1;
      }
    }

    /** Registers the chain: an equal group is reused and marked as shared, otherwise the chain
        becomes a new group, not shared yet, and enters the table. */
    method Register(nodeId: nat, ghost group: seq<nat>, ghost items: seq<Item>) returns (matchId: nat)
      requires Registered()
      requires ChainOK(nodes, group, items, false) && items != [] && nodeId == group[|group| - 1]
      requires Ordered(items) && ItemsOK(items, sem)
      modifies this`units, this`labels, this`table, this`numStates, this`sem, this`cont, this`hash, this`dist, marks
      ensures Registered() && Grows(old(sem), sem)
      ensures matchId in sem && sem[matchId] == ItemsLang(items, old(sem))
      ensures forall h :: h in sem && sem[h] == ItemsLang(items, old(sem)) ==> h == matchId
      ensures |units| <= |old(units)| + |items|
      ensures if matchId in old(sem) then units == old(units) && Marked(old(marks.bits), marks.bits, matchId)
              else matchId == |old(units)| && marks.bits == old(marks.bits) + Falses(|items|)
    {
      hide RegistryOK, TableOK, GroupHash, ItemsLang, Home, Ordered;
      PackableItems(items, sem);
      if numStates >= |table| - |table| / 4 {
        ExpandTable();
      }
      var num := CountSiblings(nodeId, group, items);
      var hashId;
      ghost var e;
      matchId, hashId, e := FindNode(nodeId, group, items);
      if matchId != 0 {
        MatchFacts(matchId, items);
        marks.Set(matchId, true);
      } else {
        matchId := RegisterNew(nodeId, num, hashId, group, items, e);
      }
      OnlyOne(matchId);
    }

    lemma OnlyOne(g: nat)
      requires Registered() && g in sem
      ensures forall h :: h in sem && sem[h] == sem[g] ==> h == g
    {
      hide RegistryOK, TableOK, GroupHash;
      forall h | h in sem && sem[h] == sem[g] ensures h == g {
        Minimal(units, labels, sem, cont, g, h);
      }
    }

    method RegisterNew(nodeId: nat, num: nat, hashId: nat, ghost group: seq<nat>, ghost items: seq<Item>, ghost e: nat)
      returns (matchId: nat)
      requires Registered() && numStates < |table| - |table| / 4
      requires ChainOK(nodes, group, items, false) && items != [] && nodeId == group[|group| - 1]
      requires Ordered(items) && ItemsOK(items, sem) && AllPackable(items) && num == |items|
      requires forall g :: g in cont ==> cont[g] != items
      requires Vacant(table, GroupHash(items), hashId, e)
      modifies this`units, this`labels, this`table, this`numStates, this`sem, this`cont, this`hash, this`dist, marks
      ensures Registered() && Grows(old(sem), sem)
      ensures matchId in sem && sem[matchId] == ItemsLang(items, old(sem))
      ensures |units| == |old(units)| + |items|
      ensures matchId == |old(units)| && matchId !in old(sem) && marks.bits == old(marks.bits) + Falses(|items|)
    {
      hide GroupHash, ItemsLang, Ordered, Vacant, AllPackable, ChainOK, StoreOK, ItemsOK;
      ghost var n := |units|;
      StoreGrows(units, labels, sem, cont, table, hash, dist, numStates, items, hashId, e);
      matchId := AppendGroup(nodeId, num, group, items);
      table := table[hashId := matchId];
      numStates := numStates + 1;
      sem, cont := sem[n := ItemsLang(items, sem)], cont[n := items];
      hash, dist := hash[n := GroupHash(items)], dist[n := e];
    }

    lemma MatchFacts(g: nat, items: seq<Item>)
      requires Registered() && g in cont && cont[g] == items
      ensures g in sem && g < |units| && ItemsOK(items, sem) && sem[g] == ItemsLang(items, sem)
    {
      hide TableOK, GroupHash, ItemsLang;
      assert GroupOK(units, labels, sem, cont, g);
    }

    // ---- the whole state ----

    ghost predicate Valid()
      reads this, marks
    {
      && Registered()
      && TreeOK(nodes, recycleBin, nodeStack, t)
      && SpineOK(t.levels, t.path, sem)
      && |units| + Live(t.groups) <= weight < CHILD_LIMIT
    }

    // The dictionary inserted so far.
    ghost function Meaning(): Lang
      reads this, marks
      requires Valid()
    {
      Dict(t.levels, t.path, sem)
    }

    // ---- append_node ----

    method AppendNode() returns (id: nat)
      requires TreeOK(nodes, recycleBin, nodeStack, t)
      modifies this`nodes, this`recycleBin
      ensures TreeOK(nodes, recycleBin, nodeStack, t) && Spare(nodes, recycleBin, t, id)
    {
      hide DepthOK, SeatsOK, StackOK;
      ghost var nodes0, bin0 := nodes, recycleBin;
      if recycleBin == [] {
        id := |nodes|;
        nodes := nodes + [FRESH_NODE];
      } else {
        id := recycleBin[|recycleBin| - 1];
        nodes := nodes[id := FRESH_NODE];
        recycleBin := recycleBin[..|recycleBin| - 1];
      }
      UnusedKeeps(nodes0, nodes, bin0, recycleBin, nodeStack, t, id);
    }

    // ---- flush ----

    // The nodes of a chain go to the recycle bin, newest first.
    method FreeChain(nodeId: nat, ghost group: seq<nat>, ghost items: seq<Item>)
      requires ChainOK(nodes, group, items, false) && items != [] && nodeId == group[|group| - 1]
      modifies this`recycleBin
      ensures recycleBin == old(recycleBin) + Reversed(group)
    {
      ChainIds(nodes, group, items, false);
      var i := nodeId;
      ghost var k := 0;
      while i != 0
        invariant 0 <= k <= |group|
        invariant i == (if k < |group| then group[|group| - 1 - k] else 0)
        invariant recycleBin == old(recycleBin) + Reversed(group)[..k]
        decreases |group| - k
      {
        LinkAt(nodes, group, items, false, |group| - 1 - k);
        recycleBin := recycleBin + [i];
        i := nodes[i].sibling;
        k := k + 1;
      }
    }

    /** One turn of flush: the chain on top of the stack is registered and freed,
        and the node below it on the stack gets the group as its child. */
    method FlushGroup() returns (ghost g: nat)
      requires Valid() && t.armed && t.promised != |t.path| && t.levels[|t.path|] != []
      modifies this`nodes, this`units, this`labels, this`table, this`nodeStack, this`recycleBin, this`numStates,
               this`sem, this`cont, this`hash, this`dist, marks
      ensures Registered() && Grows(old(sem), sem)
      ensures g in sem && sem[g] == ItemsLang(t.levels[|t.path|], old(sem)) && g < |units|
      ensures |units| <= |old(units)| + |t.groups[|t.path|]|
      ensures var below := old(nodeStack)[|old(nodeStack)| - 2];
              below < |old(nodes)| && nodes == old(nodes)[below := old(nodes)[below].(child := g)]
      ensures recycleBin == old(recycleBin) + Reversed(t.groups[|t.path|])
      ensures nodeStack == old(nodeStack)[..|old(nodeStack)| - 1]
    {
      hide StoreOK, ItemsLang, Dict, ChainOK, Reversed, SeatsOK, BinOK;
      ghost var m := |t.path|;
      TopFacts();
      var nodeId := nodeStack[|nodeStack| - 1];
      nodeStack := nodeStack[..|nodeStack| - 1];
      var matchId := Register(nodeId, t.groups[m], t.levels[m]);
      MatchBound(matchId);
      FreeChain(nodeId, t.groups[m], t.levels[m]);
      var top := nodeStack[|nodeStack| - 1];
      nodes := nodes[top := nodes[top].(child := matchId)];
      g := matchId;
    }

    lemma TopFacts()
      requires Valid() && t.armed && t.promised != |t.path| && t.levels[|t.path|] != []
      ensures var m := |t.path|;
              && ChainOK(nodes, t.groups[m], t.levels[m], false)
              && |t.groups[m]| == |t.levels[m]| && nodeStack[|nodeStack| - 1] == t.groups[m][|t.groups[m]| - 1]
              && Ordered(t.levels[m]) && ItemsOK(t.levels[m], sem)
              && |nodeStack| == m + 2 && nodeStack[m] < |nodes|
    {
      hide StoreOK, SeatsOK, BinOK, LinkOK;
      var m := |t.path|;
      assert DepthOK(nodes, t, m);
      if m > 0 {
        assert DepthOK(nodes, t, m - 1);
        assert nodeStack[m] == Newest(t.groups[m - 1]) != 0;
        ChainIds(nodes, t.groups[m - 1], ChainItems(t, m - 1), m - 1 == t.promised);
      }
    }

    lemma MatchBound(g: nat)
      requires Registered() && g in sem
      ensures g < |units|
    {
      hide TableOK, GroupHash, AllPackable;
      OldInRange(units, labels, sem, cont);
    }

    /** A turn of flush that stays above the root keeps the dictionary. */
    method FlushTop()
      requires Valid() && t.armed && t.promised != |t.path| && t.levels[|t.path|] != [] && t.path != []
      modifies this`nodes, this`units, this`labels, this`table, this`nodeStack, this`recycleBin, this`numStates,
               this`sem, this`cont, this`hash, this`dist, this`t, marks
      ensures Valid() && Meaning() == old(Meaning())
      ensures t.armed && t.promised == old(t).promised && t.path == old(t).path[..|old(t).path| - 1]
      ensures t.groups == old(t).groups[..|old(t).path|]
      ensures t.levels[..|t.path|] == old(t).levels[..|t.path|]
      ensures |t.levels[|t.path|]| == |old(t).levels[|t.path|]| + 1
      ensures t.levels[|t.path|][..|old(t).levels[|t.path|]|] == old(t).levels[|t.path|]
      ensures t.levels[|t.path|][|old(t).levels[|t.path|]|].tag == old(t).path[|t.path|]
      ensures weight == old(weight)
    {
      hide StoreOK, ItemsLang, Dict, TreeOK, ItemsOK, Ordered, Below;
      ghost var t0, m, sem0 := t, |t.path|, sem;
      ShapeNow();
      NonEmptyNow(m);
      LiveLast(t.groups);
      ghost var nodes0, bin0, stack0 := nodes, recycleBin, nodeStack;
      ghost var g := FlushGroup();
      CollapseTree(nodes0, bin0, stack0, t0, g);
      CollapseDict(t0.levels, t0.path, sem0, sem, g);
      t := CollapsedTree(t0, g);
    }

    lemma ShapeNow()
      requires Valid()
      ensures Shape(t) && |nodeStack| == StackSize(t)
    {
    }

    lemma NonEmptyNow(m: nat)
      requires Valid() && m == |t.path| && t.levels[m] != []
      ensures ItemsOK(t.levels[m], sem) && ItemsLang(t.levels[m], sem) != map[]
    {
      hide StoreOK, TreeOK, ItemsLang;
      ItemsNonEmpty(t.levels[m], sem);
    }

    /** flush(id) for the newest node id at depth p: everything deeper is
        registered, and the node leaves the stack. */
    method FlushTo(id: nat, ghost p: nat, ghost c: Byte)
      requires Valid() && t.armed && p <= |t.path| && t.promised == p && t.levels[|t.path|] != []
      requires id == Newest(t.groups[p])
      requires Below(t.levels[p], c) && (p < |t.path| ==> t.path[p] < c)
      modifies this`nodes, this`units, this`labels, this`table, this`nodeStack, this`recycleBin, this`numStates,
               this`sem, this`cont, this`hash, this`dist, this`t, marks
      ensures Valid() && Meaning() == old(Meaning())
      ensures !t.armed && t.promised == |t.path| == p && t.path == old(t).path[..p]
      ensures Below(t.levels[p], c) && weight == old(weight)
      ensures t.groups == old(t).groups[..p + 1]
    {
      hide StoreOK, Dict, TreeOK, ItemsOK, Ordered, ItemsLang;
      TopIs(p);
      ShapeNow();
      while nodeStack[|nodeStack| - 1] != id
        invariant Valid() && Shape(t) && Meaning() == old(Meaning())
        invariant t.armed && p <= |t.path| <= |old(t).path| && t.promised == p && t.levels[|t.path|] != []
        invariant id == Newest(t.groups[p]) && t.path == old(t).path[..|t.path|]
        invariant Below(t.levels[p], c) && (p < |t.path| ==> t.path[p] < c)
        invariant nodeStack != [] && (nodeStack[|nodeStack| - 1] == id <==> |t.path| == p)
        invariant weight == old(weight) && t.groups == old(t).groups[..|t.path| + 1]
        decreases |t.path|
      {
        FlushTop();
        ShapeNow();
        TopIs(p);
      }
      DisarmNow();
      nodeStack := nodeStack[..|nodeStack| - 1];
      t := t.(armed := false);
    }

    // The top of the stack is the newest node of depth p only at depth p.
    lemma TopIs(p: nat)
      requires Valid() && t.armed && p <= |t.path| && t.levels[|t.path|] != []
      ensures nodeStack != [] && t.groups[p] != []
      ensures nodeStack[|nodeStack| - 1] == Newest(t.groups[p]) <==> |t.path| == p
    {
      hide StoreOK, BinOK, LinkOK;
      var m := |t.path|;
      assert nodeStack[m + 1] == Newest(t.groups[m]) != 0;
      assert nodeStack[p + 1] == Newest(t.groups[p]) != 0;
      NewestSeat(t, m);
      NewestSeat(t, p);
    }

    lemma DisarmNow()
      requires Valid() && t.armed
      ensures nodeStack != [] && TreeOK(nodes, recycleBin, nodeStack[..|nodeStack| - 1], t.(armed := false))
    {
      DisarmKeeps(nodes, recycleBin, nodeStack, t);
    }

    // ---- insert ----

    // Between two insertions: nothing inserted yet, or the last key is on the stack.
    ghost predicate Ready()
      reads this, marks
    {
      && Valid()
      && (if t.armed then t.promised == -1 && 0 !in t.path && Ended(t.levels[|t.path|])
          else t.path == [] && t.levels == [[]] && t.promised == 0)
    }

    // The label that the last key has at depth j, 0 at its end.
    lemma WalkFacts(j: nat)
      requires Ready() && j <= |t.path|
      ensures var up := if j == 0 then 0 else Newest(t.groups[j - 1]);
              && up < |nodes|
              && nodes[up].child == Newest(t.groups[j])
              && (Newest(t.groups[j]) == 0 <==> !t.armed)
              && (t.armed ==> Newest(t.groups[j]) < |nodes| && nodes[Newest(t.groups[j])].tag == CharAt(t.path, j))
    {
      hide StoreOK, BinOK, LinkOK, Dict, SpineOK, SeatsOK, Live;
      if t.armed {
        assert nodeStack[j + 1] == Newest(t.groups[j]) != 0;
        DepthNewest(j);
        if j > 0 {
          assert nodeStack[j] == Newest(t.groups[j - 1]) != 0;
          DepthNewest(j - 1);
        }
      } else {
        assert DepthOK(nodes, t, 0);
      }
    }

    lemma DepthNewest(j: nat)
      requires Ready() && t.armed && j <= |t.path| && Newest(t.groups[j]) != 0
      ensures 0 < Newest(t.groups[j]) < |nodes|
      ensures nodes[Newest(t.groups[j])].tag == CharAt(t.path, j)
      ensures j < |t.path| ==> nodes[Newest(t.groups[j])].child == Newest(t.groups[j + 1])
    {
      hide StoreOK, BinOK, LinkOK, Dict;
      assert DepthOK(nodes, t, j);
      LinkAt(nodes, t.groups[j], ChainItems(t, j), false, |t.groups[j]| - 1);
    }

    /** The first loop of insert: walks down while the key agrees with the last
        one.  Stops at depth `depth`, with node `id` above it, and tells how the
        bytes read compare there; child 0 means that nothing has been inserted yet. */
    method WalkDown(buffer: seq<Byte>, length: nat) returns (order: Order, id: nat, depth: nat, childId: nat)
      requires Ready() && length < |buffer|
      ensures !t.armed ==> order.First? && depth == 0
      ensures t.armed ==> 0 !in t.path && (order, depth) == Walk(buffer, length, t.path, 0)
      ensures !order.Same? ==> depth <= |t.path|
      ensures !order.Same? ==> id == if depth == 0 then 0 else Newest(t.groups[depth - 1])
      ensures !order.Same? ==> childId == Newest(t.groups[depth])
    {
      hide StoreOK, TreeOK, Dict, SpineOK;
      ShapeNow();
      id, depth := 0, 0;
      childId := 0;
      while depth <= length
        invariant depth <= length + 1 && (depth <= length ==> depth <= |t.path|)
        invariant depth > 0 ==> t.armed
        invariant t.armed ==> Walk(buffer, length, t.path, depth) == Walk(buffer, length, t.path, 0)
        invariant depth <= length ==> id == if depth == 0 then 0 else Newest(t.groups[depth - 1])
        decreases length + 1 - depth
      {
        WalkFacts(depth);
        childId := nodes[id].child;
        if childId == 0 {
          return First, id, depth, childId;
        }
        var keyLabel := buffer[depth];
        if depth < length && keyLabel == 0 {
          return Null, id, depth, childId;
        }
        var unitLabel := nodes[childId].tag;
        if keyLabel < unitLabel {
          return Less, id, depth, childId;
        } else if keyLabel > unitLabel {
          return More, id, depth, childId;
        }
        id := childId;
        depth := depth + 1;
      }
      return Same, id, depth, childId;
    }

    // The writes that hang a new node below node id and push it.
    method Attach(id: nat, c: Byte) returns (childId: nat, ghost before: seq<DawgNode>)
      requires Shape(t) && TreeOK(nodes, recycleBin, nodeStack, t) && !t.armed && t.promised == |t.path|
          && id == Above(t)
      modifies this`nodes, this`recycleBin, this`nodeStack
      ensures TreeOK(before, recycleBin, old(nodeStack), t)
      ensures Added(before, nodes, t, childId, c) && childId !in t.seat && childId !in recycleBin
      ensures nodeStack == old(nodeStack) + [childId]
    {
      hide TreeOK;
      childId := AppendNode();
      before := nodes;
      AboveNow();
      if nodes[id].child == 0 {
        nodes := nodes[childId := nodes[childId].(isState := true)];
      }
      nodes := nodes[childId := nodes[childId].(sibling := nodes[id].child)];
      nodes := nodes[childId := nodes[childId].(tag := c)];
      nodes := nodes[id := nodes[id].(child := childId)];
      nodeStack := nodeStack + [childId];
    }

    lemma AboveNow()
      requires TreeOK(nodes, recycleBin, nodeStack, t) && !t.armed
      ensures Above(t) < |nodes| && nodes[Above(t)].child == Newest(t.groups[|t.path|])
      ensures Above(t) != 0 ==> Above(t) in t.seat
      ensures t.groups[|t.path|] != [] ==> Newest(t.groups[|t.path|]) != 0
    {
      hide LinkOK, BinOK;
      AboveFacts(nodes, recycleBin, nodeStack, t);
      assert DepthOK(nodes, t, |t.path|);
      ChainIds(nodes, t.groups[|t.path|], ChainItems(t, |t.path|), |t.path| == t.promised);
    }

    method AddOpen(id: nat, c: Byte) returns (childId: nat)
      requires Shape(t) && TreeOK(nodes, recycleBin, nodeStack, t) && !t.armed && t.promised == |t.path|
          && id == Above(t)
      modifies this`nodes, this`recycleBin, this`nodeStack, this`t
      ensures TreeOK(nodes, recycleBin, nodeStack, t) && t == WithOpen(old(t), childId, c) && childId == Above(t)
      ensures Live(t.groups) == Live(old(t).groups) + 1
    {
      hide TreeOK;
      ghost var stack0 := nodeStack;
      ghost var before;
      childId, before := Attach(id, c);
      AddOpenKeeps(before, nodes, recycleBin, stack0, t, childId, c);
      LiveOpen(t.groups, childId);
      t := WithOpen(t, childId, c);
    }

    method AddLeaf(id: nat) returns (childId: nat)
      requires Shape(t) && TreeOK(nodes, recycleBin, nodeStack, t) && !t.armed && t.promised == |t.path|
          && id == Above(t)
      modifies this`nodes, this`recycleBin, this`nodeStack, this`t
      ensures TreeOK(nodes, recycleBin, nodeStack, t) && t == WithLeaf(old(t), childId)
      ensures Live(t.groups) == Live(old(t).groups) + 1
    {
      hide TreeOK;
      ghost var stack0 := nodeStack;
      ghost var before;
      childId, before := Attach(id, 0);
      AddLeafKeeps(before, nodes, recycleBin, stack0, t, childId);
      LiveOpen(t.groups, childId);
      t := WithLeaf(t, childId);
    }

    /** The second loop of insert: one new node per byte of the key from `depth`
        on, then one for its end, which takes the value. */
    method Grow(key: Key, depth: nat, above: nat, value: nat)
      requires Shape(t) && TreeOK(nodes, recycleBin, nodeStack, t) && !t.armed && t.promised == |t.path| == depth
      requires depth < |key| && t.path == key[..depth] && above == Above(t)
      modifies this`nodes, this`recycleBin, this`nodeStack, this`t
      ensures TreeOK(nodes, recycleBin, nodeStack, t)
      ensures t.armed && t.promised == -1 && t.path == key
      ensures t.levels == Extended(old(t).levels, old(t).path, key, value)
      ensures Live(t.groups) == Live(old(t).groups) + (|key| - depth) + 1
    {
      hide TreeOK, Live, Branch;
      var id, pos := above, depth;
      while pos < |key|
        invariant depth <= pos <= |key|
        invariant Shape(t) && TreeOK(nodes, recycleBin, nodeStack, t) && !t.armed && t.promised == |t.path| == pos
        invariant t.path == key[..pos] && id == Above(t)
        invariant t.levels == old(t).levels + Blank(pos - depth)
        invariant Live(t.groups) == Live(old(t).groups) + (pos - depth)
      {
        BlankStep(pos - depth);
        id := AddOpen(id, key[pos]);
        assert key[..pos + 1] == key[..pos] + [key[pos]];
        pos := pos + 1;
      }
      ghost var k := |key| - depth;
      BlankLast(k - 1, value);
      assert t.levels[|key|] == [] by { assert t.levels[|key|] == Blank(k)[k - 1]; }
      ghost var before := t.levels;
      id := AddLeaf(id);
      assert t.levels[|t.path|] == [] + [Item(0, 0)] && t.levels[..|key|] == before[..|key|];
      SetValue(id, value);
      assert t.levels == before[..|key|] + [[Item(0, value)]] by { assert [] + [Item(0, value)] == [Item(0, value)]; }
      assert before[..|key|] == old(t).levels + Blank(k - 1);
      assert t.levels == old(t).levels + Blank(k - 1) + [[Item(0, value)]];
    }

    method SetValue(id: nat, value: nat)
      requires Shape(t) && TreeOK(nodes, recycleBin, nodeStack, t) && t.levels[|t.path|] == [] + [Item(0, 0)]
      requires id == Newest(t.groups[|t.path|])
      modifies this`nodes, this`t
      ensures TreeOK(nodes, recycleBin, nodeStack, t) && t == WithValue(old(t), [], value)
    {
      hide TreeOK;
      ValueKeeps(nodes, recycleBin, nodeStack, t, [], value);
      nodes := nodes[id := nodes[id].(child := value)];
      t := WithValue(t, [], value);
    }

    /** insert: adds the key with its value unless the key is there already.  The keys must come in
        byte order and not be empty; a zero byte is refused exactly on the part of the key shared with
        the last one, and elsewhere becomes a label like any other. */
    method Insert(buffer: seq<Byte>, length: nat, value: int) returns (r: Outcome)
      requires Ready() && value < VALUE_LIMIT && weight + length + 1 < CHILD_LIMIT
      requires length < |buffer| && buffer[length] == 0
      modifies this, marks
      ensures r.Done? <==> Accepts(old(t).path, old(t).armed, buffer[..length], value)
      ensures r.Failed? ==> r.error == InsertError(old(t).path, old(t).armed, buffer[..length], value)
      ensures r.Done? ==> t.path == buffer[..length] && t.armed && TreeOK(nodes, recycleBin, nodeStack, t)
      ensures r.Done? && 0 !in buffer[..length] ==> Ready() && weight <= old(weight) + length + 1
      ensures r.Done? && 0 !in buffer[..length] ==>
          var L, key := old(Meaning()), buffer[..length];
          Meaning() == if key in L then L else L[key := value]
    {
      hide StoreOK, TreeOK, Dict, SpineOK, LexLeq, Live, Walk, ZeroShared;
      var key := buffer[..length];
      if value < 0 {
        return Failed(NegativeValue);
      } else if length == 0 {
        return Failed(EmptyKey);
      }
      ShapeNow();
      var order, id, depth, childId := WalkDown(buffer, length);
      if t.armed {
        NullIff(buffer, length, t.path);
        WalkMeaning(buffer, length, t.path);
      }
      match order {
        case First =>
          LexFirst(key);
          EmptyMeaning();
          InsertBelow(key, value, depth, id);
        case Null =>
          return Failed(InvalidNull);
        case Same =>
          LexSelf(key);
          PathInNow();
          TreeNow();
          return Done;
        case Less =>
          LexLess(key, t.path, depth);
          return Failed(WrongOrder);
        case More =>
          LexMore(key, t.path, depth);
          BeyondNow(key, depth);
          Announce(childId, depth);
          FlushTo(childId, depth, key[depth]);
          InsertBelow(key, value, depth, id);
      }
      r := Done;
    }

    lemma TreeNow()
      requires Valid()
      ensures TreeOK(nodes, recycleBin, nodeStack, t)
    {
    }

    lemma EmptyMeaning()
      requires Ready() && !t.armed
      ensures Meaning() == map[]
    {
      hide StoreOK, TreeOK;
      assert t.levels[0] == [];
    }

    lemma PathInNow()
      requires Ready() && t.armed
      ensures t.path in Meaning()
    {
      hide StoreOK, TreeOK, Dict;
      assert 0 in Tags(t.levels[|t.path|]);
      PathIn(t.levels, t.path, sem);
    }

    // The key is larger than all that hangs at depth p, so it is new.
    lemma BeyondNow(key: Key, p: nat)
      requires Ready() && t.armed && p <= |t.path| && p <= |key| && key[..p] == t.path[..p]
      requires CharAt(key, p) > CharAt(t.path, p)
      ensures p < |key| && Below(t.levels[p], key[p]) && (p < |t.path| ==> t.path[p] < key[p])
      ensures key !in Meaning()
    {
      hide StoreOK, TreeOK, Dict;
      BeyondNew(t.levels, t.path, sem, key, p);
    }

    method Announce(childId: nat, ghost p: nat)
      requires Ready() && t.armed && p <= |t.path| && childId == Newest(t.groups[p])
      modifies this`nodes, this`t
      ensures Valid() && t == old(t).(promised := p) && childId < |nodes| && Meaning() == old(Meaning())
    {
      hide StoreOK, Dict, DepthOK, SeatsOK, BinOK;
      assert nodeStack[p + 1] == Newest(t.groups[p]) != 0;
      PromiseKeeps(nodes, recycleBin, nodeStack, t, p);
      nodes := nodes[childId := nodes[childId].(hasSibling := true)];
      t := t.(promised := p);
    }

    method InsertBelow(key: Key, value: nat, depth: nat, id: nat)
      requires Valid() && !t.armed && t.promised == |t.path| == depth
      requires depth < |key| && t.path == key[..depth] && value < VALUE_LIMIT
      requires Below(t.levels[depth], key[depth]) && id == Above(t)
      requires weight + |key| + 1 < CHILD_LIMIT && key !in Meaning()
      modifies this`nodes, this`recycleBin, this`nodeStack, this`t, this`weight
      ensures t.armed && t.path == key && TreeOK(nodes, recycleBin, nodeStack, t)
      ensures 0 !in key ==> Ready() && weight == old(weight) + |key| + 1
      ensures 0 !in key ==> Meaning() == old(Meaning())[key := value]
    {
      hide StoreOK, TreeOK, Dict, SpineOK, Live, Branch, Below;
      ShapeNow();
      ghost var t0 := t;
      assert t0.path < key;
      if 0 !in key {
        ExtendDict(t0.levels, t0.path, sem, key, value);
      }
      Grow(key, depth, id, value);
      weight := weight + |key| + 1;
      assert t.levels[|key|] == Branch(|key| - depth - 1, value)[|key| - depth - 1];
    }

    // ---- init, finish ----

    method Init()
      requires marks.Valid() && marks.size == 0
      requires nodes == [] && units == [] && labels == [] && table == []
      requires nodeStack == [] && recycleBin == [] && numStates == 0
      requires sem == map[] && cont == map[] && hash == map[] && dist == map[]
      modifies this, marks
      ensures Ready() && !t.armed && Meaning() == map[] && weight == 1 && t.path == []
    {
      hide *;
      nodes := [DawgNode(0, 0, 0, false, false)];
      var id := AppendUnit();
      StartFields();
      InitReady();
    }

    method StartFields()
      requires nodes == [DawgNode(0, 0, 0, false, false)]
      modifies this`nodes, this`table, this`numStates, this`nodeStack, this`t, this`weight
      ensures |table| == 1024 && (forall p :: 0 <= p < 1024 ==> table[p] == 0)
      ensures nodes == [DawgNode(0, 0, 255, false, false)] && nodeStack == [0] && numStates == 1
      ensures weight == 1 && t == Tree([[]], [[]], [], 0, false, map[])
    {
      table := seq(1024, _ => 0);
      numStates := 1;
      nodes := [nodes[0].(tag := 255)];
      nodeStack := [0];
      t, weight := Tree([[]], [[]], [], 0, false, map[]), 1;
    }

    lemma InitReady()
      requires marks.Valid() && marks.size == 1 && |table| == 1024 && (forall p :: 0 <= p < 1024 ==> table[p] == 0)
      requires units == [0] && labels == [0] && nodes == [DawgNode(0, 0, 255, false, false)] && nodeStack == [0]
      requires recycleBin == [] && numStates == 1 && weight == 1 && t == Tree([[]], [[]], [], 0, false, map[])
      requires sem == map[] && cont == map[] && hash == map[] && dist == map[]
      ensures Ready() && Meaning() == map[]
    {
      hide StoreOK, TreeOK, SpineOK, Dict, Live;
      InitStore(table);
      InitTree(nodes, t);
      InitSpine(sem);
      assert sem.Keys == {};
      EmptyMeaning();
    }

    // The root has its child group g, which stands for the dictionary L.
    ghost predicate Closed(L: Lang)
      reads this, marks
    {
      && Registered() && |units| <= weight < CHILD_LIMIT
      && |nodes| > 0 && nodeStack == [0]
      && (exists child :: RootOK(nodes, child) && (if L == map[] then child == 0 else child in sem && sem[child] == L))
    }

    // Some depths are not registered yet.
    ghost predicate Unfinished(L: Lang)
      reads this, marks
    {
      Valid() && t.armed && t.promised == -1 && t.levels[|t.path|] != [] && Meaning() == L
    }

    /** flush(0): all depths are registered, last of all the one below the root. */
    method FlushAll(ghost L: Lang)
      requires Ready() && t.armed && Meaning() == L
      modifies this`nodes, this`units, this`labels, this`table, this`nodeStack, this`recycleBin, this`numStates,
               this`sem, this`cont, this`hash, this`dist, this`t, marks
      ensures Closed(L)
    {
      hide Valid, Closed, Unfinished, Dict;
      assert Unfinished(L) by { ReadyUnfinished(L); }
      ghost var closed := false;
      TopNotRoot(L);
      while nodeStack[|nodeStack| - 1] != 0
        invariant nodeStack != []
        invariant if closed then Closed(L) else Unfinished(L)
        invariant closed <==> nodeStack[|nodeStack| - 1] == 0
        decreases |nodeStack|
      {
        closed := FlushStep(L);
        if closed { ClosedStack(L); } else { TopNotRoot(L); }
      }
    }

    method FlushStep(ghost L: Lang) returns (ghost closed: bool)
      requires Unfinished(L)
      modifies this`nodes, this`units, this`labels, this`table, this`nodeStack, this`recycleBin, this`numStates,
               this`sem, this`cont, this`hash, this`dist, this`t, marks
      ensures if closed then Closed(L) else Unfinished(L)
      ensures |nodeStack| < |old(nodeStack)|
    {
      hide StoreOK, ItemsLang, Dict, TreeOK, ItemsOK, Ordered, Below, Live;
      ghost var t0, m, sem0 := t, |t.path|, sem;
      ShapeNow();
      NonEmptyNow(m);
      LiveLast(t.groups);
      ghost var nodes0, bin0, stack0 := nodes, recycleBin, nodeStack;
      RootNow();
      ghost var g := FlushGroup();
      closed := m == 0;
      if m > 0 {
        CollapseTree(nodes0, bin0, stack0, t0, g);
        CollapseDict(t0.levels, t0.path, sem0, sem, g);
        t := CollapsedTree(t0, g);
      } else {
        DictRoot(t0.levels, sem0);
        assert RootOK(nodes, g);
      }
    }

    lemma ReadyUnfinished(L: Lang)
      requires Ready() && t.armed && Meaning() == L
      ensures Unfinished(L)
    {
      hide Valid, Dict;
    }

    lemma TopNotRoot(L: Lang)
      requires Unfinished(L)
      ensures nodeStack != [] && nodeStack[|nodeStack| - 1] != 0
    {
      hide StoreOK, Dict, SpineOK, DepthOK, SeatsOK, BinOK;
    }

    lemma ClosedStack(L: Lang)
      requires Closed(L)
      ensures nodeStack == [0]
    {
    }

    lemma RootNow()
      requires Valid() && t.armed
      ensures |nodeStack| == |t.path| + 2 && nodeStack[0] == 0 && |nodes| > 0
      ensures RootOK(nodes, Newest(t.groups[0]))
    {
      hide StoreOK, Dict, SpineOK, DepthOK, SeatsOK, BinOK;
    }

    /** finish: registers what is left, stores the root and builds the rank index.
        The root's child group stands for the whole dictionary. */
    method Finish()
      requires Ready()
      modifies this, marks
      ensures Finished(units, labels, sem, cont, old(Meaning()))
      ensures marks.Valid() && marks.Built() && marks.size == |units|
    {
      hide StoreOK, TreeOK, SpineOK, Dict, Live, Valid, GroupOK;
      ghost var L := Meaning();
      ArmedNow();
      if nodeStack[|nodeStack| - 1] != 0 {
        FlushAll(L);
      } else {
        NeverInserted();
      }
      CloseRoot(L);
      ghost var units0, labels0 := units, labels;
      units := units[0 := NodeUnit(nodes[0])];
      labels := labels[0 := nodes[0].tag];
      nodes, table, nodeStack, recycleBin := [], [], [], [];
      marks.Build();
    }

    lemma ArmedNow()
      requires Ready()
      ensures nodeStack != [] && (t.armed <==> nodeStack[|nodeStack| - 1] != 0)
    {
      hide StoreOK, Dict, SpineOK, DepthOK, SeatsOK, BinOK;
    }

    lemma NeverInserted()
      requires Ready() && !t.armed
      ensures Closed(map[]) && Meaning() == map[]
    {
      hide StoreOK, Dict, DepthOK, SeatsOK, BinOK, Live;
      EmptyMeaning();
      DepthZero();
      assert RootOK(nodes, 0);
    }

    lemma DepthZero()
      requires Ready() && !t.armed
      ensures t.groups[0] == []
    {
      assert DepthOK(nodes, t, 0);
    }

    lemma CloseRoot(L: Lang)
      requires Closed(L)
      ensures |nodes| > 0 && |units| == |labels| >= 1 && Packable(NodeItem(nodes[0]))
      ensures marks.Valid() && marks.size == |units|
      ensures Finished(units[0 := NodeUnit(nodes[0])], labels[0 := nodes[0].tag], sem, cont, L)
    {
      hide TableOK, GroupHash, AllPackable, GroupOK, Pack;
      var child :| RootOK(nodes, child) && (if L == map[] then child == 0 else child in sem && sem[child] == L);
      OldInRange(units, labels, sem, cont);
      RootUnit(units, labels, sem, cont, child);
    }

    lemma HeadsAre()
      requires Registered()
      ensures |units| == |labels| >= 1
      ensures forall id :: 1 <= id < |units| ==> (LooksLikeHead(units, labels, id) <==> id in sem)
      ensures forall g :: g in sem ==> 1 <= g < |units|
      ensures cont.Keys == sem.Keys
    {
      hide LooksLikeHead, GroupHash, TableOK;
      OldInRange(units, labels, sem, cont);
    }

    lemma GroupFacts(g: nat)
      requires RegistryOK(units, labels, sem, cont) && g in cont
      ensures 1 <= g && cont[g] != [] && g + |cont[g]| <= |units| == |labels|
      ensures AllPackable(cont[g]) && g in sem
    {
      hide Pack, ItemsLang;
      assert GroupOK(units, labels, sem, cont, g);
      forall i | 0 <= i < |cont[g]| ensures Packable(cont[g][i]) {
        assert ItemOK(cont[g][i], sem);
      }
    }

    lemma UnitAt(g: nat, i: nat)
      requires RegistryOK(units, labels, sem, cont) && g in cont && i < |cont[g]|
      ensures g + i < |units| == |labels| && Packable(cont[g][i])
      ensures units[g + i] == Pack(cont[g][i], i == 0, i + 1 < |cont[g]|)
      ensures labels[g + i] == cont[g][i].tag
      ensures UnitMore(units[g + i]) == (i + 1 < |cont[g]|)
    {
      hide Pack, ItemsLang, UnitMore;
      assert GroupOK(units, labels, sem, cont, g);
      assert ItemOK(cont[g][i], sem);
      PackReads(cont[g][i], i == 0, i + 1 < |cont[g]|);
    }
  }

  lemma PackEqual(a: Item, b: Item, first: bool, more: bool)
    requires Packable(a) && Packable(b)
    ensures a == b <==> Pack(a, first, more) == Pack(b, first, more) && a.tag == b.tag
  {
    hide Pack;
    PackReads(a, first, more);
    PackReads(b, first, more);
  }

  lemma EmptyTableOK(table: seq<nat>)
    requires |table| > 0 && forall p :: 0 <= p < |table| ==> table[p] == 0
    ensures TableOK(table, map[], map[])
  {
  }

  lemma FewSeated(A: set<nat>, B: set<nat>)
    requires A <= B
    ensures |A| <= |B|
  {
    assert B == A + (B - A);
  }

  lemma PackableItems(items: seq<Item>, sem: map<nat, Lang>)
    requires ItemsOK(items, sem)
    ensures AllPackable(items)
  {
    forall i | 0 <= i < |items| ensures Packable(items[i]) { assert ItemOK(items[i], sem); }
  }

  // hashId is the empty slot that a probe for hash value k meets first, after e steps.
  ghost predicate Vacant(table: seq<nat>, k: nat, hashId: nat, e: nat) {
    && e < |table| && Taken(table, Home(k, |table|), e)
    && hashId == Slot(Home(k, |table|), e, |table|) && table[hashId] == 0
  }

  lemma SeatVacant(table: seq<nat>, hash: map<nat, nat>, dist: map<nat, nat>, g: nat, k: nat, hashId: nat, e: nat)
    requires TableOK(table, hash, dist) && g != 0 && g !in hash && Vacant(table, k, hashId, e)
    ensures hashId < |table| && TableOK(table[hashId := g], hash[g := k], dist[g := e])
  {
    hide TableOK, Home, Taken;
    SeatKeeps(table, hash, dist, g, k, e);
  }

  lemma FillStep<T>(s: seq<T>, n: nat, k: nat, w: seq<T>)
    requires 0 < k <= |w| && |s| == n + |w| && s[n + k..] == w[k..]
    ensures var s' := s[n + k - 1 := w[k - 1]];
            s'[..n] == s[..n] && s'[n + (k - 1)..] == w[k - 1..]
  {
    var s' := s[n + k - 1 := w[k - 1]];
    assert s'[n + (k - 1)..] == [w[k - 1]] + s[n + k..];
  }

  lemma StoreGrows(units: seq<Word>, labels: seq<Byte>, sem: map<nat, Lang>, cont: map<nat, seq<Item>>,
                   table: seq<nat>, hash: map<nat, nat>, dist: map<nat, nat>, numStates: nat,
                   items: seq<Item>, hashId: nat, e: nat)
    requires StoreOK(units, labels, sem, cont, table, hash, dist, numStates, sem.Keys)
    requires numStates < |table| - |table| / 4 && AllPackable(items)
    requires NewGroup(units, sem, cont, items) && Vacant(table, GroupHash(items), hashId, e)
    ensures |units| == |labels| >= 1 && |units| !in sem && hashId < |table|
    ensures var n := |units|;
            var sem' := sem[n := ItemsLang(items, sem)];
            StoreOK(units + Words(items), labels + TagSeq(items), sem', cont[n := items], table[hashId := n],
                    hash[n := GroupHash(items)], dist[n := e], numStates + 1, sem'.Keys)
  {
    hide RegistryOK, TableOK, GroupHash, ItemsLang, Vacant, AllPackable, Ordered, ItemsOK, Words, TagSeq;
    var n := |units|;
    StoreHeads(units, labels, sem, cont);
    RegisterKeeps(units, labels, sem, cont, items);
    SeatVacant(table, hash, dist, n, GroupHash(items), hashId, e);
    var sem' := sem[n := ItemsLang(items, sem)];
    assert sem'.Keys == sem.Keys + {n};
    assert |sem'.Keys| == |sem'| && |sem.Keys| == |sem|;
  }

  lemma StoreHeads(units: seq<Word>, labels: seq<Byte>, sem: map<nat, Lang>, cont: map<nat, seq<Item>>)
    requires RegistryOK(units, labels, sem, cont)
    ensures |units| == |labels| >= 1 && |units| !in sem && cont.Keys == sem.Keys
  {
    OldInRange(units, labels, sem, cont);
  }

  // The groups in the first e slots from home h differ from the given siblings.
  ghost predicate Skipped(table: seq<nat>, cont: map<nat, seq<Item>>, h: nat, e: nat, items: seq<Item>)
    requires h < |table| && e <= |table|
  {
    forall i :: 0 <= i < e ==>
      var g := table[Slot(h, i, |table|)]; g in cont && cont[g] != items
  }

  lemma ProbeStart(table: seq<nat>, cont: map<nat, seq<Item>>, h: nat, items: seq<Item>)
    requires h < |table|
    ensures Slot(h, 0, |table|) == h && Taken(table, h, 0) && Skipped(table, cont, h, 0, items)
  {
  }

  lemma SkipOne(table: seq<nat>, cont: map<nat, seq<Item>>, h: nat, e: nat, items: seq<Item>)
    requires h < |table| && e < |table| && Skipped(table, cont, h, e, items)
    requires table[Slot(h, e, |table|)] in cont && cont[table[Slot(h, e, |table|)]] != items
    ensures Skipped(table, cont, h, e + 1, items)
  {
  }

  lemma StoreCleared(units: seq<Word>, labels: seq<Byte>, sem: map<nat, Lang>, cont: map<nat, seq<Item>>,
                     table: seq<nat>, hash: map<nat, nat>, dist: map<nat, nat>, numStates: nat)
    requires StoreOK(units, labels, sem, cont, table, hash, dist, numStates, sem.Keys)
    ensures StoreOK(units, labels, sem, cont, seq(2 * |table|, _ => 0), map[], map[], numStates, {})
  {
    hide RegistryOK, GroupHash, AllPackable;
    EmptyTableOK(seq(2 * |table|, _ => 0));
  }

  // The number of nodes in use.
  ghost function Live(groups: seq<seq<nat>>): nat {
    if groups == [] then 0 else Live(groups[..|groups| - 1]) + |groups[|groups| - 1]|
  }

  lemma LiveLast(groups: seq<seq<nat>>)
    requires groups != []
    ensures Live(groups) == Live(groups[..|groups| - 1]) + |groups[|groups| - 1]|
  {
  }

  // A depth that holds just the value of a key.
  ghost predicate Ended(items: seq<Item>) {
    |items| == 1 && items[0].tag == 0
  }

  /** The exception insert throws when it does not accept. */
  ghost function InsertError(path: Key, armed: bool, key: Key, value: int): Error {
    if value < 0 then NegativeValue
    else if key == [] then EmptyKey
    else if armed && ZeroShared(path, key) then InvalidNull
    else WrongOrder
  }

  // What the walk says of a terminated key.
  lemma WalkMeaning(buffer: seq<Byte>, length: nat, path: Key)
    requires length < |buffer| && buffer[length] == 0 && 0 !in path
    ensures var (order, d) := Walk(buffer, length, path, 0);
      var key := buffer[..length];
      && !order.First?
      && (!order.Same? ==> d <= |path| && d <= |key| && key[..d] == path[..d])
      && (order.Same? ==> key == path)
      && (order.Less? ==> CharAt(key, d) < CharAt(path, d))
      && (order.More? ==> CharAt(key, d) > CharAt(path, d))
  {
    hide Walk;
    assert buffer[..0] == path[..0];
    WalkStops(buffer, length, path, 0);
    var (order, d) := Walk(buffer, length, path, 0);
    if !order.Same? {
      assert buffer[..length][..d] == buffer[..d];
    } else {
      assert |path| == length;
      assert path[..length] == path;
    }
  }

  lemma LiveOpen(groups: seq<seq<nat>>, id: nat)
    requires groups != []
    ensures var m := |groups| - 1;
            && Live(groups[..m] + [groups[m] + [id]]) == Live(groups) + 1
            && Live(groups[..m] + [groups[m] + [id], []]) == Live(groups) + 1
  {
    var m := |groups| - 1;
    var a, b := groups[..m] + [groups[m] + [id]], groups[..m] + [groups[m] + [id], []];
    assert a[..m] == groups[..m];
    assert b[..m + 1] == a;
  }

  ghost function Blank(k: nat): (r: seq<seq<Item>>)
    ensures |r| == k && forall i :: 0 <= i < k ==> r[i] == []
  {
    seq(k, _ => [])
  }

  lemma BlankStep(k: nat)
    ensures Blank(k + 1) == Blank(k) + [[]]
  {
  }

  lemma BlankLast(k: nat, value: nat)
    ensures Blank(k) + [[Item(0, value)]] == Branch(k, value)
  {
    hide Branch;
  }

  lemma DictRoot(levels: seq<seq<Item>>, sem: map<nat, Lang>)
    requires SpineOK(levels, [], sem)
    ensures ItemsOK(levels[0], sem) && Dict(levels, [], sem) == ItemsLang(levels[0], sem)
  {
  }

  lemma InitStore(table: seq<nat>)
    requires |table| == 1024 && forall p :: 0 <= p < 1024 ==> table[p] == 0
    ensures StoreOK([0], [0], map[], map[], table, map[], map[], 1, {})
  {
    hide TableOK;
    EmptyTableOK(table);
  }

  lemma InitTree(nodes: seq<DawgNode>, t: Tree)
    requires nodes == [DawgNode(0, 0, 255, false, false)] && t == Tree([[]], [[]], [], 0, false, map[])
    ensures TreeOK(nodes, [], [0], t) && Live(t.groups) == 0
  {
    assert DepthOK(nodes, t, 0);
    LiveLast(t.groups);
    assert t.groups[..0] == [];
  }

  lemma InitSpine(sem: map<nat, Lang>)
    ensures SpineOK([[]], [], sem)
  {
  }

  /** The finished graph: its groups are in order, and unit 0 leads to the group
      of the whole dictionary. */
  ghost predicate Finished(units: seq<Word>, labels: seq<Byte>, sem: map<nat, Lang>, cont: map<nat, seq<Item>>,
      L: Lang) {
    && RegistryOK(units, labels, sem, cont)
    && var root := UnitChild(units[0]);
       if L == map[] then root == 0 else root in sem && sem[root] == L
  }

  lemma RootUnit(units: seq<Word>, labels: seq<Byte>, sem: map<nat, Lang>, cont: map<nat, seq<Item>>, child: nat)
    requires RegistryOK(units, labels, sem, cont) && child < CHILD_LIMIT
    ensures var u := Pack(Item(255, child), false, false);
            UnitChild(u) == child && RegistryOK(units[0 := u], labels[0 := 255], sem, cont)
  {
    hide Pack, UnitIsState, ItemsLang;
    var u := Pack(Item(255, child), false, false);
    PackReads(Item(255, child), false, false);
    var units', labels' := units[0 := u], labels[0 := 255];
    forall g | g in sem ensures GroupOK(units', labels', sem, cont, g) {
      assert GroupOK(units, labels, sem, cont, g);
    }
    forall id | 1 <= id < |units'| ensures LooksLikeHead(units', labels', id) <==> id in sem {
      assert LooksLikeHead(units, labels, id) <==> id in sem;
    }
  }

  // ---- build_dawg ----

  /** The dictionary of key-value pairs: the first pair of equal keys wins. */
  function PairDict(keys: seq<Key>, values: seq<int>): Lang
    requires |keys| == |values|
  {
    if keys == [] then map[]
    else
      var n := |keys| - 1;
      var L := PairDict(keys[..n], values[..n]);
      if keys[n] in L || values[n] < 0 then L else L[keys[n] := values[n]]
  }

  /** What the graph demands: no empty keys, no zero bytes, no negative values, byte order. */
  ghost predicate Insertable(keys: seq<Key>, values: seq<int>)
    requires |keys| == |values|
  {
    && (forall i :: 0 <= i < |keys| ==> keys[i] != [] && 0 !in keys[i] && values[i] >= 0)
    && (forall i, j :: 0 <= i < j < |keys| ==> LexLeq(keys[i], keys[j]))
  }

  /** Pair i is the first that is refused, for this reason. */
  ghost predicate FirstRefused(keys: seq<Key>, values: seq<int>, i: nat, error: Error)
    requires |keys| == |values|
  {
    && i < |keys| && Insertable(keys[..i], values[..i])
    && match error
       case NegativeValue => values[i] < 0
       case EmptyKey => values[i] >= 0 && keys[i] == []
       case InvalidNull => values[i] >= 0 && 0 in keys[i]
       case WrongOrder =>
         values[i] >= 0 && keys[i] != [] && 0 !in keys[i] && i > 0 && !LexLeq(keys[i - 1], keys[i])
       case _ => false
  }

  lemma {:induction false} LexTrans(a: Key, b: Key, c: Key)
    requires LexLeq(a, b) && LexLeq(b, c)
    ensures LexLeq(a, c)
    decreases |a|
  {
    if a != [] && a[0] == b[0] == c[0] { LexTrans(a[1..], b[1..], c[1..]); }
  }

  // One more pair in byte order after the others.
  lemma InsertableStep(keys: seq<Key>, values: seq<int>, n: nat)
    requires |keys| == |values| && n < |keys|
    ensures Insertable(keys[..n + 1], values[..n + 1]) <==>
              && Insertable(keys[..n], values[..n]) && keys[n] != [] && 0 !in keys[n] && values[n] >= 0
              && (n > 0 ==> LexLeq(keys[n - 1], keys[n]))
  {
    hide LexLeq;
    var ks, vs := keys[..n + 1], values[..n + 1];
    if Insertable(ks, vs) {
      forall i | 0 <= i < n ensures keys[..n][i] == ks[i] && values[..n][i] == vs[i] { }
      assert ks[n] == keys[n] && vs[n] == values[n];
      if n > 0 { assert ks[n - 1] == keys[n - 1] && LexLeq(ks[n - 1], ks[n]); }
    }
    if && Insertable(keys[..n], values[..n]) && keys[n] != [] && 0 !in keys[n] && values[n] >= 0
       && (n > 0 ==> LexLeq(keys[n - 1], keys[n])) {
      forall i, j | 0 <= i < j < |ks| ensures LexLeq(ks[i], ks[j]) {
        if j < n {
          assert ks[i] == keys[..n][i] && ks[j] == keys[..n][j];
        } else if i < n - 1 {
          assert ks[i] == keys[..n][i] && keys[n - 1] == keys[..n][n - 1];
          LexTrans(ks[i], keys[n - 1], keys[n]);
        }
      }
      forall i | 0 <= i < |ks| ensures ks[i] != [] && 0 !in ks[i] && vs[i] >= 0 {
        if i < n { assert ks[i] == keys[..n][i] && vs[i] == values[..n][i]; }
      }
    }
  }

  lemma InsertablePrefix(keys: seq<Key>, values: seq<int>, n: nat)
    requires |keys| == |values| && n <= |keys| && Insertable(keys, values)
    ensures Insertable(keys[..n], values[..n])
  {
    hide LexLeq;
    forall i | 0 <= i < n ensures keys[..n][i] == keys[i] && values[..n][i] == values[i] { }
  }

  lemma {:induction false} TotalPrefix(keys: seq<Key>, n: nat)
    requires n < |keys|
    ensures TotalLength(keys[..n]) + |keys[n]| + 1 == TotalLength(keys[..n + 1])
    ensures TotalLength(keys[..n + 1]) <= TotalLength(keys)
    decreases |keys|
  {
    assert keys[..n + 1][..n] == keys[..n];
    if n + 1 < |keys| {
      var m := |keys| - 1;
      TotalPrefix(keys[..m], n);
      assert keys[..m][..n] == keys[..n] && keys[..m][..n + 1] == keys[..n + 1];
    } else {
      assert keys[..n + 1] == keys;
    }
  }

  /** build_dawg: inserts all pairs and finishes.  It succeeds exactly on the
      insertable lists, and the graph then stands for their dictionary. */
  method BuildDawg(buffers: seq<seq<Byte>>, lengths: seq<nat>, values: seq<int>, ghost keys: seq<Key>)
    returns (r: Outcome, d: DawgBuilder)
    requires Backed(buffers, lengths) && keys == KeysOf(buffers, lengths) && |keys| == |values|
    requires Watched(keys) && forall i :: 0 <= i < |keys| ==> values[i] < VALUE_LIMIT
    requires TotalLength(keys) + 1 < CHILD_LIMIT
    ensures r.Done? <==> Insertable(keys, values)
    ensures r.Failed? ==> r.error != TooLargeOffset && exists i :: FirstRefused(keys, values, i, r.error)
    ensures fresh(d) && fresh(d.marks)
    ensures r.Done? ==> Finished(d.units, d.labels, d.sem, d.cont, PairDict(keys, values))
    ensures r.Done? ==> d.marks.Valid() && d.marks.Built() && d.marks.size == |d.units|
  {
    hide LexLeq, Insertable, PairDict, TotalLength, Dict, Finished, StoreOK, TreeOK, SpineOK, ZeroShared, FirstRefused;
    d := new DawgBuilder();
    d.Init();
    var i := 0;
    NothingYet(keys, values);
    while i < |buffers|
      invariant 0 <= i <= |buffers|
      invariant fresh(d) && fresh(d.marks) && d.Ready() && d.weight <= TotalLength(keys[..i]) + 1
      invariant Insertable(keys[..i], values[..i])
      invariant d.Meaning() == PairDict(keys[..i], values[..i])
      invariant d.t.armed <==> i > 0
      invariant d.t.path == if i == 0 then [] else keys[i - 1]
    {
      TotalPrefix(keys, i);
      InsertableStep(keys, values, i);
      LexFirst(keys[i]);
      SharedHasZero(d.t.path, keys[i]);
      r := d.Insert(buffers[i], lengths[i], values[i]);
      if r.Failed? {
        NotInsertable(keys, values, i);
        Refused(keys, values, i, r.error);
        return;
      }
      PairStep(keys, values, i);
      i := i + 1;
    }
    assert keys[..i] == keys && values[..i] == values;
    d.Finish();
    r := Done;
  }

  lemma Refused(keys: seq<Key>, values: seq<int>, i: nat, error: Error)
    requires |keys| == |values| && i < |keys| && Insertable(keys[..i], values[..i]) && Watched(keys)
    requires var path := if i == 0 then [] else keys[i - 1];
      !Accepts(path, i > 0, keys[i], values[i]) && error == InsertError(path, i > 0, keys[i], values[i])
    ensures error != TooLargeOffset && FirstRefused(keys, values, i, error)
  {
    hide ZeroShared, Insertable;
    SharedHasZero(if i == 0 then [] else keys[i - 1], keys[i]);
    LexFirst(keys[i]);
  }

  lemma SharedHasZero(path: Key, key: Key)
    ensures ZeroShared(path, key) ==> 0 in key
  {
  }

  lemma NothingYet(keys: seq<Key>, values: seq<int>)
    requires |keys| == |values|
    ensures Insertable(keys[..0], values[..0]) && PairDict(keys[..0], values[..0]) == map[]
        && TotalLength(keys[..0]) == 0
  {
  }

  lemma NotInsertable(keys: seq<Key>, values: seq<int>, n: nat)
    requires |keys| == |values| && n < |keys| && !Insertable(keys[..n + 1], values[..n + 1])
    ensures !Insertable(keys, values)
  {
    hide Insertable;
    if Insertable(keys, values) { InsertablePrefix(keys, values, n + 1); }
  }

  lemma PairStep(keys: seq<Key>, values: seq<int>, n: nat)
    requires |keys| == |values| && n < |keys| && values[n] >= 0
    ensures var L := PairDict(keys[..n], values[..n]);
            PairDict(keys[..n + 1], values[..n + 1]) == if keys[n] in L then L else L[keys[n] := values[n]]
  {
    assert keys[..n + 1][..n] == keys[..n] && values[..n + 1][..n] == values[..n];
  }
}
