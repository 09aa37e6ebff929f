/** The builder of the minimal prefix trie (`DoubleArrayBuilder` in src/include/darts-clone.h). */
module PrefixTrieBuilder {
  import opened Bits
  import opened Languages
  import opened FreeList
  import opened SuffixUnits
  import opened SuffixTail
  import opened BuilderInvariant
  import opened BuilderSteps
  import opened PT = PrefixTrie
  import opened PrefixTrieRanges
  import opened PrefixTriePlacing

  class TrieBuilder {
    ghost const terms: seq<Key>
    var keys: seq<Entry>
    var units: seq<Unit>
    /** The extras of the last sixteen blocks: the vector of a block that leaves the
        window is handed to the block that enters it. */
    var extras: Extras
    var head: nat
    ghost var v: View
    ghost var node: PT.Node

    ghost predicate Valid()
      reads this
    {
      WindowOK(|units|, extras, head, v) && TrieOK(terms, units, v, node) && Plain(units)
    }

    ghost predicate Steady()
      reads this
    {
      v.hole == {} && v.low == if |units| > 4096 then |units| - 4096 else 0
    }

    constructor (keys: seq<Entry>)
      requires forall k :: 0 <= k < |keys| ==> keys[k].pos == 0
      ensures this.keys == keys && units == [] && v == NoView() && node == map[]
      ensures terms == Terms(keys) && KeysOK(terms, keys)
      ensures Valid() && Steady()
    {
      this.keys, units, head := keys, [], 0;
      extras := seq(4096, _ => Extra(0, 0, false, false));
      terms, v, node := Terms(keys), NoView(), map[];
    }

    // ---- reserve_index ----

    method Detach(index: nat)
      requires Valid() && index in v.free
      modifies this`extras, this`head, this`v
      ensures Valid()
      ensures v == old(v).(free := v.free, hole := old(v).hole + {index})
      ensures |v.free| == |old(v).free| - 1
      ensures index !in v.free && forall x :: x != index ==> (x in v.free <==> x in old(v).free)
    {
      hide WindowOK, TrieOK, Ex, Unlink, Remove;
      ghost var before, h := extras, head;
      ghost var k :| 0 <= k < |v.free| && v.free[k] == index;
      DetachFacts(k);
      if index == head {
        head := Ex(extras, index).next;
        if head == index {
          head := |units|;
        }
      }
      Unhook(index);
      DetachWindow(|units|, before, h, v, k);
      DetachTrie(terms, units, v, node, k);
      v := Detached(v, k);
    }

    method Unhook(index: nat)
      modifies this`extras
      ensures extras == Unlink(old(extras), index)
    {
      extras := SetNext(extras, Ex(extras, index).prev, Ex(extras, index).next);
      extras := SetPrev(extras, Ex(extras, index).next, Ex(extras, index).prev);
      extras := SetFixed(extras, index, true);
    }

    lemma DetachFacts(k: nat)
      requires Valid() && k < |v.free|
      ensures Ascending(v.free) && Within(v.free, v.low, |units|)
      ensures |Remove(v.free, k)| == |v.free| - 1
      ensures forall x :: x in Remove(v.free, k) <==> x in v.free && x != v.free[k]
    {
      hide TrieOK, Ex, FlagsOK, Ring, Ascending, Remove;
      forall x: nat ensures x in Remove(v.free, k) <==> x in v.free && x != v.free[k] {
        RemoveMembers(v.free, k, x);
      }
      RemoveLength(v.free, k);
    }

    // ---- fix_block ----

    method FindUnused(begin: nat) returns (unused: nat)
      requires Valid() && begin % 256 == 0 && v.low <= begin && begin + 256 <= |units|
      ensures Least(v.used, begin, unused) || Ids(begin, begin + 256) <= v.used
    {
      hide TrieOK, ListOK, Ids;
      unused := 0;
      var offset := begin;
      while offset != begin + 256
        invariant begin <= offset <= begin + 256
        invariant forall w: nat :: begin <= w < offset ==> w in v.used
      {
        assert Ex(extras, offset).used <==> offset in v.used;
        if !Ex(extras, offset).used {
          unused := offset;
          return;
        }
        offset := offset + 1;
      }
    }

    /** The free ids of the lowest block, taken from the head of the list, become fillers. */
    method FixBlock(block: nat)
      requires Valid() && v.hole == {} && v.low == block * 256 && v.low + 256 <= |units|
      modifies this`units, this`extras, this`head, this`v
      ensures Valid() && v.low == block * 256 + 256
      ensures v == old(v).(free := v.free, low := v.low)
      ensures |units| == |old(units)|
      ensures forall id: nat :: id < |units| && (id >= v.low || id in v.owner) ==> units[id] == old(units)[id]
      ensures forall z :: Least(v.used, block * 256, z) ==> Filled(units, v.owner, block * 256, v.low, z)
    {
      hide WindowOK, TrieOK, Ids, Xor, Least, Filled;
      var begin, end := block * 256, block * 256 + 256;
      HeadFirst();
      if head >= end {
        Raise(end);
        NoFillers(begin, end);
        forall z ensures Filled(units, v.owner, begin, end, z) {
          FilledNone(units, v.owner, begin, z);
          FilledOwned(units, v.owner, begin, begin, end, z);
        }
        v := v.(low := end);
        return;
      }
      var unused := FindUnused(begin);
      FilledNone(units, v.owner, begin, unused);
      while head < end
        invariant begin <= v.low <= end && Valid()
        invariant v == old(v).(free := v.free, low := v.low)
        invariant |units| == |old(units)|
        invariant forall x: nat :: x < |units| && (x >= end || x in v.owner) ==> units[x] == old(units)[x]
        invariant Filled(units, v.owner, begin, v.low, unused)
        decreases |v.free|
      {
        FillHead(begin, unused);
      }
      HeadFirst();
      Raise(end);
      NoFillers(v.low, end);
      FilledOwned(units, v.owner, begin, v.low, end, unused);
      v := v.(low := end);
      LeastOnly(v.used, begin, unused);
    }

    /** The first free id becomes a filler. */
    method FillHead(begin: nat, unused: nat)
      requires Valid() && v.hole == {} && begin % 256 == 0 && begin <= v.low <= begin + 256 <= |units|
      requires head < begin + 256
      requires Least(v.used, begin, unused) || Ids(begin, begin + 256) <= v.used
      requires Filled(units, v.owner, begin, v.low, unused)
      modifies this`units, this`extras, this`head, this`v
      ensures Valid() && begin <= v.low <= begin + 256
      ensures v == old(v).(free := v.free, low := v.low) && |v.free| < |old(v).free|
      ensures |units| == |old(units)|
      ensures forall x: nat :: x < |units| && (x >= begin + 256 || x in v.owner) ==> units[x] == old(units)[x]
      ensures Filled(units, v.owner, begin, v.low, unused)
    {
      hide WindowOK, TrieOK, Ids, Xor, Least, Filled;
      var index := head;
      HeadFirst();
      Raise(index);
      NoFillers(v.low, index);
      FilledOwned(units, v.owner, begin, v.low, index, unused);
      UnusedLeft(terms, units, v, node, begin, index);
      LeastFacts(v.used, begin, unused);
      v := v.(low := index);
      Detach(index);
      FillTrie(terms, units, v, node, unused);
      RaiseWindow(|units|, extras, head, v);
      RoleWindow(|units|, extras, head, v.(low := index + 1), v.(low := index + 1, hole := v.hole - {index}));
      FilledNext(units, v.owner, begin, index, unused);
      units := units[index := units[index].(letter := Xor(index, unused) % 256)];
      v := v.(low := index + 1, hole := v.hole - {index});
    }

    // Without free ids a part of the window has no filler to come.
    lemma NoFillers(begin: nat, end: nat)
      requires Valid() && v.hole == {} && v.low <= begin && end <= |units|
      requires forall x :: begin <= x < end ==> x !in v.free
      ensures forall x :: begin <= x < end ==> x in v.owner
    {
      hide WindowOK, Roles, Fillers, RepsOK, AllDecided;
    }

    // The head is the least free id, or the number of units.
    lemma HeadFirst()
      requires Valid()
      ensures v.low <= |units| && v.low <= head <= |units| && (forall x :: x in v.free ==> head <= x)
      ensures if head < |units| then head in v.free && v.free != [] && head == v.free[0] else v.free == []
      ensures |units| % 256 == 0
      ensures forall x :: x in v.free ==> v.low <= x < |units|
    {
      hide Ex, FlagsOK, Ring, TrieOK;
    }

    // The window may start anywhere up to the head.
    lemma Raise(m: nat)
      requires Valid() && v.hole == {} && v.low <= m <= head && m <= |units|
      ensures WindowOK(|units|, extras, head, v.(low := m)) && TrieOK(terms, units, v.(low := m), node)
    {
      hide Ex, Linked, TrieOK;
      RaiseTrie(terms, units, v, node, m);
    }

    // ---- expand_trie ----

    method ClearBlock(n: nat, ghost low: nat)
      requires low <= n && n + 256 <= low + 4096
      modifies this`extras
      ensures SameBelow(old(extras), extras, low, n) && Clear(extras, n, n + 256)
    {
      hide Ex, Put;
      for i := n to n + 256
        invariant SameBelow(old(extras), extras, low, n) && Clear(extras, n, i)
      {
        ClearSlot(extras, low, n, i);
        extras := Put(extras, i, Extra(0, 0, false, false));
      }
    }

    method ChainBlock(n: nat, ghost low: nat)
      requires low <= n && n + 256 <= low + 4096
      modifies this`extras
      ensures SameBelow(old(extras), extras, low, n) && SameFlags(old(extras), extras, low)
      ensures Chained(extras, n, n + 256)
    {
      hide Ex, SetNext, SetPrev;
      for i := n + 1 to n + 256
        invariant SameBelow(old(extras), extras, low, n) && SameFlags(old(extras), extras, low)
        invariant Chained(extras, n, i)
      {
        ChainStep(extras, low, n, i);
        extras := SetNext(extras, i - 1, i);
        extras := SetPrev(extras, i, i - 1);
      }
    }

    method ExpandTrie()
      requires Valid() && Steady()
      modifies this`units, this`extras, this`head, this`v
      ensures Valid() && Steady() && |units| == |old(units)| + 256
      ensures v == old(v).(free := v.free, low := v.low)
      ensures forall x: nat :: |old(units)| <= x < |units| ==> x in v.free
      ensures forall id: nat :: id < |old(units)| && (id >= v.low || id in v.owner) ==> units[id] == old(units)[id]
    {
      hide TrieOK, ListOK, Ex, Splice, SetNext, SetPrev;
      var n := |units|;
      if n / 256 + 1 > 16 {
        FixBlock(n / 256 - 16);
      }
      ghost var low, ext := v.low, extras;
      HeadFirst();
      GrowFacts();
      GrowTrie(terms, units, v, node);
      units := units + Blanks();
      if n / 256 + 1 > 16 {
        ClearBlock(n, low);
      }
      ghost var cleared := extras;
      assert Clear(cleared, n, n + 256);
      ChainBlock(n, low);
      GrowReady(ext, cleared, extras, low, n);
      GrowWindow(n, ext, extras, head, v);
      SpliceBlock(n);
      v := v.(free := v.free + Fresh(n));
      forall x: nat | n <= x < n + 256 ensures x in v.free {
        assert v.free[|v.free| - 256 + (x - n)] == x;
      }
    }

    method SpliceBlock(n: nat)
      modifies this`extras
      ensures extras == Splice(old(extras), n, head)
    {
      extras := SetPrev(extras, n, n + 255);
      extras := SetNext(extras, n + 255, n);
      extras := SetPrev(extras, n, Ex(extras, head).prev);
      extras := SetNext(extras, n + 255, head);
      extras := SetNext(extras, Ex(extras, head).prev, n);
      extras := SetPrev(extras, head, n + 255);
    }

    lemma GrowFacts()
      requires Valid()
      ensures v.low <= |units| && Within(v.free, v.low, |units|)
    {
      hide TrieOK, Ex;
    }

    /** Takes an id out of the free list, growing the trie first when needed. */
    method ReserveIndex(index: nat)
      requires Valid() && Steady()
      requires index in v.free || |units| <= index < |units| + 256
      modifies this`units, this`extras, this`head, this`v
      ensures Valid()
      ensures v == old(v).(free := v.free, low := v.low, hole := {index})
      ensures v.low == if |units| > 4096 then |units| - 4096 else 0
      ensures |units| == (if index < |old(units)| then |old(units)| else |old(units)| + 256)
      ensures index < |old(units)| ==> forall x :: x != index ==> (x in v.free <==> x in old(v).free)
      ensures index >= |old(units)| ==> forall x: nat :: |old(units)| <= x < |units| && x != index ==> x in v.free
      ensures forall x: nat :: x < |old(units)| && (x >= v.low || x in v.owner) ==> units[x] == old(units)[x]
    {
      hide WindowOK, TrieOK;
      HeadFirst();
      if index >= |units| {
        ExpandTrie();
      }
      Detach(index);
    }

    // ---- fix_all_blocks ----

    method FixAllBlocks()
      requires Valid() && Steady()
      modifies this`units, this`extras, this`head, this`v
      ensures Valid() && v.low == |units|
      ensures v == old(v).(free := v.free, low := v.low)
      ensures |units| == |old(units)|
      ensures forall id: nat :: id < |units| && id in v.owner ==> units[id] == old(units)[id]
      ensures |units| == 256 ==> forall z :: Least(v.used, 0, z) ==> Filled(units, v.owner, 0, 256, z)
    {
      hide WindowOK, TrieOK, Least, Filled;
      HeadFirst();
      var block := 0;
      if |units| / 256 > 16 {
        block := |units| / 256 - 16;
      }
      while block != |units| / 256
        invariant 0 <= block <= |units| / 256 && v.low == block * 256
        invariant Valid()
        invariant v == old(v).(free := v.free, low := v.low)
        invariant |units| == |old(units)|
        invariant forall id: nat :: id < |units| && id in v.owner ==> units[id] == old(units)[id]
        invariant block == 1 && |units| == 256 ==> forall z :: Least(v.used, 0, z) ==> Filled(units, v.owner, 0, 256, z)
      {
        FixBlock(block);
        block := block + 1;
      }
    }

    // ---- find_offset_index ----

    /** An offset from which all the labels lead to free ids, and which is read back exactly. */
    ghost predicate Fits(index: nat, labels: seq<Byte>, offset: nat)
      reads this
    {
      && v.low <= offset < |units| + 256
      && offset !in v.used
      && (Representable(Xor(index, offset)) || Xor(index, offset) % 256 == 0)
      && forall i :: 0 <= i < |labels| ==>
           var child := Xor(offset, labels[i]);
           if offset < |units| then child in v.free else |units| <= child < |units| + 256
    }

    /** The offset is unused, representable, and every slot after the first is free. */
    ghost predicate Eligible(index: nat, labels: seq<Byte>, offset: nat)
      reads this
    {
      && offset !in v.used && Representable(Xor(index, offset))
      && forall i :: 1 <= i < |labels| ==> Xor(offset, labels[i]) in v.free
    }

    // None of the first n free ids is fit for the first label.
    ghost predicate NoneBefore(index: nat, labels: seq<Byte>, n: nat)
      reads this
      requires labels != [] && n <= |v.free|
    {
      forall j :: 0 <= j < n ==> !Eligible(index, labels, Xor(v.free[j], labels[0]))
    }

    /** The first fit along the free list, or the offset in a new block when there is none. */
    ghost predicate FirstFit(index: nat, labels: seq<Byte>, offset: nat)
      reads this
      requires labels != []
    {
      if offset < |units| then
        exists k ::
          && 0 <= k < |v.free| && NoneBefore(index, labels, k) && offset == Xor(v.free[k], labels[0])
          && Eligible(index, labels, offset)
      else offset == |units| + index % 256 && NoneBefore(index, labels, |v.free|)
    }

    /** The walk along the free list ends with an offset from which all the labels lead to free ids. */
    method FindOffsetIndex(index: nat, labels: seq<Byte>) returns (offset: nat)
      requires Valid() && v.low % 256 == 0 && labels != []
      ensures Fits(index, labels, offset) && FirstFit(index, labels, offset)
    {
      hide TrieOK, Xor, Ex, Representable, Eligible, Fits, WindowOK;
      HeadFirst();
      Fallback(index, labels);
      if head < |units| {
        var unfixed := head;
        ghost var k := 0;
        while true
          invariant 0 <= k < |v.free| && unfixed == v.free[k] && NoneBefore(index, labels, k)
          decreases |v.free| - k
        {
          XorBlock(unfixed, labels[0]);
          XorCancel(unfixed, labels[0]);
          offset := Xor(unfixed, labels[0]);
          assert unfixed in v.free;
          UsedIff(offset);
          if !Ex(extras, offset).used && Representable(Xor(index, offset)) {
            var collision := Collides(offset, labels);
            if !collision {
              EligibleFits(index, labels, offset);
              return;
            }
          }
          NotEligible(index, labels, offset);
          NextFree(k);
          unfixed := Ex(extras, unfixed).next;
          if unfixed == head {
            break;
          }
          k := k + 1;
        }
      }
      return |units| + index % 256;
    }

    lemma EligibleFits(index: nat, labels: seq<Byte>, offset: nat)
      requires labels != [] && v.low <= offset < |units| && Xor(offset, labels[0]) in v.free
      requires offset !in v.used && Representable(Xor(index, offset))
      requires !exists i :: 1 <= i < |labels| && Xor(offset, labels[i]) !in v.free
      ensures Eligible(index, labels, offset) && Fits(index, labels, offset)
    {
      hide Representable, Xor;
    }

    lemma NotEligible(index: nat, labels: seq<Byte>, offset: nat)
      ensures offset in v.used || !Representable(Xor(index, offset)) ==> !Eligible(index, labels, offset)
      ensures (exists i :: 1 <= i < |labels| && Xor(offset, labels[i]) !in v.free) ==> !Eligible(index, labels, offset)
    {
      hide Representable, Xor;
    }

    method Collides(offset: nat, labels: seq<Byte>) returns (r: bool)
      requires Valid() && v.low % 256 == 0 && v.low <= offset < |units| && labels != []
      ensures r <==> exists i :: 1 <= i < |labels| && Xor(offset, labels[i]) !in v.free
    {
      hide WindowOK, TrieOK, Xor, Ex;
      HeadFirst();
      for i := 1 to |labels|
        invariant forall j :: 1 <= j < i ==> Xor(offset, labels[j]) in v.free
      {
        XorBlock(offset, labels[i]);
        FixedIff(Xor(offset, labels[i]));
        if Ex(extras, Xor(offset, labels[i])).fixed {
          return true;
        }
      }
      return false;
    }

    lemma Fallback(index: nat, labels: seq<Byte>)
      requires Valid()
      ensures Fits(index, labels, |units| + index % 256)
    {
      hide TrieOK, Xor;
      var w := |units| + index % 256;
      assert w % 256 == index % 256;
      XorSplit256(index, w);
      XorSelf(index % 256);
      forall i | 0 <= i < |labels| ensures |units| <= Xor(w, labels[i]) < |units| + 256 {
        XorBlock(w, labels[i]);
      }
    }

    lemma NextFree(k: nat)
      requires Valid() && k < |v.free|
      ensures head == v.free[0]
      ensures Ex(extras, v.free[k]).next == v.free[Succ(k, |v.free|)]
      ensures k + 1 < |v.free| ==> v.free[k + 1] != head
    {
      hide TrieOK;
      assert Linked(extras, v.free, k);
    }

    lemma UsedIff(id: nat)
      requires Valid() && v.low <= id < |units|
      ensures Ex(extras, id).used <==> id in v.used
    {
    }

    lemma FixedIff(id: nat)
      requires Valid() && v.low <= id < |units|
      ensures Ex(extras, id).fixed <==> id !in v.free
    {
    }

    // ---- the labels of a range ----

    /** The next letters of the keys of a range, and the keys that go on with each of them; the
        keys move on by one letter. */
    method ListLabels(r: Range, ghost p: Key) returns (labels: seq<Byte>, groups: seq<Range>)
      requires Dictionary(terms) && KeysOK(terms, keys) && r.lo < r.hi <= |keys|
      requires forall k :: r.lo <= k < r.hi ==> p <= terms[k] && |p| < |terms[k]| && keys[k].pos == |p|
      modifies this`keys
      ensures Moved(old(keys), keys, r.lo, r.hi) && KeysOK(terms, keys)
      ensures Groups(terms, |p|, labels, groups, r.lo, r.hi) && |groups| == |labels| && Increasing(labels)
    {
      hide Dictionary, Groups, Increasing, Moved, KeysOK, Letter;
      labels, groups := [Letter(keys[r.lo])], [];
      LetterOf(terms, keys, r.lo);
      MovedNone(keys, r.lo);
      KeysCount(terms, keys);
      var begin := r.lo;
      GroupsNone(terms, |p|, labels, r.lo);
      IncreasingOne(labels[0]);
      for k := r.lo to r.hi
        invariant Moved(old(keys), keys, r.lo, k) && KeysOK(terms, keys)
        invariant r.lo <= begin <= k && (begin == k ==> k == r.lo)
        invariant |labels| == |groups| + 1 && Increasing(labels)
        invariant labels[|groups|] == terms[begin][|p|]
        invariant forall j :: begin <= j < k ==> terms[j][|p|] == labels[|groups|]
        invariant Groups(terms, |p|, labels, groups, r.lo, begin)
      {
        KeysCount(terms, keys);
        MovedStep(terms, old(keys), keys, r.lo, k);
        LetterOf(terms, keys, k);
        if k > begin {
          LettersAscend(terms, p, begin, k);
        }
        if Letter(keys[k]) != labels[|labels| - 1] {
          GroupsMore(terms, |p|, labels, groups, r.lo, begin, k);
          GroupsLabel(terms, |p|, labels, groups + [Range(begin, k, 0)], r.lo, k, Letter(keys[k]));
          IncreasingMore(labels, Letter(keys[k]));
          labels := labels + [Letter(keys[k])];
          groups := groups + [Range(begin, k, 0)];
          begin := k;
        }
        keys := keys[k := keys[k].(pos := keys[k].pos + 1)];
      }
      GroupsMore(terms, |p|, labels, groups, r.lo, begin, r.hi);
      groups := groups + [Range(begin, r.hi, 0)];
    }

    // ---- the children of a node ----

    method SetOffset(index: nat, offset: nat) returns (ok: bool)
      requires Valid() && index in node && index !in v.done
      requires Representable(offset) || offset % 256 == 0
      modifies this`units
      ensures Valid() && index < |units| && |units| == |old(units)|
      ensures ok <==> offset < OFFSET_LIMIT
      ensures !ok ==> units == old(units)
      ensures ok ==> old(units)[index].Branch? && units == old(units)[index := old(units)[index].(offset := offset)]
    {
      hide WindowOK, TrieOK, Representable;
      TouchTrie(terms, units, v, node, index, Blank);
      if offset >= OFFSET_LIMIT {
        return false;
      }
      RepresentableSurvives(offset);
      NotLeafRoot(index);
      TouchTrie(terms, units, v, node, index, units[index].(offset := FromRaw(Raw(offset))));
      units := units[index := units[index].(offset := FromRaw(Raw(offset)))];
      return true;
    }

    lemma NotLeafRoot(index: nat)
      requires Valid() && index in node
      ensures index < |units| && units[index].Branch? && (units[index].leaf ==> index != 0)
    {
      hide WindowOK, Parts, Fillers, RepsOK, AllDecided, Xor;
      assert Role(units, v, node, index);
    }

    method SetEnd(index: nat)
      requires Valid() && index in node && index !in v.done
      modifies this`units
      ensures Valid() && index < |units| && old(units)[index].Branch?
      ensures units == old(units)[index := old(units)[index].(end := true)]
    {
      hide WindowOK, TrieOK;
      NotLeafRoot(index);
      TouchTrie(terms, units, v, node, index, units[index].(end := true));
      units := units[index := units[index].(end := true)];
    }

    method SetLeaf(index: nat)
      requires Valid() && index in node && index !in v.done && index != 0
      modifies this`units
      ensures Valid() && index < |units| && old(units)[index].Branch?
      ensures units == old(units)[index := old(units)[index].(leaf := true)]
    {
      hide WindowOK, TrieOK;
      NotLeafRoot(index);
      TouchTrie(terms, units, v, node, index, units[index].(leaf := true));
      units := units[index := units[index].(leaf := true)];
    }

    // The children still to place have room.
    ghost predicate Room(w: nat, labels: seq<Byte>, i: nat)
      requires i <= |labels|
      reads this
    {
      && v.low <= w
      && forall j :: 0 <= j < i ==>
           var child := Xor(w, labels[j]);
           if w < |units| then child in v.free else |units| <= child < |units| + 256
    }

    /** Reserves the unit of a child and labels it. */
    method PlaceChild(w: nat, labels: seq<Byte>, i: nat, ghost p: Key,
                      ghost units0: seq<Unit>, ghost v0: View, ghost node0: PT.Node, ghost cs: set<Byte>)
      requires Valid() && Steady() && i < |labels| && Increasing(labels) && Room(w, labels, i + 1) && w != 0
      requires Placing(units, v, node, units0, v0, node0, w, p, cs) && labels[i] !in cs && Rooted(v, node)
      modifies this`units, this`extras, this`head, this`v, this`node
      ensures Valid() && Steady() && Room(w, labels, i) && w < |units|
      ensures |units| == if w < |old(units)| then |old(units)| else |old(units)| + 256
      ensures Placing(units, v, node, units0, v0, node0, w, p, cs + {labels[i]}) && Rooted(v, node)
    {
      hide WindowOK, TrieOK, Xor, Placing, SameOwned, Rooted;
      var child := Xor(w, labels[i]);
      HeadFirst();
      NodesOwned();
      XorBlock(w, labels[i]);
      ghost var units1, v1 := units, v;
      ReserveIndex(child);
      PlacingCarries(units1, units, v1, v, node, units0, v0, node0, w, p, cs);
      RootedSame(v1, v, node);
      GiveRole(w, labels[i], p, units0, v0, node0, cs);
      forall j | 0 <= j < i ensures Xor(w, labels[j]) in v.free {
        XorBlock(w, labels[j]);
        if Xor(w, labels[j]) == child { XorInjective(w, labels[j], labels[i]); }
      }
    }

    method GiveRole(w: nat, c: Byte, ghost p: Key, ghost units0: seq<Unit>, ghost v0: View, ghost node0: PT.Node,
        ghost cs: set<Byte>)
      requires Valid() && v.hole == {Xor(w, c)} && Rooted(v, node)
      requires Placing(units, v, node, units0, v0, node0, w, p, cs) && c !in cs
      modifies this`units, this`v, this`node
      ensures Valid() && |units| == |old(units)| && Rooted(v, node)
      ensures v.hole == {} && v.free == old(v).free && v.low == old(v).low
      ensures Placing(units, v, node, units0, v0, node0, w, p, cs + {c})
    {
      hide WindowOK, TrieOK, Xor, Placing;
      var child := Xor(w, c);
      XorBlock(w, c);
      XorCancel(w, c);
      HoleUnowned();
      NodesOwned();
      PlacingUnused(units, v, node, units0, v0, node0, w, p, cs);
      ghost var node' := node[child := p + [c]];
      HangTrie(terms, units, v, node, w, child, node');
      PlacingChild(units, v, node, units0, v0, node0, w, p, cs, c);
      RoleWindow(|units|, extras, head, v, PT.Hung(v, w, child));
      units := units[child := units[child].(letter := c)];
      v := PT.Hung(v, w, child);
      node := node';
    }

    lemma OneFacts()
      requires Valid() && Rooted(v, node)
      ensures 1 < |units| && units[1].Branch? && !units[1].leaf
    {
      hide WindowOK, Parts, Fillers, RepsOK, AllDecided, Xor;
      assert Role(units, v, node, 1);
    }

    lemma HoleUnowned()
      requires Valid()
      ensures forall id :: id in v.hole ==> id !in v.owner && id < |units|
    {
      hide WindowOK, Roles, Fillers, RepsOK, AllDecided;
    }

    lemma NodesOwned()
      requires Valid()
      ensures forall id :: id in node ==> id in v.owner
      ensures forall id :: id in v.owner ==> id < |units| && id / 256 == v.owner[id] / 256
      ensures v.done <= node.Keys
    {
      hide WindowOK, Parts, Fillers, RepsOK, Xor, Below;
      forall id | id in v.owner ensures id < |units| && id / 256 == v.owner[id] / 256 { assert Role(units, v, node,
          id); }
      forall id | id in v.done ensures id in node { assert Decided(terms, units, v, node, id); }
    }

    /** Finds an offset for the labels, links the node to it and places one child per label, the
        last one first; the ranges of the children go on the stack. */
    method PlaceChildren(r: Range, labels: seq<Byte>, groups: seq<Range>, stack: seq<Range>, ghost p: Key)
      returns (ok: bool, w: nat, pushed: seq<Range>)
      requires Valid() && Steady() && Quiet(v) && Rooted(v, node)
      requires r.index in node && r.index !in v.done && node[r.index] == p && NulFree(p)
      requires r.index < |units| && units[r.index].Branch? && !units[r.index].leaf
      requires Groups(terms, |p|, labels, groups, r.lo, r.hi) && |groups| == |labels| && labels != []
          && Increasing(labels)
      requires forall k :: 0 <= k < |terms| ==> (r.lo <= k < r.hi <==> p <= terms[k])
      modifies this`units, this`extras, this`head, this`v, this`node
      ensures !ok ==> |old(units)| + 256 > OFFSET_LIMIT
      ensures ok ==> |units| <= |old(units)| + 256
      ensures ok ==> Valid() && Steady() && Quiet(v) && Rooted(v, node)
      ensures ok ==> pushed == stack + Kids(groups, labels, w, 0)
      ensures ok ==> v.done == old(v).done + {r.index}
      ensures ok ==> forall id :: id in old(node) ==> id in node && node[id] == old(node)[id]
      ensures ok ==> forall id: nat :: id in old(node) && id != r.index ==>
          id < |old(units)| && id < |units| && units[id] == old(units)[id]
      ensures ok ==> forall c: Byte :: c in labels ==> Placed(units, node, old(node), w, p, c)
      ensures ok ==> forall id :: id in node ==>
          id in old(node) || exists i :: 0 <= i < |labels| && id == Xor(w, labels[i])
    {
      hide WindowOK, TrieOK, Xor, Placing, Placed, Groups, Increasing, NulFree, Quiet, Representable, Parts;
      var d := r.index;
      ghost var node0 := node;
      SteadyLow();
      NodesOwned();
      w := FindOffsetIndex(d, labels);
      OffsetNonZero(w);
      if |units| + 256 <= OFFSET_LIMIT {
        XorLimit(d, w);
      }
      ok := SetOffset(d, Xor(d, w));
      if !ok {
        return false, w, stack;
      }
      XorCancel(d, w);
      ghost var units0, v0 := units, v;
      PlacingStart(units, v, node, w, p);
      ghost var cs;
      pushed, cs := PlaceAll(w, labels, groups, stack, p, units0, v0, node0);
      NodesOwned();
      PlacedEnd(units, v, node, units0, v0, node0, w, p, cs, labels);
      MarkUsed(r, labels, groups, w, p, units0, v0, node0, cs);
    }

    method PlaceAll(w: nat, labels: seq<Byte>, groups: seq<Range>, stack: seq<Range>, ghost p: Key,
                    ghost units0: seq<Unit>, ghost v0: View, ghost node0: PT.Node)
      returns (pushed: seq<Range>, ghost cs: set<Byte>)
      requires Valid() && Steady() && Room(w, labels, |labels|) && Rooted(v, node) && w != 0
      requires |groups| == |labels| && labels != [] && Increasing(labels)
      requires Placing(units, v, node, units0, v0, node0, w, p, {})
      modifies this`units, this`extras, this`head, this`v, this`node
      ensures Valid() && Steady() && Rooted(v, node) && v.low <= w < |units|
      ensures Placing(units, v, node, units0, v0, node0, w, p, cs) && LabelsAre(labels, cs)
      ensures pushed == stack + Kids(groups, labels, w, 0)
      ensures |units| <= |old(units)| + 256
    {
      hide WindowOK, TrieOK, Xor, Placing, Increasing;
      pushed := stack;
      cs := {};
      var i := |groups|;
      assert pushed == stack + Kids(groups, labels, w, i);
      while i > 0
        invariant 0 <= i <= |groups|
        invariant Valid() && Steady() && Room(w, labels, i) && Rooted(v, node)
        invariant Placing(units, v, node, units0, v0, node0, w, p, cs)
        invariant forall c: Byte :: c in cs <==> c in labels[i..]
        invariant i < |labels| ==> w < |units|
        invariant |units| <= |old(units)| + if i < |labels| then 256 else 0
        invariant pushed == stack + Kids(groups, labels, w, i)
      {
        i := i - 1;
        LabelTail(labels, i);
        PlaceChild(w, labels, i, p, units0, v0, node0, cs);
        cs := cs + {labels[i]};
        pushed := pushed + [Range(groups[i].lo, groups[i].hi, Xor(w, labels[i]))];
      }
      assert labels[0..] == labels;
    }

    lemma SteadyLow()
      requires Valid() && Steady()
      ensures v.low % 256 == 0
    {
      hide TrieOK, ListOK, Ex;
    }

    lemma OffsetNonZero(w: nat)
      requires Quiet(v) && w !in v.used
      ensures w != 0
    {
    }

    /** extras(offset_index).set_is_used(): the node is decided. */
    method MarkUsed(r: Range, labels: seq<Byte>, groups: seq<Range>, w: nat, ghost p: Key,
                    ghost units0: seq<Unit>, ghost v0: View, ghost node0: PT.Node, ghost cs: set<Byte>)
      requires Valid() && Steady() && Placing(units, v, node, units0, v0, node0, w, p, cs) && LabelsAre(labels, cs)
      requires r.index in node0 && r.index in v0.owner && node0[r.index] == p && NulFree(p)
      requires r.index < |units0| && units0[r.index].Branch? && !units0[r.index].leaf && PT.Base(units0, r.index) == w
      requires Groups(terms, |p|, labels, groups, r.lo, r.hi) && |groups| == |labels| && labels != []
      requires forall k :: 0 <= k < |terms| ==> (r.lo <= k < r.hi <==> p <= terms[k])
      requires v.low <= w < |units| && w != 0
      modifies this`extras, this`v
      ensures Valid() && Steady() && Quiet(v)
      ensures v == PT.Committed(old(v), r.index, w, Xor(w, labels[0]))
    {
      hide WindowOK, TrieOK, Xor, Groups, NulFree, SetUsed, Placed;
      SteadyLow();
      PlacingChildren(terms, units, v, node, units0, v0, node0, w, p, cs, labels, groups, r.lo, r.hi);
      assert labels[0] in labels;
      assert Hangs(v, w, Xor(w, labels[0]));
      CommitTrie(terms, units, v, node, r.index, w, Xor(w, labels[0]));
      UseWindow(|units|, extras, head, v, PT.Committed(v, r.index, w, Xor(w, labels[0])), w);
      extras := SetUsed(extras, w, true);
      v := PT.Committed(v, r.index, w, Xor(w, labels[0]));
    }

    // ---- build_trie ----

    /** Unit 0 is the root and unit 1 will hold the number of units; offset 0 is marked used, so
        that no step with a matching letter leads to either of them. */
    method PlantRoot()
      requires Valid() && Steady() && units == [] && v == NoView() && node == map[]
      modifies this`units, this`extras, this`head, this`v, this`node
      ensures Valid() && Steady() && Quiet(v) && v.done == {} && node == map[0 := []]
      ensures v.owner == map[0 := 0, 1 := 0] && v.used == {0} && Rooted(v, node)
      ensures |units| == 256 && units[0] == Blank.(offset := 1) && units[1] == Blank.(letter := 1)
    {
      hide WindowOK, TrieOK, Xor, SetUsed, Quiet;
      XorZero(0);
      XorZero(1);
      ReserveIndex(0);
      HangTrie(terms, units, v, node, 0, 0, map[0 := []]);
      RoleWindow(|units|, extras, head, v, PT.Hung(v, 0, 0));
      assert units == units[0 := Blank.(letter := 0)];
      v, node := PT.Hung(v, 0, 0), map[0 := []];
      ReserveIndex(1);
      HangTrie(terms, units, v, node, 0, 1, node);
      RoleWindow(|units|, extras, head, v, PT.Hung(v, 0, 1));
      units := units[1 := units[1].(letter := 1)];
      v := PT.Hung(v, 0, 1);
      UseZero(terms, units, v, node);
      UseWindow(|units|, extras, head, v, v.(used := {0}, rep := map[0 := 0]), 0);
      extras := SetUsed(extras, 0, true);
      v := v.(used := {0}, rep := map[0 := 0]);
      assert Quiet(v) by { RootQuiet(v); }
      var ok := SetOffset(0, 1);
    }

    /** Works off the stack of ranges: every key ends below a leaf of its own, every other node is
        decided. Each decision adds a block at most, so an offset is too large only when the keys
        are longer than two million bytes together. */
    method BuildTrieSubroutine() returns (ok: bool)
      requires Dictionary(terms) && KeysOK(terms, keys) && keys != [] && forall k :: 0 <= k < |keys| ==>
          keys[k].pos == 0
      requires Valid() && Steady() && Quiet(v) && v.done == {} && node == map[0 := []] && Rooted(v, node)
      requires |units| == 256 && units[0].Branch? && !units[0].leaf
      modifies this`keys, this`units, this`extras, this`head, this`v, this`node
      ensures !ok ==> OFFSET_LIMIT <= 256 * (Left(terms, old(keys), 0) + 1)
      ensures ok ==> |units| <= 256 * (Left(terms, old(keys), 0) + 1)
      ensures ok ==> Valid() && Steady() && Rooted(v, node)
      ensures ok ==> 0 in node && node[0] == [] && Progress(terms, keys, units, v, node, [], |keys|)
      ensures ok ==> SameTexts(old(keys), keys)
    {
      hide WindowOK, TrieOK, Dictionary, Quiet, Progress, SameTexts, Rooted;
      assert SameTexts(keys, keys) by { SameTextsRefl(keys); }
      var stack := [Range(0, |keys|, 0)];
      ProgressStart(terms, keys, units, v, node);
      ghost var m := 0;
      LeftDefined(terms, keys, units, v, node, stack, m);
      while stack != []
        invariant Valid() && Steady() && Quiet(v) && Rooted(v, node) && 0 in node && node[0] == []
        invariant Progress(terms, keys, units, v, node, stack, m)
        invariant KeysOK(terms, keys)
        invariant SameTexts(old(keys), keys)
        invariant |units| <= 256 * (|v.done| + 1) && |v.done| + Left(terms, keys, m) <= Left(terms, old(keys), 0)
        decreases Left(terms, keys, m)
      {
        var r := stack[|stack| - 1];
        ghost var keys0 := keys;
        assert stack == stack[..|stack| - 1] + [r];
        stack := stack[..|stack| - 1];
        if r.index != 0 && r.hi - r.lo == 1 {
          MakeLeaf(r, stack, m);
          m := m + 1;
        } else {
          ok, stack := SplitRange(r, stack, m);
          if !ok {
            return;
          }
        }
        LeftDefined(terms, keys, units, v, node, stack, m);
        SameTextsAgain(old(keys), keys0, keys);
      }
      ProgressEnd(terms, keys, units, v, node, m);
      ok := true;
    }

    method MakeLeaf(r: Range, ghost rest: seq<Range>, ghost m: nat)
      requires Dictionary(terms) && Valid() && Steady()
      requires Progress(terms, keys, units, v, node, rest + [r], m) && r.index != 0 && r.hi == r.lo + 1
          && KeysOK(terms, keys)
      modifies this`keys, this`units
      ensures Valid() && Steady() && Progress(terms, keys, units, v, node, rest, m + 1)
      ensures |units| == |old(units)|
      ensures KeysOK(terms, keys) && Left(terms, keys, m + 1) < Left(terms, old(keys), m)
      ensures SameTexts(old(keys), keys)
    {
      hide WindowOK, TrieOK, Dictionary, Progress;
      ghost var stack := rest + [r];
      assert stack[..|stack| - 1] == rest;
      LeafStep(terms, keys, units, v, node, stack, m);
      ghost var keys0 := keys;
      keys := keys[r.lo := keys[r.lo].(pos := keys[r.lo].pos - 1, index := r.index)];
      SetLeaf(r.index);
      LeftDefined(terms, keys, units, v, node, rest, m + 1);
      LeftSame(terms, keys0, keys, m + 1);
    }

    method SplitRange(r: Range, stack: seq<Range>, ghost m: nat) returns (ok: bool, pushed: seq<Range>)
      requires Dictionary(terms) && Valid() && Steady() && Quiet(v) && Rooted(v, node) && 0 in node && node[0] == []
      requires Progress(terms, keys, units, v, node, stack + [r], m) && !(r.index != 0 && r.hi - r.lo == 1)
          && KeysOK(terms, keys)
      modifies this`keys, this`units, this`extras, this`head, this`v, this`node
      ensures ok ==> Valid() && Steady() && Quiet(v) && Rooted(v, node) && 0 in node && node[0] == []
      ensures ok ==> Progress(terms, keys, units, v, node, pushed, m)
      ensures !ok ==> |old(units)| + 256 > OFFSET_LIMIT
      ensures ok ==> |units| <= |old(units)| + 256 && |v.done| == |old(v).done| + 1
      ensures ok ==> KeysOK(terms, keys) && Left(terms, keys, m) < Left(terms, old(keys), m)
      ensures ok ==> SameTexts(old(keys), keys)
    {
      hide WindowOK, TrieOK, Dictionary, Quiet, Groups, Increasing, NulFree, RangeOK, Placed, Xor, Kids, Progress;
      hide Moved, SameTexts, Rooted, Plain, Left;
      ghost var whole := stack + [r];
      ghost var keys0, units0, v0, node0 := keys, units, v, node;
      assert whole[|whole| - 1] == r && whole[..|whole| - 1] == stack;
      TopRange(terms, keys, units, v, node, whole, m);
      RangeFacts(terms, keys, units, v, node, r);
      NodesOwned();
      ghost var p := node[r.index];
      var labels, groups := ListRange(r, p);
      ghost var w;
      ok, w, pushed := PlaceChildren(r, labels, groups, stack, p);
      if !ok {
        return;
      }
      assert SplitDone(terms, keys0, keys, units0, units, v0, v, node0, node, r, w);
      SplitStep(terms, keys0, keys, units0, units, v0, v, node0, node, whole, m, w, labels, groups);
      MovedTexts(keys0, keys, r.lo, r.hi);
      LeftSame(terms, keys0, keys, m);
    }

    /** The labels of a range on the stack; a terminator among them sets the end flag. */
    method ListRange(r: Range, ghost p: Key) returns (labels: seq<Byte>, groups: seq<Range>)
      requires Dictionary(terms) && Valid() && RangeOK(terms, keys, units, v, node, r) && p == node[r.index]
      requires !(r.index != 0 && r.hi - r.lo == 1) && KeysOK(terms, keys)
      modifies this`keys, this`units
      ensures Valid() && NulFree(p) && Moved(old(keys), keys, r.lo, r.hi) && KeysOK(terms, keys)
      ensures Groups(terms, |p|, labels, groups, r.lo, r.hi) && |groups| == |labels| && labels != []
          && Increasing(labels)
      ensures |units| == |old(units)| && forall x :: 0 <= x < |units| && x != r.index ==> units[x] == old(units)[x]
      ensures r.index < |units| && units[r.index].Branch? && !units[r.index].leaf
    {
      hide WindowOK, TrieOK, Dictionary, Groups, Increasing, NulFree, RangeOK, Moved, KeysOK, Plain;
      RangeFacts(terms, keys, units, v, node, r);
      SharedShort(terms, p, r.lo, r.hi);
      labels, groups := ListLabels(r, p);
      GroupsStart(terms, |p|, labels, groups, r.lo, r.hi);
      if labels[0] == 0 {
        SetEnd(r.index);
      }
    }

    /** Builds the trie: afterwards no unit outside the paths of the keys can be mistaken for one. */
    method BuildTrie() returns (ok: bool)
      requires Dictionary(terms) && KeysOK(terms, keys) && forall k :: 0 <= k < |keys| ==> keys[k].pos == 0
      requires Valid() && Steady() && units == [] && v == NoView() && node == map[]
      modifies this`keys, this`units, this`extras, this`head, this`v, this`node
      ensures !ok ==> OFFSET_LIMIT <= 256 * (Left(terms, old(keys), 0) + 1)
      ensures ok ==> SameTexts(old(keys), keys)
      ensures ok && keys != [] ==> Finished(terms, keys, units, v, node)
      ensures ok && keys == [] ==> Hollow(units)
      ensures ok ==> |units| > 1 && units[1].Branch? && !units[1].leaf && units[1].offset == |units|
      ensures ok ==> Plain(units)
    {
      hide WindowOK, TrieOK, Dictionary, Quiet, Filled, Least, Progress, Finished, Hollow, Xor;
      PlantRoot();
      ok := true;
      if keys != [] {
        ok := BuildTrieSubroutine();
        if !ok {
          return;
        }
      }
      ghost var units0, v0 := units, v;
      NodesOwned();
      FixAllBlocks();
      HeadFirst();
      if |units| >= OFFSET_LIMIT {
        return false;
      }
      RawRoundTrip(|units|);
      NodesOwned();
      ghost var fixed := units;
      TouchTrie(terms, units, v, node, 1, Blank);
      OneFacts();
      units := units[1 := units[1].(offset := FromRaw(Raw(|units|)))];
      if keys != [] {
        FinishedNow(terms, keys, units0, fixed, units, v0, v, node, extras, head, FromRaw(Raw(|units|)));
      } else {
        HollowNow(fixed, units, v, FromRaw(Raw(|units|)));
      }
    }
  }

  lemma ClearSlot(ext: Extras, low: nat, n: nat, id: nat)
    requires low <= n <= id && id < low + 4096 && Clear(ext, n, id)
    ensures var ext' := Put(ext, id, Extra(0, 0, false, false));
            SameBelow(ext, ext', low, n) && Clear(ext', n, id + 1)
  {
    hide Ex, Put;
    forall x: nat | low <= x < low + 4096
      ensures Ex(Put(ext, id, Extra(0, 0, false, false)), x) == if x == id then Extra(0, 0, false,
          false) else Ex(ext, x)
    {
      PutAt(ext, low, id, Extra(0, 0, false, false), x);
    }
  }

  /** While the trie is built every unit is a branch whose offset fits its field. */
  ghost predicate Plain(units: seq<Unit>) {
    forall x :: 0 <= x < |units| ==> units[x].Branch? && InRange(units[x], 1)
  }

  ghost function Terms(keys: seq<Entry>): (t: seq<Key>)
    ensures |t| == |keys| && forall k :: 0 <= k < |keys| ==> t[k] == keys[k].text + [0]
  {
    seq(|keys|, k requires 0 <= k < |keys| => keys[k].text + [0])
  }

  ghost function NoView(): View {
    View([], 0, {}, {}, map[], map[], map[], map[], {})
  }

  ghost predicate SameTexts(keys: seq<Entry>, keys': seq<Entry>) {
    && |keys'| == |keys|
    && forall k :: 0 <= k < |keys| ==> keys'[k].text == keys[k].text && keys'[k].value == keys[k].value
  }

  lemma SameTextsRefl(keys: seq<Entry>)
    ensures SameTexts(keys, keys)
  {
  }

  lemma SameTextsAgain(keys: seq<Entry>, keys': seq<Entry>, keys'': seq<Entry>)
    requires SameTexts(keys, keys') && SameTexts(keys', keys'')
    ensures SameTexts(keys, keys'')
  {
  }

  lemma MovedTexts(keys: seq<Entry>, keys': seq<Entry>, lo: nat, hi: nat)
    requires Moved(keys, keys', lo, hi)
    ensures SameTexts(keys, keys')
    ensures lo < hi && lo < |keys| ==> keys'[lo].pos > keys[lo].pos
    ensures forall k :: 0 <= k < |keys| ==> keys'[k].pos >= keys[k].pos
  {
  }

  /** Units 0 and 1 are taken, and unit 1 is no node. */
  ghost predicate Rooted(v: View, node: PT.Node) {
    0 in v.owner && 1 in v.owner && 1 !in node
  }

  lemma RootedSame(v: View, v': View, node: PT.Node)
    requires Rooted(v, node) && v'.owner == v.owner
    ensures Rooted(v', node)
  {
  }

  lemma UseZero(terms: seq<Key>, units: seq<Unit>, v: View, node: PT.Node)
    requires TrieOK(terms, units, v, node) && v.used == {} && v.done == {} && v.low == 0
    requires 0 in v.owner && v.owner[0] == 0
    ensures TrieOK(terms, units, v.(used := {0}, rep := map[0 := 0]), node)
  {
    hide Xor;
    var v' := v.(used := {0}, rep := map[0 := 0]);
    assert Hangs(v', 0, 0);
    forall x | x in v'.owner ensures Role(units, v', node, x) {
      assert Role(units, v, node, x);
    }
  }

  lemma RootQuiet(v: View)
    requires v.used == {0} && v.owner == map[0 := 0, 1 := 0]
    ensures Quiet(v)
  {
  }

  lemma ProgressStart(terms: seq<Key>, keys: seq<Entry>, units: seq<Unit>, v: View, node: PT.Node)
    requires KeysOK(terms, keys) && keys != [] && (forall k :: 0 <= k < |keys| ==> keys[k].pos == 0)
    requires node == map[0 := []] && v.done == {} && |units| > 0 && units[0].Branch? && !units[0].leaf
    ensures Progress(terms, keys, units, v, node, [Range(0, |keys|, 0)], 0)
  {
    var stack := [Range(0, |keys|, 0)];
    assert Tiling(stack[..0], |keys|, |keys|);
    assert stack[0].index == 0;
  }

  lemma LeftDefined(terms: seq<Key>, keys: seq<Entry>, units: seq<Unit>, v: View, node: PT.Node, stack: seq<Range>,
      m: nat)
    requires Progress(terms, keys, units, v, node, stack, m)
    ensures KeysOK(terms, keys) && m <= |keys|
  {
  }

  lemma ProgressEnd(terms: seq<Key>, keys: seq<Entry>, units: seq<Unit>, v: View, node: PT.Node, m: nat)
    requires Progress(terms, keys, units, v, node, [], m)
    ensures m == |keys|
  {
  }

  lemma TopRange(terms: seq<Key>, keys: seq<Entry>, units: seq<Unit>, v: View, node: PT.Node, stack: seq<Range>, m: nat)
    requires Progress(terms, keys, units, v, node, stack, m) && stack != []
    ensures var r := stack[|stack| - 1]; RangeOK(terms, keys, units, v, node, r) && r.lo == m
  {
    TilingTop(stack, m, |keys|);
  }

  /** The finished trie: every key has a leaf of its own, every node is decided or such a leaf,
      and every unit outside is a filler. */
  ghost predicate Finished(terms: seq<Key>, keys: seq<Entry>, units: seq<Unit>, v: View, node: PT.Node) {
    && TrieOK(terms, units, v, node) && v.low == |units| && |units| % 256 == 0
    && (forall w :: w in v.used ==> w < |units|)
    && KeysOK(terms, keys)
    && (forall k :: 0 <= k < |keys| ==> LeafKey(terms, keys, units, node, k))
    && (forall id :: id in node ==> id in v.done || exists k :: 0 <= k < |keys| && keys[k].index == id)
    && 0 in v.done && 0 in node && node[0] == []
  }

  /** The trie of no keys: the root, the unit of the size, and fillers labelled against offset 1. */
  ghost predicate Hollow(units: seq<Unit>) {
    && |units| == 256 && units[0] == Blank.(offset := 1)
    && units[1].Branch? && !units[1].leaf && units[1].letter == 1
    && forall id :: 2 <= id < 256 ==> units[id] == Blank.(letter := Xor(id, 1) % 256)
  }

  lemma FinishedNow(terms: seq<Key>, keys: seq<Entry>, units0: seq<Unit>, fixed: seq<Unit>, units: seq<Unit>,
                    v0: View, v: View, node: PT.Node, ext: Extras, head: nat, size: nat)
    requires Progress(terms, keys, units0, v0, node, [], |keys|) && 0 in node && node[0] == []
    requires v == v0.(free := v.free, low := v.low) && Rooted(v, node)
    requires |fixed| == |units0| && forall id: nat :: id < |fixed| && id in v.owner ==> fixed[id] == units0[id]
    requires WindowOK(|fixed|, ext, head, v) && TrieOK(terms, fixed, v, node) && v.low == |fixed|
    requires 1 < |fixed| && fixed[1].Branch? && 1 !in v.done && !fixed[1].leaf
    requires units == fixed[1 := fixed[1].(offset := size)]
    ensures Finished(terms, keys, units, v, node)
  {
    hide TrieOK, ListOK, Xor, Tiling;
    TouchTrie(terms, fixed, v, node, 1, units[1]);
    forall k | 0 <= k < |keys| ensures LeafKey(terms, keys, units, node, k) && keys[k].index != 0 {
      assert LeafKey(terms, keys, units0, node, k);
      NodeOwned(terms, fixed, v, node, keys[k].index);
    }
    forall id | id in node ensures id in v.done || exists k :: 0 <= k < |keys| && keys[k].index == id {
      assert Accounted(keys, v0, [], |keys|, id);
    }
    assert 0 in node;
  }

  lemma NodeOwned(terms: seq<Key>, units: seq<Unit>, v: View, node: PT.Node, id: nat)
    requires TrieOK(terms, units, v, node) && id in node
    ensures id in v.owner
  {
  }

  lemma HollowNow(fixed: seq<Unit>, units: seq<Unit>, v: View, size: nat)
    requires |fixed| == 256 && fixed[0] == Blank.(offset := 1) && fixed[1] == Blank.(letter := 1)
    requires v.used == {0} && v.owner == map[0 := 0, 1 := 0]
    requires forall z :: Least(v.used, 0, z) ==> Filled(fixed, v.owner, 0, 256, z)
    requires units == fixed[1 := fixed[1].(offset := size)]
    ensures Hollow(units)
  {
    hide Xor;
    assert Least(v.used, 0, 1);
  }

  /** The fillers from begin up to end are labelled against the offset z. */
  ghost predicate Filled(units: seq<Unit>, owner: map<nat, nat>, begin: nat, end: nat, z: nat) {
    forall x :: begin <= x < end && x < |units| && x !in owner ==> units[x] == Blank.(letter := Xor(x, z) % 256)
  }

  lemma FilledNone(units: seq<Unit>, owner: map<nat, nat>, begin: nat, z: nat)
    ensures Filled(units, owner, begin, begin, z)
  {
  }

  lemma FilledOwned(units: seq<Unit>, owner: map<nat, nat>, begin: nat, m: nat, end: nat, z: nat)
    requires Filled(units, owner, begin, m, z) && forall x :: m <= x < end ==> x in owner
    ensures Filled(units, owner, begin, end, z)
  {
    hide Xor;
  }

  lemma FilledNext(units: seq<Unit>, owner: map<nat, nat>, begin: nat, index: nat, z: nat)
    requires Filled(units, owner, begin, index, z) && index < |units| && units[index] == Blank
    ensures Filled(units[index := units[index].(letter := Xor(index, z) % 256)], owner, begin, index + 1, z)
  {
    hide Xor;
  }

  /** The next letter of a key, the terminator at its end. */
  function Letter(e: Entry): Byte {
    if e.pos < |e.text| then e.text[e.pos] else 0
  }

  lemma LetterOf(terms: seq<Key>, keys: seq<Entry>, k: nat)
    requires KeysOK(terms, keys) && k < |keys|
    ensures |keys| == |terms|
    ensures keys[k].pos < |terms[k]| ==> Letter(keys[k]) == terms[k][keys[k].pos]
  {
  }

  lemma KeysCount(terms: seq<Key>, keys: seq<Entry>)
    requires KeysOK(terms, keys)
    ensures |keys| == |terms|
  {
  }

  lemma MovedNone(keys: seq<Entry>, lo: nat)
    ensures Moved(keys, keys, lo, lo)
  {
  }

  lemma MovedStep(terms: seq<Key>, keys: seq<Entry>, keys': seq<Entry>, lo: nat, k: nat)
    requires Moved(keys, keys', lo, k) && KeysOK(terms, keys') && lo <= k < |keys'|
    ensures |keys'| == |keys| && keys'[k] == keys[k]
    ensures keys[k].pos < |terms[k]| ==>
        var next := keys'[k := keys'[k].(pos := keys'[k].pos + 1)];
        Moved(keys, next, lo, k + 1) && KeysOK(terms, next)
  {
  }

  lemma GroupsNone(terms: seq<Key>, depth: nat, labels: seq<Byte>, lo: nat)
    requires lo <= |terms|
    ensures Groups(terms, depth, labels, [], lo, lo)
  {
  }

  lemma IncreasingOne(c: Byte)
    ensures Increasing([c])
  {
  }

  lemma IncreasingMore(labels: seq<Byte>, c: Byte)
    requires Increasing(labels) && labels != [] && labels[|labels| - 1] < c
    ensures Increasing(labels + [c])
  {
  }

  lemma LabelTail(labels: seq<Byte>, i: nat)
    requires i < |labels| && Increasing(labels)
    ensures labels[i] !in labels[i + 1..]
    ensures forall c: Byte :: c in labels[i..] <==> c == labels[i] || c in labels[i + 1..]
  {
    assert labels[i..] == [labels[i]] + labels[i + 1..];
  }

  lemma PlacingUnused(units: seq<Unit>, v: View, node: PT.Node, units0: seq<Unit>, v0: View, node0: PT.Node,
                      w: nat, p: Key, cs: set<Byte>)
    requires Placing(units, v, node, units0, v0, node0, w, p, cs)
    ensures w !in v.used
  {
  }

  lemma PlacedEnd(units: seq<Unit>, v: View, node: PT.Node, units0: seq<Unit>, v0: View, node0: PT.Node,
                  w: nat, p: Key, cs: set<Byte>, labels: seq<Byte>)
    requires Placing(units, v, node, units0, v0, node0, w, p, cs)
    requires LabelsAre(labels, cs) && (forall id :: id in node0 ==> id in v0.owner)
    requires forall id :: id in v.owner ==> id / 256 == v.owner[id] / 256
    ensures v.done == v0.done
    ensures forall id :: id in node0 ==> id in node && node[id] == node0[id]
    ensures forall id: nat :: id in node0 ==> id < |units0| && id < |units| && units[id] == units0[id]
    ensures forall c: Byte :: c in labels ==> Placed(units, node, node0, w, p, c)
    ensures forall id :: id in node ==> id in node0 || exists i :: 0 <= i < |labels| && id == Xor(w, labels[i])
  {
    hide Xor, Placed, Quiet;
    forall id | id in node && id !in node0 ensures exists i :: 0 <= i < |labels| && id == Xor(w, labels[i]) {
      assert Hangs(v, w, id);
      XorSameBlock(w, id);
      XorCancel(w, id);
      var c: Byte := Xor(w, id);
      assert Hangs(v, w, Xor(w, c)) <==> c in cs;
      var i :| 0 <= i < |labels| && labels[i] == c;
    }
  }
}
