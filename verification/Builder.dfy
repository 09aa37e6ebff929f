/** The double-array builder (`DoubleArrayBuilder`): the array of units, the
    window of extra units, and the operations that reserve ids, grow the array
    and fix blocks. */
module Builder {
  import opened Bits
  import opened Outcomes
  import opened Units
  import opened Languages
  import opened FreeList
  import opened DoubleArray
  import opened BuilderInvariant
  import opened BuilderSteps
  import opened BuilderPlacing
  import opened Prefixes

  class DoubleArrayBuilder {
    var units: seq<Word>
    const extras: array<Extra>
    var labels: seq<Byte>
    var head: nat
    ghost var v: View

    ghost predicate Valid()
      reads this, extras
    {
      extras.Length == 4096 && BuilderOK(units, extras[..], head, v)
    }

    // Between two operations: nothing half reserved, and exactly the blocks
    // that left the 16-block window are fixed.
    ghost predicate Steady()
      reads this
    {
      && v.hole == {}
      && v.low == if |units| > 4096 then |units| - 4096 else 0
    }

    // What growing leaves alone.
    twostate predicate Grown()
      reads this
    {
      && v == old(v).(free := v.free, low := v.low)
      && |units| >= |old(units)|
      && labels == old(labels)
      && forall id: nat :: id < |old(units)| && (id >= v.low || id in v.owner) ==> units[id] == old(units)[id]
    }

    constructor ()
      ensures Valid() && Steady() && fresh(extras)
      ensures units == [] && v == EmptyView()
    {
      units, labels, head := [], [], 0;
      extras := new Extra[4096](_ => Extra(0, 0, false, false));
      v := EmptyView();
    }

    // ---- setters of one extra unit ----

    method PutNext(id: nat, next: nat)
      requires extras.Length == 4096
      modifies extras
      ensures extras[..] == SetNext(old(extras[..]), id, next)
    {
      extras[id % 4096] := extras[id % 4096].(next := next);
    }

    method PutPrev(id: nat, prev: nat)
      requires extras.Length == 4096
      modifies extras
      ensures extras[..] == SetPrev(old(extras[..]), id, prev)
    {
      extras[id % 4096] := extras[id % 4096].(prev := prev);
    }

    method PutFixed(id: nat, fixed: bool)
      requires extras.Length == 4096
      modifies extras
      ensures extras[..] == SetFixed(old(extras[..]), id, fixed)
    {
      extras[id % 4096] := extras[id % 4096].(fixed := fixed);
    }

    method PutUsed(id: nat, used: bool)
      requires extras.Length == 4096
      modifies extras
      ensures extras[..] == SetUsed(old(extras[..]), id, used)
    {
      extras[id % 4096] := extras[id % 4096].(used := used);
    }

    // ---- reserve_id ----

    /** The part of reserve_id after the growth test: id leaves the free list. */
    method Detach(id: nat)
      requires Valid() && id in v.free
      modifies this`head, this`v, extras
      ensures Valid()
      ensures v == old(v).(free := v.free, hole := old(v).hole + {id})
      ensures id !in v.free && forall x :: x != id ==> (x in v.free <==> x in old(v).free)
    {
      hide BuilderOK, Unlink, Remove, Detached;
      ghost var ext, h := extras[..], head;
      ghost var k :| 0 <= k < |v.free| && v.free[k] == id;
      if id == head {
        head := extras[id % 4096].next;
        if head == id {
          head := |units|;
        }
      }
      Unhook(id);
      DetachState(units, ext, h, v, k);
      v := Detached(v, k);
    }

    method Unhook(id: nat)
      requires extras.Length == 4096
      modifies extras
      ensures extras[..] == Unlink(old(extras[..]), id)
    {
      PutNext(extras[id % 4096].prev, extras[id % 4096].next);
      PutPrev(extras[id % 4096].next, extras[id % 4096].prev);
      PutFixed(id, true);
    }
  
    // ---- fix_block ----

    method FindUnused(begin: nat) returns (unused: nat)
      requires Valid() && begin % 256 == 0 && v.low <= begin && begin + 256 <= |units|
      ensures Least(v.used, begin, unused) || Ids(begin, begin + 256) <= v.used
    {
      hide DictOK, ListOK, Ids;
      unused := 0;
      var offset := begin;
      while offset != begin + 256
        invariant begin <= offset <= begin + 256
        invariant forall w: nat :: begin <= w < offset ==> w in v.used
      {
        assert Ex(extras[..], offset).used <==> offset in v.used;
        if !extras[offset % 4096].used {
          unused := offset;
          return;
        }
        offset := offset + 1;
      }
    }

    /** Gives every id of the lowest unfixed block its final role: the free ids
        become fillers, labelled against the first unused offset of the block. */
    method FixBlock(block: nat)
      requires Valid() && v.hole == {} && v.low == block * 256 && v.low + 256 <= |units|
      modifies this`units, this`head, this`v, extras
      ensures Valid() && v.low == block * 256 + 256
      ensures v == old(v).(free := v.free, low := v.low)
      ensures |units| == |old(units)|
      ensures forall id: nat :: id < |units| && (id >= v.low || id in v.owner) ==> units[id] == old(units)[id]
      ensures forall z :: Least(v.used, block * 256, z) ==> Filled(units, v.owner, block * 256, v.low, z)
    {
      hide BuilderOK, Ids, Least, Xor;
      var begin := block * 256;
      var unused := FindUnused(begin);
      LeastOnly(v.used, begin, unused);
      var id := begin;
      while id != begin + 256
        invariant begin <= id <= begin + 256 && v.low == id
        invariant Valid()
        invariant v == old(v).(free := v.free, low := v.low)
        invariant |units| == |old(units)|
        invariant forall x: nat :: x < |units| && (x >= id || x in v.owner) ==> units[x] == old(units)[x]
        invariant Filled(units, v.owner, begin, id, unused)
      {
        FixId(id, begin, unused);
        id := id + 1;
      }
    }

    method FixId(id: nat, begin: nat, unused: nat)
      requires Valid() && v.hole == {} && v.low == id
      requires begin % 256 == 0 && begin <= id < begin + 256 <= |units|
      requires Least(v.used, begin, unused) || Ids(begin, begin + 256) <= v.used
      modifies this`units, this`head, this`v, extras
      ensures Valid() && v.low == id + 1
      ensures v == old(v).(free := v.free, low := v.low)
      ensures |units| == |old(units)|
      ensures forall x: nat :: x < |units| && (x != id || x in v.owner) ==> units[x] == old(units)[x]
      ensures id !in v.owner ==> units[id] == Xor(id, unused) % 256
    {
      hide BuilderOK, Ids, WithLabel, Xor;
      FixedIff(id);
      if !extras[id % 4096].fixed {
        UnusedExists(units, extras[..], head, v, begin, id);
        Detach(id);
        FillState(units, extras[..], head, v, unused);
        units := units[id := WithLabel(units[id], Xor(id, unused) % 256)];
        v := v.(low := id + 1, hole := v.hole - {id});
      } else {
        PassState(units, extras[..], head, v);
        v := v.(low := id + 1);
      }
    }

    // ---- expand_units ----

    method ClearBlock(n: nat, ghost low: nat)
      requires extras.Length == 4096 && low <= n && n + 256 <= low + 4096
      modifies extras
      ensures SameBelow(old(extras[..]), extras[..], low, n)
      ensures Clear(extras[..], n, n + 256)
    {
      hide Ex, SetFixed, SetUsed;
      var id := n;
      while id < n + 256
        invariant n <= id <= n + 256
        invariant SameBelow(old(extras[..]), extras[..], low, n)
        invariant Clear(extras[..], n, id)
      {
        ClearStep(extras[..], low, n, id);
        PutUsed(id, false);
        PutFixed(id, false);
        id := id + 1;
      }
    }

    method ChainBlock(n: nat, ghost low: nat)
      requires extras.Length == 4096 && low <= n && n + 256 <= low + 4096
      modifies extras
      ensures SameBelow(old(extras[..]), extras[..], low, n)
      ensures SameFlags(old(extras[..]), extras[..], low)
      ensures Chained(extras[..], n, n + 256)
    {
      hide Ex, SetNext, SetPrev;
      var i := n + 1;
      while i < n + 256
        invariant n + 1 <= i <= n + 256
        invariant SameBelow(old(extras[..]), extras[..], low, n)
        invariant SameFlags(old(extras[..]), extras[..], low)
        invariant Chained(extras[..], n, i)
      {
        ChainStep(extras[..], low, n, i);
        PutNext(i - 1, i);
        PutPrev(i, i - 1);
        i := i + 1;
      }
    }

    method SpliceBlock(n: nat)
      requires extras.Length == 4096
      modifies extras
      ensures extras[..] == Splice(old(extras[..]), n, head)
    {
      PutPrev(n, n + 255);
      PutNext(n + 255, n);
      PutPrev(n, extras[head % 4096].prev);
      PutNext(n + 255, head);
      PutNext(extras[head % 4096].prev, n);
      PutPrev(head, n + 255);
    }

    /** Adds a block: the block that leaves the window is fixed first, and the
        new ids are appended to the free list. */
    method ExpandUnits()
      requires Valid() && Steady()
      modifies this`units, this`head, this`v, extras
      ensures Valid() && Steady() && Grown()
      ensures |units| == |old(units)| + 256
      ensures forall x: nat :: |old(units)| <= x < |units| ==> x in v.free
    {
      hide DictOK, ListOK, Ex, Splice;
      var n := |units|;
      if n / 256 + 1 > 16 {
        FixBlock(n / 256 - 16);
      }
      ghost var low, ext := v.low, extras[..];
      GrowDict(units, v, ext, head);
      units := units + Zeros();
      if n / 256 + 1 > 16 {
        ClearBlock(n, low);
      }
      ghost var cleared := extras[..];
      assert Clear(cleared, n, n + 256);
      ChainBlock(n, low);
      GrowReady(ext, cleared, extras[..], low, n);
      GrowWindow(n, ext, extras[..], head, v);
      SpliceBlock(n);
      v := v.(free := v.free + Fresh(n));
      forall x: nat | n <= x < n + 256 ensures x in v.free {
        assert v.free[|v.free| - 256 + (x - n)] == x;
      }
    }

    /** Takes id out of the free list, growing the array first when needed. */
    method ReserveId(id: nat)
      requires Valid() && Steady()
      requires id in v.free || |units| <= id < |units| + 256
      modifies this`units, this`head, this`v, extras
      ensures Valid()
      ensures v == old(v).(free := v.free, low := v.low, hole := {id})
      ensures v.low == if |units| > 4096 then |units| - 4096 else 0
      ensures |units| == (if id < |old(units)| then |old(units)| else |old(units)| + 256)
      ensures labels == old(labels)
      ensures id < |old(units)| ==> forall x :: x != id ==> (x in v.free <==> x in old(v).free)
      ensures id >= |old(units)| ==> forall x: nat :: |old(units)| <= x < |units| && x != id ==> x in v.free
      ensures forall x: nat :: x < |old(units)| && (x >= v.low || x in v.owner) ==> units[x] == old(units)[x]
    {
      hide BuilderOK;
      FreeInRange();
      if id >= |units| {
        ExpandUnits();
      }
      Detach(id);
    }

    lemma FreeInRange()
      requires Valid()
      ensures forall x :: x in v.free ==> v.low <= x < |units|
    {
    }

    // ---- fix_all_blocks ----

    method FixAllBlocks()
      requires Valid() && Steady()
      modifies this`units, this`head, this`v, extras
      ensures Valid() && v.low == |units|
      ensures v == old(v).(free := v.free, low := v.low)
      ensures |units| == |old(units)|
      ensures forall id: nat :: id < |units| && id in v.owner ==> units[id] == old(units)[id]
      ensures |units| == 256 ==> forall z :: Least(v.used, 0, z) ==> Filled(units, v.owner, 0, 256, z)
    {
      hide BuilderOK, Least, Filled;
      BlocksWhole();
      var block := 0;
      if |units| / 256 > 16 {
        block := |units| / 256 - 16;
      }
      while block != |units| / 256
        invariant 0 <= block <= |units| / 256 && v.low == block * 256
        invariant Valid()
        invariant v == old(v).(free := v.free, low := v.low)
        invariant |units| == |old(units)|
        invariant forall id: nat :: id < |units| && id in v.owner ==> units[id] == old(units)[id]
        invariant block == 1 && |units| == 256 ==> forall z :: Least(v.used, 0, z) ==> Filled(units, v.owner, 0, 256, z)
      {
        FixBlock(block);
        block := block + 1;
      }
    }

    lemma BlocksWhole()
      requires Valid()
      ensures |units| % 256 == 0
    {
    }

    // ---- find_valid_offset ----

    /** The offset is unused, representable from id, and every slot after the first is free. */
    ghost predicate Eligible(id: nat, offset: nat)
      reads this
    {
      && offset !in v.used && Encodable(Xor(id, offset))
      && forall i :: 1 <= i < |labels| ==> Xor(offset, labels[i]) in v.free
    }

    // None of the first n free ids is fit for the first label.
    ghost predicate NoneBefore(id: nat, n: nat)
      reads this
      requires labels != [] && n <= |v.free|
    {
      forall j :: 0 <= j < n ==> !Eligible(id, Xor(v.free[j], labels[0]))
    }

    /** The first fit along the free list, or the offset in a new block when there is none. */
    ghost predicate FirstFit(id: nat, offset: nat)
      reads this
      requires labels != []
    {
      if offset < |units| then
        exists k ::
          && 0 <= k < |v.free| && NoneBefore(id, k) && offset == Xor(v.free[k], labels[0])
          && Eligible(id, offset)
      else offset == |units| + id % 256 && NoneBefore(id, |v.free|)
    }

    /** Whether all labels fit at offset. */
    method IsValidOffset(id: nat, offset: nat) returns (ok: bool)
      requires Valid() && v.low <= offset < |units| && v.low % 256 == 0
      ensures ok <==> Eligible(id, offset)
    {
      hide BuilderOK, Encodable, Xor;
      UsedIff(offset);
      if extras[offset % 4096].used {
        return false;
      }
      if !Encodable(Xor(id, offset)) {
        return false;
      }
      var i := 1;
      while i < |labels|
        invariant 1 <= i
        invariant forall j :: 1 <= j < i && j < |labels| ==> Xor(offset, labels[j]) in v.free
      {
        XorBlock(offset, labels[i]);
        BlocksWhole();
        FixedIff(Xor(offset, labels[i]));
        if extras[Xor(offset, labels[i]) % 4096].fixed {
          return false;
        }
        i := i + 1;
      }
      return true;
    }

    // An offset that find_valid_offset may return for node id.
    ghost predicate Fits(id: nat, offset: nat)
      reads this
    {
      && v.low <= offset < |units| + 256
      && offset !in v.used
      && Encodable(Xor(id, offset))
      && forall i :: 0 <= i < |labels| ==>
           var child := Xor(offset, labels[i]);
           if offset < |units| then child in v.free else |units| <= child < |units| + 256
    }

    /** The first fit along the free list, or an offset in a new block. */
    method FindValidOffset(id: nat) returns (offset: nat)
      requires Valid() && v.low % 256 == 0 && labels != []
      ensures Fits(id, offset) && FirstFit(id, offset)
    {
      hide BuilderOK, Encodable, Xor, Ex, Eligible, Fits;
      Fallback(id);
      HeadFacts();
      if head >= |units| {
        return |units| + id % 256;
      }
      var unfixed := head;
      ghost var k := 0;
      while true
        invariant 0 <= k < |v.free| && unfixed == v.free[k] && NoneBefore(id, k)
        decreases |v.free| - k
      {
        XorBlock(unfixed, labels[0]);
        XorCancel(unfixed, labels[0]);
        offset := Xor(unfixed, labels[0]);
        var ok := IsValidOffset(id, offset);
        if ok {
          EligibleFits(id, offset);
          return;
        }
        NextFree(k);
        unfixed := extras[unfixed % 4096].next;
        if unfixed == head {
          OneRound(k);
          break;
        }
        k := k + 1;
      }
      return |units| + id % 256;
    }

    lemma EligibleFits(id: nat, offset: nat)
      requires labels != [] && v.low <= offset < |units| && Eligible(id, offset) && Xor(offset, labels[0]) in v.free
      ensures Fits(id, offset)
    {
      hide Encodable, Xor;
    }

    // Back at the head, the whole list has been seen.
    lemma OneRound(k: nat)
      requires Valid() && k < |v.free| && head == v.free[Succ(k, |v.free|)]
      ensures k + 1 == |v.free|
    {
      hide DictOK, Ex;
    }

    lemma Fallback(id: nat)
      requires Valid()
      ensures Fits(id, |units| + id % 256)
    {
      hide DictOK, Xor;
      var w := |units| + id % 256;
      assert w % 256 == id % 256;
      XorSplit256(id, w);
      XorSelf(id % 256);
      assert Encodable(Xor(id, w));
      forall i | 0 <= i < |labels| ensures |units| <= Xor(w, labels[i]) < |units| + 256 {
        XorBlock(w, labels[i]);
      }
    }

    lemma HeadFacts()
      requires Valid()
      ensures |units| % 256 == 0 && (forall k :: 0 <= k < |v.free| ==> v.low <= v.free[k] < |units|)
      ensures if head < |units| then v.free != [] && head == v.free[0] else v.free == []
    {
      hide DictOK, Ex;
    }

    lemma NextFree(k: nat)
      requires Valid() && k < |v.free|
      ensures head == v.free[0]
      ensures extras[v.free[k] % 4096].next == v.free[Succ(k, |v.free|)]
      ensures k + 1 < |v.free| ==> v.free[k + 1] != head
    {
      assert Linked(extras[..], v.free, k);
    }

    lemma UsedIff(id: nat)
      requires Valid() && v.low <= id < |units|
      ensures extras[id % 4096].used <==> id in v.used
    {
      assert Ex(extras[..], id).used <==> id in v.used;
    }

    // ---- placing the children of a node ----

    // Besides, every block but the first was added for a node of its own.
    ghost predicate Quiet()
      reads this, extras
    {
      Valid() && Steady() && Settled(units, v) && |units| <= 256 * (|v.done| + 1)
    }

    method SetOffset(d: nat, offset: nat) returns (ok: bool)
      requires Valid() && d in v.lang && d !in v.done && Encodable(offset)
      modifies this`units
      ensures Valid() && d < |units| && |units| == |old(units)|
      ensures ok <==> offset < OFFSET_LIMIT
      ensures forall x: nat :: x < |units| && x != d ==> units[x] == old(units)[x]
      ensures ok ==> OffsetOf(units[d]) == offset && HasLeaf(units[d]) == HasLeaf(old(units)[d])
      ensures !ok ==> units == old(units)
    {
      hide DictOK, OffsetOf, HasLeaf, WithOffset, Encodable;
      TouchKeeps(units, v, d, 0);
      if offset >= OFFSET_LIMIT {
        return false;
      }
      OffsetRoundTrip(units[d], offset);
      TouchKeeps(units, v, d, WithOffset(units[d], offset));
      units := units[d := WithOffset(units[d], offset)];
      return true;
    }

    method SetLeaf(d: nat)
      requires Valid() && d in v.lang && d !in v.done
      modifies this`units
      ensures Valid() && d < |units| && |units| == |old(units)|
      ensures forall x: nat :: x < |units| && x != d ==> units[x] == old(units)[x]
      ensures HasLeaf(units[d]) && OffsetOf(units[d]) == OffsetOf(old(units)[d])
    {
      hide DictOK, OffsetOf, HasLeaf, WithLeaf;
      TouchKeeps(units, v, d, 0);
      LeafFacts(units[d]);
      TouchKeeps(units, v, d, WithLeaf(units[d]));
      units := units[d := WithLeaf(units[d])];
    }

    // Reserves the child of label c and gives it its role.
    method PlaceChild(d: nat, w: nat, c: Byte, value: nat, ghost v0: View, ghost cs: set<Byte>)
      requires Valid() && Steady() && Placing(units, v, v0, d, w, value, cs) && c !in cs
      requires c == 0 ==> value < MSB
      requires Xor(w, c) in v.free || |units| <= Xor(w, c) < |units| + 256
      modifies this`units, this`head, this`v, extras
      ensures Valid() && Steady() && Placing(units, v, v0, d, w, value, cs + {c})
      ensures |units| == (if Xor(w, c) < |old(units)| then |old(units)| else |old(units)| + 256)
      ensures Xor(w, c) < |old(units)| ==> forall x :: x != Xor(w, c) ==> (x in v.free <==> x in old(v).free)
      ensures Xor(w, c) >= |old(units)| ==> forall x: nat :: |old(units)| <= x < |units| && x != Xor(w, c) ==>
          x in v.free
    {
      hide Xor, Placing, BuilderOK;
      ghost var units0, w0 := units, v;
      RolesNow();
      ReserveId(Xor(w, c));
      PlacingCarries(units0, units, w0, v, v0, d, w, value, cs);
      GiveRole(d, w, c, value, v0, cs);
    }

    method GiveRole(d: nat, w: nat, c: Byte, value: nat, ghost v0: View, ghost cs: set<Byte>)
      requires Valid() && Placing(units, v, v0, d, w, value, cs) && c !in cs
      requires c == 0 ==> value < MSB
      requires v.hole == {Xor(w, c)}
      modifies this`units, this`v
      ensures Valid() && Placing(units, v, v0, d, w, value, cs + {c})
      ensures |units| == |old(units)| && v.hole == {} && v.free == old(v).free && v.low == old(v).low
    {
      hide Xor, HasLeaf, OffsetOf, WithLabel, After, Placing, BuilderOK, WithValue, DictOK, WindowOK;
      UndecidedNow(v0, d, w, value, cs);
      ghost var flagless := units;
      DictNow();
      if c == 0 {
        SetLeaf(d);
        DictNow();
        XorZero(w);
        PlacingValue(flagless, units, v, v0, d, w, value, cs);
        RoleWindow(|units|, extras[..], head, v, Hung(v, w, w));
        units := units[Xor(w, c) := WithValue(value)];
        v := Hung(v, w, w);
      } else {
        PlacingNode(units, v, v0, d, w, value, cs, c);
        RoleWindow(|units|, extras[..], head, v, HungNode(v, w, Xor(w, c), After(v0.lang[d], [c])));
        units := units[Xor(w, c) := WithLabel(units[Xor(w, c)], c)];
        v := HungNode(v, w, Xor(w, c), After(v0.lang[d], [c]));
      }
      JoinState(units, extras[..], head, v);
    }

    // The children still to place have room.
    ghost predicate Room(w: nat, i: nat)
      reads this
    {
      && v.low <= w
      && forall j :: i <= j < |labels| ==>
           var child := Xor(w, labels[j]);
           if w < |units| then child in v.free else |units| <= child < |units| + 256
    }

    method PlaceNext(d: nat, w: nat, i: nat, value: nat, ghost v0: View)
      requires Valid() && Steady() && i < |labels| && NoRepeat(labels) && Room(w, i)
      requires Placing(units, v, v0, d, w, value, LabelSet(labels[..i]))
      requires labels[i] == 0 ==> value < MSB
      modifies this`units, this`head, this`v, extras
      ensures Valid() && Steady() && Room(w, i + 1) && w < |units|
      ensures |units| == if w < |old(units)| then |old(units)| else |old(units)| + 256
      ensures Placing(units, v, v0, d, w, value, LabelSet(labels[..i + 1]))
    {
      hide Xor, Placing, BuilderOK;
      BlocksWhole();
      LabelSetStep(labels, i);
      XorBlock(w, labels[i]);
      PlaceChild(d, w, labels[i], value, v0, LabelSet(labels[..i]));
      forall j | i + 1 <= j < |labels|
        ensures Xor(w, labels[j]) in v.free
      {
        XorBlock(w, labels[j]);
        if Xor(w, labels[j]) == Xor(w, labels[i]) { XorInjective(w, labels[j], labels[i]); }
      }
    }

    /** Finds an offset for the listed labels, links node d to it and places one
        child per label; the child of label 0 holds the value. Fails only when the
        nodes of the dictionary are too many for any offset to reach. */
    method PlaceChildren(d: nat, value: nat) returns (r: Outcome, w: nat)
      requires Quiet() && d in v.lang && d !in v.done
      requires labels != [] && NoRepeat(labels) && LabelsOf(v.lang[d], LabelSet(labels))
      requires [] in v.lang[d] ==> value == v.lang[d][[]] && value < MSB
      modifies this`units, this`head, this`v, extras
      ensures r.Done? ==> Quiet() && d in old(v).lang && Arranged(old(v), v, d, w, LabelSet(labels))
      ensures r.Done? ==> Remaining(old(v), v, d, w, LabelSet(labels) - {0})
      ensures r.Failed? ==> r.error == TooLargeOffset && |old(units)| + 256 > OFFSET_LIMIT
      ensures r.Failed? ==> d in old(v).lang && Overfull(old(v), d)
    {
      hide Xor, HasLeaf, OffsetOf, Placing, BuilderOK, Settled, LabelsOf, Arranged, Encodable, LabelSet, NoRepeat;
      hide Size, Remaining;
      ghost var v0, units0 := v, units;
      StartFacts(d);
      w := FindValidOffset(d);
      LabelsSome(v.lang[d], labels);
      if |units| + 256 <= OFFSET_LIMIT {
        XorLimit(d, w);
      }
      var ok := SetOffset(d, Xor(d, w));
      if !ok {
        OverfullNow(v0, d, |units|);
        return Failed(TooLargeOffset), w;
      }
      XorCancel(d, w);
      PlacingStart(units0, units, v, d, w, value);
      PlaceAll(d, w, value, v0);
      RemainingStart(v0, v, d, w, LabelSet(labels));
      return Done, w;
    }

    method PlaceAll(d: nat, w: nat, value: nat, ghost v0: View)
      requires Valid() && Steady() && Room(w, 0) && Settled0(v0)
      requires Placing(units, v, v0, d, w, value, {})
      requires labels != [] && NoRepeat(labels) && d in v0.lang && LabelsOf(v0.lang[d], LabelSet(labels))
      requires [] in v0.lang[d] ==> value == v0.lang[d][[]] && value < MSB
      requires |units| <= 256 * (|v0.done| + 1)
      modifies this`units, this`head, this`v, extras
      ensures Quiet() && Arranged(v0, v, d, w, LabelSet(labels))
    {
      hide Xor, Placing, BuilderOK, Settled, LabelsOf, Arranged;
      assert LabelSet(labels[..0]) == {};
      var i := 0;
      while i < |labels|
        invariant 0 <= i <= |labels|
        invariant Valid() && Steady() && Placing(units, v, v0, d, w, value, LabelSet(labels[..i]))
        invariant labels == old(labels)
        invariant i > 0 ==> w < |units|
        invariant |units| <= |old(units)| + if i > 0 then 256 else 0
        invariant Room(w, i)
      {
        if labels[i] == 0 { ZeroLabel(v0.lang[d], labels, i); }
        PlaceNext(d, w, i, value, v0);
        i := i + 1;
      }
      assert labels[..i] == labels;
      MarkUsed(d, w, value, v0);
    }

    method MarkUsed(d: nat, w: nat, value: nat, ghost v0: View)
      requires Valid() && Steady() && Settled0(v0) && v.low <= w < |units|
      requires Placing(units, v, v0, d, w, value, LabelSet(labels))
      requires labels != [] && d in v0.lang && LabelsOf(v0.lang[d], LabelSet(labels))
      requires [] in v0.lang[d] ==> value == v0.lang[d][[]]
      requires |units| <= 256 * (|v0.done| + 2)
      modifies this`v, extras
      ensures Quiet() && Arranged(v0, v, d, w, LabelSet(labels))
    {
      hide Xor, Placing, BuilderOK, Settled, LabelsOf, Arranged, WindowOK, DictOK;
      EndFacts(v0, d, w, value, labels[0]);
      PlacingDone(units, v, v0, d, w, value, LabelSet(labels));
      UseWindow(|units|, extras[..], head, v, Committed(v, d, w, Xor(w, labels[0])), w);
      PutUsed(w, true);
      v := Committed(v, d, w, Xor(w, labels[0]));
      JoinState(units, extras[..], head, v);
    }

    lemma StartFacts(d: nat)
      requires Quiet() && d in v.lang && d !in v.done
      ensures RolesOK(units, v) && v.low % 256 == 0 && d < |units| && !HasLeaf(units[d])
      ensures Settled0(v)
      ensures v.base.Keys <= v.used && v.done <= v.lang.Keys
    {
      hide HasLeaf, DictOK, Settled, RolesOK, WindowOK;
      DictNow();
      BlocksWhole();
      DictKeys(units, v);
      SettledBare(units, v, d);
    }

    lemma EndFacts(v0: View, d: nat, w: nat, value: nat, c: Byte)
      requires Valid() && Steady() && Settled0(v0) && Placing(units, v, v0, d, w, value, LabelSet(labels))
      requires c in LabelSet(labels) && LabelsOf(v0.lang[d], LabelSet(labels))
      requires [] in v0.lang[d] ==> value == v0.lang[d][[]]
      requires v.low <= w < |units|
      ensures d in v.lang && WindowOK(|units|, extras[..], head, v)
      ensures var v' := Committed(v, d, w, Xor(w, c));
              DictOK(units, v') && Settled(units, v') && Arranged(v0, v', d, w, LabelSet(labels))
    {
      hide Xor, Placing, DictOK, ListOK, Settled, Arranged, LabelsOf;
      PlacingCommit(units, v, v0, d, w, value, LabelSet(labels), c);
    }

    lemma RolesNow()
      requires Valid()
      ensures RolesOK(units, v) && forall id :: id in v.owner ==> id < |units|
    {
      hide RoleOK, FillersOK, ShapesOK, RepsOK, DonesOK, Partition, WindowOK;
      forall id | id in v.owner ensures id < |units| { OwnedInRange(units, v, id); }
    }

    lemma DictNow()
      requires Valid()
      ensures DictOK(units, v) && WindowOK(|units|, extras[..], head, v)
    {
    }

    lemma FinishedFacts()
      requires Valid()
      ensures |units| % 256 == 0 && (forall w :: w in v.used ==> w < |units|) && v.done <= v.lang.Keys
    {
      hide HasLeaf, RoleOK, FillersOK, ShapeOK, RepsOK, Partition, ListOK;
      forall x | x in v.done ensures x in v.lang { assert NodeDone(units, v, x); }
    }

    // An offset between two ids of the array is too large only when the array is.
    lemma ShareFits(d: nat, base: nat)
      requires Quiet() && Pending(v, d) && base in v.base && v.lang[d] != map[]
      ensures Xor(base, d) >= OFFSET_LIMIT ==> Overfull(v, d)
    {
      hide Xor, BuilderOK, Settled, Overfull;
      StartFacts(d);
      BaseInside(base);
      if |units| <= OFFSET_LIMIT {
        XorLimit(base, d);
      } else {
        OverfullNow(v, d, |units|);
      }
    }

    lemma BaseInside(w: nat)
      requires Valid() && w in v.base
      ensures w < |units|
    {
      hide RolesOK, FillersOK, RepsOK, Partition, DonesOK, ListOK, ShapeOK, Ex;
      assert w in v.used;
    }

    lemma BaseNotZero(w: nat)
      requires Valid() && w in v.base
      ensures w != 0
    {
    }

    lemma UndecidedNow(v0: View, d: nat, w: nat, value: nat, cs: set<Byte>)
      requires Placing(units, v, v0, d, w, value, cs)
      ensures d in v0.lang && d in v.lang && d !in v.done
    {
    }

    // ---- sharing ----

    /** Links node d to the offset of an already arranged node with the same
        suffixes, when that offset is representable from d. */
    method ShareOffset(d: nat, base: nat, leaf: bool) returns (ok: bool)
      requires Quiet() && Pending(v, d) && base in v.base && v.base[base] == v.lang[d]
      requires Encodable(Xor(base, d)) && (leaf <==> [] in v.lang[d]) && v.lang[d] != map[]
      modifies this`units, this`v
      ensures ok ==> Quiet() && v == old(v).(done := old(v).done + {d})
      ensures !ok ==> d in old(v).lang && Overfull(old(v), d)
    {
      hide Xor, HasLeaf, OffsetOf, BuilderOK, Settled, Encodable, Overfull;
      ghost var units0 := units;
      StartFacts(d);
      ShareFits(d, base);
      if leaf {
        SetLeaf(d);
      }
      ok := SetOffset(d, Xor(base, d));
      if ok {
        XorComm(base, d);
        XorCancel(d, base);
        ShareState(d, units0);
        v := v.(done := v.done + {d});
      }
    }

    // The node counts as decided once its word points to the offset of an equal one.
    lemma ShareState(d: nat, units0: seq<Word>)
      requires Valid() && d in v.lang && d < |units|
      requires Base(units, d) in v.base && v.base[Base(units, d)] == v.lang[d]
      requires HasLeaf(units[d]) <==> [] in v.lang[d]
      requires Settled(units0, v) && |units| == |units0|
      requires forall x: nat :: x < |units| && x != d ==> units[x] == units0[x]
      ensures BuilderOK(units, extras[..], head, v.(done := v.done + {d}))
      ensures Settled(units, v.(done := v.done + {d}))
    {
      hide Xor, HasLeaf, OffsetOf, BuilderOK, Settled;
      DictNow();
      ShareKeeps(units, v, d);
      ShareSettles(units0, units, v, d);
      RoleWindow(|units|, extras[..], head, v, v.(done := v.done + {d}));
      JoinState(units, extras[..], head, v.(done := v.done + {d}));
    }

    // ---- the root ----

    /** The root is reserved with id 0; offset 0 is marked used, so that no node
        ever gets a base whose transitions could land on the root. */
    method PlantRoot(ghost L: Lang)
      requires Valid() && Steady() && units == [] && v == EmptyView()
      modifies this`units, this`head, this`v, extras
      ensures Quiet() && |units| == 256 && units[0] == 1024
      ensures v == EmptyView().(free := v.free, used := {0}, rep := map[0 := 0], owner := map[0 := 0],
          lang := map[0 := L])
    {
      hide Xor, BuilderOK, WithLabel, WithOffset, OffsetOf, HasLeaf, DictOK, WindowOK;
      ReserveId(0);
      ghost var reserved := units;
      DictNow();
      HoleZero(units, v, 0);
      RootWord();
      UseWindow(|units|, extras[..], head, v, v.(used := {0}), 0);
      PutUsed(0, true);
      units := units[0 := WithOffset(units[0], 1)];
      units := units[0 := WithLabel(units[0], 0)];
      assert units == reserved[0 := 1024];
      RootState(reserved, v, L);
      RoleWindow(|units|, extras[..], head, v.(used := {0}), RootView(v, L));
      v := RootView(v, L);
      JoinState(units, extras[..], head, v);
    }

    lemma FixedIff(id: nat)
      requires Valid() && v.low <= id < |units|
      ensures extras[id % 4096].fixed <==> id !in v.free
    {
      assert Ex(extras[..], id).fixed <==> id !in v.free;
    }
  }

  /** The fillers from begin up to end are labelled against the offset z. */
  ghost predicate Filled(units: seq<Word>, owner: map<nat, nat>, begin: nat, end: nat, z: nat) {
    forall x :: begin <= x < end && x < |units| && x !in owner ==> units[x] == Xor(x, z) % 256
  }

  lemma DetachState(units: seq<Word>, ext: Extras, head: nat, v: View, k: nat)
    requires BuilderOK(units, ext, head, v) && k < |v.free|
    ensures BuilderOK(units, Unlink(ext, v.free[k]), HeadAfter(ext, head, v.free[k], |units|), Detached(v, k))
    ensures Detached(v, k) == v.(free := Detached(v, k).free, hole := v.hole + {v.free[k]})
    ensures forall x :: x in Detached(v, k).free <==> x in v.free && x != v.free[k]
  {
    hide DictOK, Unlink, Ex, FlagsOK, Ring, HeadAfter, Remove;
    DetachWindow(|units|, ext, head, v, k);
    DetachKeeps(units, v, k);
    forall x: nat ensures x in Remove(v.free, k) <==> x in v.free && x != v.free[k] {
      RemoveMembers(v.free, k, x);
    }
  }

  // A block with a free id has an unused offset.
  lemma UnusedExists(units: seq<Word>, ext: Extras, head: nat, v: View, begin: nat, id: nat)
    requires BuilderOK(units, ext, head, v) && begin % 256 == 0 && begin <= id < begin + 256
    requires id in v.free
    ensures !(Ids(begin, begin + 256) <= v.used)
  {
    hide RolesOK, FillersOK, RepsOK, ShapesOK, DonesOK, Ids;
    if Ids(begin, begin + 256) <= v.used {
      Pigeonhole(units, v, begin, id);
      assert false;
    }
  }

  lemma FillState(units: seq<Word>, ext: Extras, head: nat, v: View, z: nat)
    requires BuilderOK(units, ext, head, v) && v.low in v.hole
    requires z / 256 == v.low / 256 && z !in v.used
    ensures v.low < |units| && v.low !in v.owner
    ensures WithLabel(units[v.low], Xor(v.low, z) % 256) == Xor(v.low, z) % 256
    ensures BuilderOK(units[v.low := WithLabel(units[v.low], Xor(v.low, z) % 256)], ext, head,
                      v.(low := v.low + 1, hole := v.hole - {v.low}))
  {
    hide Xor, RolesOK, FillersOK, RepsOK, ShapesOK, DonesOK;
    XorSameBlock(v.low, z);
    FillKeeps(units, v, z);
    RaiseWindow(|units|, ext, head, v);
  }

  lemma PassState(units: seq<Word>, ext: Extras, head: nat, v: View)
    requires BuilderOK(units, ext, head, v) && v.low < |units| && v.hole == {} && v.low !in v.free
    ensures BuilderOK(units, ext, head, v.(low := v.low + 1))
    ensures v.low in v.owner
  {
    hide RolesOK, FillersOK, RepsOK, ShapesOK, DonesOK;
    PassKeeps(units, v);
    RaiseWindow(|units|, ext, head, v);
  }

  lemma GrowDict(units: seq<Word>, v: View, ext: Extras, head: nat)
    requires BuilderOK(units, ext, head, v)
    ensures DictOK(units + Zeros(), v.(free := v.free + Fresh(|units|)))
  {
    hide DictOK;
    GrowKeeps(units, v);
  }

  lemma JoinState(units: seq<Word>, ext: Extras, head: nat, v: View)
    requires WindowOK(|units|, ext, head, v) && DictOK(units, v)
    ensures BuilderOK(units, ext, head, v)
  {
  }

  ghost function LabelSet(labels: seq<Byte>): set<Byte> {
    set c | c in labels
  }

  ghost predicate NoRepeat(labels: seq<Byte>) {
    forall i, j :: 0 <= i < j < |labels| ==> labels[i] != labels[j]
  }

  lemma LabelSetStep(labels: seq<Byte>, i: nat)
    requires i < |labels| && NoRepeat(labels)
    ensures LabelSet(labels[..i + 1]) == LabelSet(labels[..i]) + {labels[i]}
    ensures labels[i] !in LabelSet(labels[..i])
  {
    assert labels[..i + 1] == labels[..i] + [labels[i]];
  }

  // A dictionary with labels has keys.
  lemma LabelsSome(L: Lang, labels: seq<Byte>)
    requires labels != [] && LabelsOf(L, LabelSet(labels))
    ensures L != map[]
  {
    assert labels[0] in LabelSet(labels);
  }

  lemma PlacingDone(units: seq<Word>, v: View, v0: View, d: nat, w: nat, value: nat, cs: set<Byte>)
    requires Placing(units, v, v0, d, w, value, cs)
    ensures v.done == v0.done && d !in v.done
  {
  }

  // A label 0 stands for a value.
  lemma ZeroLabel(L: Lang, labels: seq<Byte>, i: nat)
    requires LabelsOf(L, LabelSet(labels)) && i < |labels| && labels[i] == 0
    ensures [] in L
  {
    assert 0 in LabelSet(labels);
  }

  // ---- the first state ----

  ghost function EmptyView(): View {
    View([], 0, {}, {}, map[], map[], map[], map[], {})
  }

  ghost function RootView(v: View, L: Lang): View {
    v.(used := {0}, rep := map[0 := 0], owner := map[0 := 0], lang := map[0 := L], hole := {})
  }

  lemma HoleZero(units: seq<Word>, v: View, id: nat)
    requires DictOK(units, v) && id in v.hole
    ensures id < |units| && units[id] == 0
  {
    hide RolesOK, FillersOK, ShapesOK, RepsOK, DonesOK;
  }

  lemma RootWord()
    ensures WithOffset(0, 1) == 1024 && WithLabel(1024, 0) == 1024
    ensures !HasLeaf(1024) && OffsetOf(1024) == 1
  {
    hide Or;
    OrZero(1024);
    assert Kept(0) == 0;
  }

  lemma RootState(units: seq<Word>, v: View, L: Lang)
    requires DictOK(units, v) && v.hole == {0} && v.low == 0
    requires v == EmptyView().(free := v.free, hole := {0})
    ensures |units| > 0
    ensures DictOK(units[0 := 1024], RootView(v, L))
    ensures Settled(units[0 := 1024], RootView(v, L))
  {
    hide Xor, HasLeaf, OffsetOf, DictOK, Settled, RoleOK;
    HoleZero(units, v, 0);
    var units', v1 := units[0 := 1024], HungNode(v, 0, 0, L);
    RootRole(units', v1);
    AddRoleKeeps(units, units', v, v1, 0, 0);
    RootUsed(units', v1);
    RootViewIs(v, L);
    RootSettled(units', v, L);
  }

  lemma RootViewIs(v: View, L: Lang)
    requires v == EmptyView().(free := v.free, hole := {0})
    ensures HungNode(v, 0, 0, L).(used := {0}, rep := map[0 := 0]) == RootView(v, L)
  {
  }

  lemma RootSettled(units: seq<Word>, v: View, L: Lang)
    requires |units| > 0 && units[0] == 1024
    ensures Settled(units, RootView(v, L))
  {
    hide HasLeaf, OffsetOf, WithOffset, WithLabel;
    var v' := RootView(v, L);
    assert Bare(units, 0) by { RootWord(); }
    assert v'.owner[0] == 0 && v'.owner.Keys == {0} && v'.lang.Keys == {0};
    forall d | d in v'.lang && d !in v'.done ensures Bare(units, d) {
    }
    forall id | id in v'.owner ensures v'.owner[id] in v'.used {
    }
  }

  lemma RootRole(units: seq<Word>, v: View)
    requires 0 in v.owner && v.owner[0] == 0 && 0 in v.lang && |units| > 0 && units[0] == 1024
    ensures RoleOK(units, v, 0)
  {
    hide Xor;
    XorZero(0);
  }

  lemma RootUsed(units: seq<Word>, v: View)
    requires DictOK(units, v) && v.used == {} && v.base == map[] && v.done == {} && v.low == 0
    requires 0 in v.owner && v.owner[0] == 0
    ensures DictOK(units, v.(used := {0}, rep := map[0 := 0]))
  {
    hide Xor, HasLeaf, OffsetOf, RoleOK, ShapeOK, NodeDone;
    var v' := v.(used := {0}, rep := map[0 := 0]);
    assert Hangs(v', 0, 0);
    forall x | x in v'.owner ensures RoleOK(units, v', x) {
      CommitRole(units, v, v', x);
    }
  }

  lemma ShareSettles(units0: seq<Word>, units: seq<Word>, v: View, d: nat)
    requires Settled(units0, v) && |units| == |units0|
    requires forall x: nat :: x < |units| && x != d ==> units[x] == units0[x]
    ensures Settled(units, v.(done := v.done + {d}))
  {
    hide HasLeaf;
    var v' := v.(done := v.done + {d});
    forall x | x in v'.lang && x !in v'.done ensures Bare(units, x) {
      assert Bare(units0, x);
    }
  }

  // ---- the last state ----

  // The array built from no keys.
  lemma EmptyIs(units: seq<Word>, v: View)
    requires |units| == 256 && v.owner == map[0 := 0] && v.used == {0} && units[0] == 1024
    requires forall z :: Least(v.used, 0, z) ==> Filled(units, v.owner, 0, 256, z)
    ensures units == EmptyArray()
  {
    hide Xor;
    assert Least(v.used, 0, 1);
  }

  lemma AllDecided(v0: View, v: View, d: nat)
    requires Decides(v0, v, d) && v0.lang.Keys == {d} && v.done <= v.lang.Keys
    ensures d in v.lang && v.lang[d] == v0.lang[d] && v.done == v.lang.Keys
  {
    forall id | id in v.lang ensures id in v.done {
      if id !in v.done { assert Pending(v, id); }
    }
  }
}
