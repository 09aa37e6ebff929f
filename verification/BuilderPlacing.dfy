/** Placing the children of one node below a fresh offset, one label at a time. */
module BuilderPlacing {
  import opened Bits
  import opened Units
  import opened Languages
  import opened Prefixes
  import opened DoubleArray
  import opened BuilderInvariant
  import opened BuilderSteps

  // Of the ghost state only the roles change while children are placed.
  ghost predicate SameRest(v0: View, v: View) {
    v == v0.(free := v.free, low := v.low, hole := v.hole, owner := v.owner, lang := v.lang)
  }

  ghost predicate Keeps(v0: View, v: View, w: nat) {
    && (forall id :: id in v0.owner ==> id in v.owner && v.owner[id] == v0.owner[id])
    && (forall id :: id in v.owner ==> id in v0.owner || v.owner[id] == w)
    && (forall id :: id in v0.lang ==> id in v.lang && v.lang[id] == v0.lang[id])
    && (forall id :: id in v.lang ==> id in v0.lang || Hangs(v, w, id))
  }

  ghost predicate Bare(units: seq<Word>, id: nat) {
    id < |units| && !HasLeaf(units[id])
  }

  // The child of label c is in place.
  ghost predicate Placed(units: seq<Word>, v: View, w: nat, L: Lang, c: Byte) {
    && Xor(w, c) in v.lang && v.lang[Xor(w, c)] == After(L, [c]) && Bare(units, Xor(w, c))
  }

  ghost predicate ValuePlaced(units: seq<Word>, v: View, w: nat, value: nat) {
    w !in v.lang && w < |units| && ValueOf(units[w]) == value
  }

  // The children placed so far below offset w of node d are those of labels cs.
  ghost predicate Placing(units: seq<Word>, v: View, v0: View, d: nat, w: nat, value: nat, cs: set<Byte>) {
    && d in v0.lang && d !in v0.done && w !in v0.used && d in v0.owner && v0.owner[d] != w
    && SameRest(v0, v) && Keeps(v0, v, w)
    && (forall c: Byte :: Hangs(v, w, Xor(w, c)) <==> c in cs)
    && (forall c: Byte :: c in cs && c != 0 ==> Placed(units, v, w, v0.lang[d], c))
    && (0 in cs ==> ValuePlaced(units, v, w, value))
    && d < |units| && Base(units, d) == w && (HasLeaf(units[d]) <==> 0 in cs)
    && (forall x :: x in v0.lang && x !in v0.done && x != d ==> Bare(units, x))
  }

  lemma PlacingCarries(units: seq<Word>, units': seq<Word>, v: View, v': View, v0: View,
                       d: nat, w: nat, value: nat, cs: set<Byte>)
    requires Placing(units, v, v0, d, w, value, cs)
    requires v' == v.(free := v'.free, low := v'.low, hole := v'.hole)
    requires RolesOK(units, v) && |units| <= |units'|
    requires forall id: nat :: id < |units| && id in v.owner ==> units'[id] == units[id]
    ensures Placing(units', v', v0, d, w, value, cs)
  {
    hide Xor, HasLeaf, OffsetOf, ValueOf, After, RoleOK;
    assert Base(units', d) == Base(units, d);
    forall c: Byte ensures Hangs(v', w, Xor(w, c)) <==> c in cs {
      assert Hangs(v, w, Xor(w, c)) <==> c in cs;
    }
    forall c: Byte | c in cs && c != 0 ensures Placed(units', v', w, v0.lang[d], c) {
      assert Placed(units, v, w, v0.lang[d], c);
    }
    if 0 in cs {
      XorZero(w);
      assert Hangs(v, w, Xor(w, 0));
    }
    forall x | x in v0.lang && x !in v0.done && x != d ensures Bare(units', x) {
      assert Bare(units, x);
    }
  }

  // One more id hangs from w.
  lemma HangsAdd(v: View, v': View, w: nat, c: Byte, cs: set<Byte>)
    requires forall b: Byte :: Hangs(v, w, Xor(w, b)) <==> b in cs
    requires v'.owner == v.owner[Xor(w, c) := w]
    ensures forall b: Byte :: Hangs(v', w, Xor(w, b)) <==> b in cs + {c}
  {
    hide Xor;
    forall b: Byte ensures Hangs(v', w, Xor(w, b)) <==> b in cs + {c} {
      assert Hangs(v, w, Xor(w, b)) <==> b in cs;
      if b != c && Xor(w, b) == Xor(w, c) { XorInjective(w, b, c); }
    }
  }

  // What was in place stays when a new id gets its role.
  lemma PlacedStays(units: seq<Word>, units': seq<Word>, v: View, v': View, v0: View,
                    d: nat, w: nat, value: nat, cs: set<Byte>, id: nat)
    requires Placing(units, v, v0, d, w, value, cs) && RolesOK(units, v)
    requires id !in v.owner && (forall x :: x in v.lang ==> x in v'.lang && v'.lang[x] == v.lang[x])
    requires |units'| == |units| && (forall x: nat :: x < |units| && x != d && x != id ==> units'[x] == units[x])
    ensures forall b: Byte :: b in cs && b != 0 ==> Placed(units', v', w, v0.lang[d], b)
    ensures forall x :: x in v0.lang && x !in v0.done && x != d ==> Bare(units', x)
  {
    hide Xor, After, OffsetOf, HasLeaf, RoleOK;
    forall b: Byte | b in cs && b != 0 ensures Placed(units', v', w, v0.lang[d], b) {
      assert Placed(units, v, w, v0.lang[d], b);
      assert Hangs(v, w, Xor(w, b));
    }
    forall x | x in v0.lang && x !in v0.done && x != d ensures Bare(units', x) {
      assert Bare(units, x);
      assert x in v.lang;
    }
  }

  lemma PlacingNode(units: seq<Word>, v: View, v0: View, d: nat, w: nat, value: nat, cs: set<Byte>, c: Byte)
    requires Placing(units, v, v0, d, w, value, cs) && c !in cs && c != 0
    requires DictOK(units, v) && Xor(w, c) in v.hole
    ensures Xor(w, c) < |units|
    ensures var id := Xor(w, c);
            var units', v' := units[id := WithLabel(units[id], c)], HungNode(v, w, id, After(v0.lang[d], [c]));
            DictOK(units', v') && Placing(units', v', v0, d, w, value, cs + {c})
  {
    hide Xor, After, Placing, FillersOK, ShapesOK, DonesOK, RepsOK, RolesOK, WithLabel;
    assert w !in v.used && d in v0.lang by { PlacingUnused(units, v, v0, d, w, value, cs); }
    var id := Xor(w, c);
    XorBlock(w, c);
    XorCancel(w, c);
    NewNodeKeeps(units, v, w, id, After(v0.lang[d], [c]));
    PlacingNodeRoles(units, v, v0, d, w, value, cs, c);
  }

  lemma PlacingUnused(units: seq<Word>, v: View, v0: View, d: nat, w: nat, value: nat, cs: set<Byte>)
    requires Placing(units, v, v0, d, w, value, cs)
    ensures w !in v.used && d in v0.lang
  {
  }

  lemma PlacingNodeRoles(units: seq<Word>, v: View, v0: View, d: nat, w: nat, value: nat, cs: set<Byte>, c: Byte)
    requires Placing(units, v, v0, d, w, value, cs) && c !in cs && c != 0
    requires RolesOK(units, v) && Xor(w, c) !in v.owner && Xor(w, c) < |units| && units[Xor(w, c)] == 0
    ensures var id := Xor(w, c);
            var units', v' := units[id := WithLabel(units[id], c)], HungNode(v, w, id, After(v0.lang[d], [c]));
            Placing(units', v', v0, d, w, value, cs + {c})
  {
    hide Xor, After, OffsetOf, WithLabel, HasLeaf, ValueOf, RoleOK;
    var id, K := Xor(w, c), After(v0.lang[d], [c]);
    BareZero(units[id], c);
    var units', v' := units[id := WithLabel(units[id], c)], HungNode(v, w, id, K);
    assert d in v.owner;
    assert Base(units', d) == Base(units, d);
    HangsAdd(v, v', w, c, cs);
    PlacedStays(units, units', v, v', v0, d, w, value, cs, id);
    assert Placed(units', v', w, v0.lang[d], c);
    if 0 in cs {
      XorZero(w);
      assert Hangs(v, w, Xor(w, 0));
    }
    assert Keeps(v0, v', w);
  }

  lemma BareZero(u: Word, c: Byte)
    requires u == 0
    ensures !HasLeaf(WithLabel(u, c))
  {
  }

  // The leaf flag of d has been set; the value is written next.
  lemma PlacingValue(units: seq<Word>, flagged: seq<Word>, v: View, v0: View, d: nat, w: nat, value: nat, cs: set<Byte>)
    requires Placing(units, v, v0, d, w, value, cs) && 0 !in cs
    requires DictOK(units, v) && DictOK(flagged, v) && w in v.hole && value < MSB
    requires |flagged| == |units| && (forall x: nat :: x < |units| && x != d ==> flagged[x] == units[x])
    requires d < |units| && HasLeaf(flagged[d]) && OffsetOf(flagged[d]) == OffsetOf(units[d])
    ensures w < |units|
    ensures var units', v' := flagged[w := WithValue(value)], Hung(v, w, w);
            DictOK(units', v') && Placing(units', v', v0, d, w, value, cs + {0})
  {
    hide Xor, After, OffsetOf, FillersOK, ShapesOK, DonesOK, RepsOK, HasLeaf, ValueOf, RoleOK;
    XorZero(w);
    NewValueKeeps(flagged, v, w, value);
    ValueFacts(value);
    var units', v' := flagged[w := WithValue(value)], Hung(v, w, w);
    assert d in v.owner && w !in v.owner;
    assert Base(units', d) == Base(units, d);
    HangsAdd(v, v', w, 0, cs);
    PlacedStays(units, units', v, v', v0, d, w, value, cs, w);
    assert Keeps(v0, v', w);
  }

  // ---- start and end ----

  // Between two operations every hanging id hangs from a used offset, and an
  // undecided node has no leaf flag yet.
  ghost predicate Settled(units: seq<Word>, v: View) {
    && 0 in v.used
    && (forall id :: id in v.owner ==> v.owner[id] in v.used)
    && (forall d :: d in v.lang && d !in v.done ==> Bare(units, d))
  }

  lemma SettledBare(units: seq<Word>, v: View, d: nat)
    requires Settled(units, v) && RolesOK(units, v) && d in v.lang && d !in v.done
    ensures d < |units| && !HasLeaf(units[d]) && Settled0(v)
  {
    hide HasLeaf;
    assert Bare(units, d);
  }

  lemma DictKeys(units: seq<Word>, v: View)
    requires DictOK(units, v)
    ensures RolesOK(units, v) && v.base.Keys <= v.used && v.done <= v.lang.Keys
  {
    hide RolesOK, Partition, FillersOK, RepsOK, ShapeOK;
    forall x | x in v.done ensures x in v.lang {
      assert NodeDone(units, v, x);
    }
  }

  lemma PlacingStart(units0: seq<Word>, units: seq<Word>, v: View, d: nat, w: nat, value: nat)
    requires Settled(units0, v) && RolesOK(units0, v)
    requires d in v.lang && d !in v.done && w !in v.used
    requires |units| == |units0| && d < |units| && (forall x: nat :: x < |units| && x != d ==> units[x] == units0[x])
    requires Base(units, d) == w && !HasLeaf(units[d])
    ensures Placing(units, v, v, d, w, value, {})
  {
    hide Xor, After, OffsetOf, HasLeaf, ValueOf;
    assert RoleOK(units0, v, d);
    forall x | x in v.lang && x !in v.done && x != d ensures Bare(units, x) {
      assert Bare(units0, x);
    }
  }

  // cs are the labels of the children of a node of language L; 0 stands for a value.
  ghost predicate LabelsOf(L: Lang, cs: set<Byte>) {
    && !Starts(L, 0)
    && forall c: Byte :: c in cs <==> (if c == 0 then [] in L else Starts(L, c))
  }

  lemma PlacingShape(units: seq<Word>, v: View, v0: View, d: nat, w: nat, value: nat, cs: set<Byte>)
    requires Placing(units, v, v0, d, w, value, cs)
    requires LabelsOf(v0.lang[d], cs) && ([] in v0.lang[d] ==> value == v0.lang[d][[]])
    ensures ShapeOK(units, v, w, v0.lang[d])
  {
    hide Xor, After, Starts, OffsetOf, HasLeaf, ValueOf;
    var L := v0.lang[d];
    XorZero(w);
    assert Hangs(v, w, Xor(w, 0)) <==> 0 in cs;
    forall c: Byte | c != 0 ensures ChildOK(v, w, L, c) {
      assert Hangs(v, w, Xor(w, c)) <==> c in cs;
      if c in cs { assert Placed(units, v, w, L, c); }
    }
  }

  /** What arranging node d at offset w adds to the ghost state. */
  ghost predicate Arranged(v0: View, v: View, d: nat, w: nat, cs: set<Byte>)
    requires d in v0.lang
  {
    && v.done == v0.done + {d}
    && v.base == v0.base[w := v0.lang[d]]
    && (forall id :: id in v0.lang ==> id in v.lang && v.lang[id] == v0.lang[id])
    && (forall c: Byte :: c in cs && c != 0 ==>
          Xor(w, c) in v.lang && Xor(w, c) !in v0.lang && v.lang[Xor(w, c)] == After(v0.lang[d], [c]))
    && (forall id :: id in v.lang && id !in v0.lang ==>
          Xor(w, id) < 256 && Xor(w, id) in cs && Xor(w, id) != 0 && Xor(w, Xor(w, id)) == id)
  }

  lemma PlacingCommit(units: seq<Word>, v: View, v0: View, d: nat, w: nat, value: nat, cs: set<Byte>, c: Byte)
    requires Placing(units, v, v0, d, w, value, cs) && Settled0(v0) && c in cs
    requires LabelsOf(v0.lang[d], cs) && ([] in v0.lang[d] ==> value == v0.lang[d][[]])
    requires DictOK(units, v) && v.low % 256 == 0 && v.low <= w
    ensures d in v.lang
    ensures DictOK(units, Committed(v, d, w, Xor(w, c)))
    ensures Settled(units, Committed(v, d, w, Xor(w, c)))
    ensures Arranged(v0, Committed(v, d, w, Xor(w, c)), d, w, cs)
  {
    hide Xor, After, Starts, OffsetOf, HasLeaf, ValueOf, RolesOK, Partition, FillersOK, RepsOK, ShapesOK, DonesOK;
    hide ShapeOK;
    PlacingShape(units, v, v0, d, w, value, cs);
    assert Hangs(v, w, Xor(w, c));
    CommitKeeps(units, v, d, w, Xor(w, c));
    CommitSettles(units, v, v0, d, w, value, cs, c);
    CommitArranges(units, v, v0, d, w, value, cs, c);
  }

  ghost predicate Settled0(v0: View) {
    && 0 in v0.used
    && (forall id :: id in v0.owner ==> v0.owner[id] in v0.used)
    && (forall id :: id in v0.lang ==> id in v0.owner)
  }

  lemma CommitSettles(units: seq<Word>, v: View, v0: View, d: nat, w: nat, value: nat, cs: set<Byte>, c: Byte)
    requires Placing(units, v, v0, d, w, value, cs) && Settled0(v0) && RolesOK(units, v)
    ensures d in v.lang && Settled(units, Committed(v, d, w, Xor(w, c)))
  {
    hide Xor, After, OffsetOf, HasLeaf, ValueOf;
    var v' := Committed(v, d, w, Xor(w, c));
    forall x | x in v'.lang && x !in v'.done ensures Bare(units, x) {
      if x in v0.lang {
        assert Bare(units, x);
      } else {
        ChildLabel(units, v, v0, d, w, value, cs, x);
        assert Placed(units, v, w, v0.lang[d], Xor(w, x));
      }
    }
  }

  // A new node is the child of some placed label.
  lemma ChildLabel(units: seq<Word>, v: View, v0: View, d: nat, w: nat, value: nat, cs: set<Byte>, x: nat)
    requires Placing(units, v, v0, d, w, value, cs) && RolesOK(units, v)
    requires x in v.lang && x !in v0.lang
    ensures Xor(w, x) < 256 && Xor(w, x) in cs && Xor(w, x) != 0 && Xor(w, Xor(w, x)) == x
  {
    hide Xor, After, OffsetOf, HasLeaf, ValueOf;
    assert Hangs(v, w, x);
    assert RoleOK(units, v, x);
    XorSameBlock(w, x);
    XorCancel(w, x);
    var c: Byte := Xor(w, x);
    assert Hangs(v, w, Xor(w, c)) <==> c in cs;
    if c == 0 {
      XorZero(w);
    }
  }

  lemma CommitArranges(units: seq<Word>, v: View, v0: View, d: nat, w: nat, value: nat, cs: set<Byte>, c: Byte)
    requires Placing(units, v, v0, d, w, value, cs) && Settled0(v0) && RolesOK(units, v)
    ensures d in v.lang && Arranged(v0, Committed(v, d, w, Xor(w, c)), d, w, cs)
  {
    hide Xor, After, Placing, RolesOK;
    PlacingBasics(units, v, v0, d, w, value, cs);
    var v' := Committed(v, d, w, Xor(w, c));
    forall b: Byte | b in cs && b != 0
      ensures Xor(w, b) in v'.lang && Xor(w, b) !in v0.lang && v'.lang[Xor(w, b)] == After(v0.lang[d], [b])
    {
      ChildPlaced(units, v, v0, d, w, value, cs, b);
    }
    forall id | id in v'.lang && id !in v0.lang
      ensures Xor(w, id) < 256 && Xor(w, id) in cs && Xor(w, id) != 0 && Xor(w, Xor(w, id)) == id
    {
      ChildLabel(units, v, v0, d, w, value, cs, id);
    }
  }

  lemma PlacingBasics(units: seq<Word>, v: View, v0: View, d: nat, w: nat, value: nat, cs: set<Byte>)
    requires Placing(units, v, v0, d, w, value, cs)
    ensures d in v0.lang && v.done == v0.done && v.base == v0.base
    ensures forall id :: id in v0.lang ==> id in v.lang && v.lang[id] == v0.lang[id]
  {
  }

  lemma ChildPlaced(units: seq<Word>, v: View, v0: View, d: nat, w: nat, value: nat, cs: set<Byte>, b: Byte)
    requires Placing(units, v, v0, d, w, value, cs) && Settled0(v0) && b in cs && b != 0
    ensures Xor(w, b) in v.lang && Xor(w, b) !in v0.lang && v.lang[Xor(w, b)] == After(v0.lang[d], [b])
  {
    hide Xor, After, OffsetOf, HasLeaf, ValueOf;
    assert Placed(units, v, w, v0.lang[d], b);
    assert Hangs(v, w, Xor(w, b));
  }

  // ---- the accounts of a recursive build ----

  ghost predicate Pending(v: View, id: nat) {
    id in v.lang && id !in v.done
  }

  ghost predicate Extends(v: View, v': View) {
    && (forall id :: id in v.lang ==> id in v'.lang && v'.lang[id] == v.lang[id])
    && (forall w :: w in v.base ==> w in v'.base && v'.base[w] == v.base[w])
    && v.done <= v'.done
  }

  /** From v to v' exactly node d, with all that was built below it, got decided: no more nodes
      than the dictionary of d has prefixes. */
  ghost predicate Decides(v: View, v': View, d: nat) {
    && Extends(v, v')
    && d in v'.done
    && (forall id :: Pending(v', id) <==> Pending(v, id) && id != d)
    && (d in v.lang ==> |v'.done| <= |v.done| + Size(v.lang[d]))
  }

  // Node d is decided at offset w, but its children of labels rest are not.
  ghost predicate Remaining(v0: View, v: View, d: nat, w: nat, rest: set<Byte>)
    requires d in v0.lang
  {
    && Extends(v0, v) && d in v.done
    && (forall id :: Pending(v0, id) && id != d ==> Pending(v, id))
    && (forall c: Byte :: c in rest ==>
          Pending(v, Xor(w, c)) && v.lang[Xor(w, c)] == After(v0.lang[d], [c]) && Xor(w, c) !in v0.lang)
    && (forall id :: Pending(v, id) ==>
          (Pending(v0, id) && id != d) || (Xor(w, id) < 256 && Xor(w, id) in rest && Xor(w, Xor(w, id)) == id))
    && |v.done| + SizeBelow(v0.lang[d], rest) <= |v0.done| + Size(v0.lang[d])
  }

  lemma RemainingStart(v0: View, v: View, d: nat, w: nat, cs: set<Byte>)
    requires d in v0.lang && d !in v0.done && Arranged(v0, v, d, w, cs)
    requires w !in v0.base && v0.done <= v0.lang.Keys && v0.lang[d] != map[]
    ensures Remaining(v0, v, d, w, cs - {0})
  {
    hide Xor, After, SizeBelow, Size;
    BelowAll(v0.lang[d], cs - {0});
  }

  lemma RemainingStep(v0: View, v: View, v': View, d: nat, w: nat, rest: set<Byte>, c: Byte)
    requires d in v0.lang && Remaining(v0, v, d, w, rest) && c in rest
    requires Decides(v, v', Xor(w, c))
    ensures Remaining(v0, v', d, w, rest - {c})
  {
    hide Xor, After, SizeBelow, Size;
    forall b: Byte | b in rest - {c}
      ensures Pending(v', Xor(w, b)) && v'.lang[Xor(w, b)] == After(v0.lang[d], [b]) && Xor(w, b) !in v0.lang
    {
      if Xor(w, b) == Xor(w, c) { XorInjective(w, b, c); }
    }
    BelowSplit(v0.lang[d], rest, c);
  }

  lemma RemainingEnd(v0: View, v: View, d: nat, w: nat)
    requires d in v0.lang && Remaining(v0, v, d, w, {})
    ensures Decides(v0, v, d)
  {
    hide Xor, After, SizeBelow, Size;
    BelowNone(v0.lang[d]);
  }

  lemma ChildReady(v0: View, v: View, d: nat, w: nat, rest: set<Byte>, c: Byte)
    requires d in v0.lang && Remaining(v0, v, d, w, rest) && c in rest
    ensures Pending(v, Xor(w, c)) && v.lang[Xor(w, c)] == After(v0.lang[d], [c])
  {
  }

  // ---- when offsets run out ----

  /** Every node yet to come below d with a block of its own: more than offsets can reach. */
  ghost predicate Overfull(v: View, d: nat)
    requires d in v.lang
  {
    OFFSET_LIMIT < 256 * (|v.done| + Size(v.lang[d]) + 1)
  }

  // What is too much for a child is too much for its parent.
  lemma OverfullChild(v0: View, v: View, d: nat, w: nat, rest: set<Byte>, c: Byte)
    requires d in v0.lang && Remaining(v0, v, d, w, rest) && c in rest
    requires Xor(w, c) in v.lang && Overfull(v, Xor(w, c))
    ensures Overfull(v0, d)
  {
    hide Xor, After, SizeBelow, Size;
    BelowSplit(v0.lang[d], rest, c);
  }

  lemma OverfullNow(v: View, d: nat, n: nat)
    requires d in v.lang && v.lang[d] != map[]
    requires n <= 256 * (|v.done| + 1) && n + 256 > OFFSET_LIMIT
    ensures Overfull(v, d)
  {
    hide SizeBelow, Size;
    BelowAll(v.lang[d], {});
  }
}
