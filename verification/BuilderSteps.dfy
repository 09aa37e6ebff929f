/** Every elementary step of the double-array builder keeps the dictionary part
    of the invariant. */
module BuilderSteps {
  import opened Bits
  import opened Units
  import opened Languages
  import opened FreeList
  import opened DoubleArray
  import opened BuilderInvariant

  // ---- reserving and growing ----

  ghost function Detached(v: View, k: nat): View
    requires k < |v.free|
  {
    v.(free := Remove(v.free, k), hole := v.hole + {v.free[k]})
  }

  lemma DetachKeeps(units: seq<Word>, v: View, k: nat)
    requires DictOK(units, v) && k < |v.free| && Ascending(v.free) && Within(v.free, v.low, |units|)
    ensures DictOK(units, Detached(v, k))
  {
    hide RoleOK, FillerOK, ShapeOK, NodeDone, Remove, Ascending;
    var v' := Detached(v, k);
    assert Partition(units, v') by {
      forall id: nat | v.low <= id < |units|
        ensures id !in v'.free <==> id in v'.owner || id in v'.hole
      {
        RemoveMembers(v.free, k, id);
      }
    }
    CarryRoles(units, v, v');
    assert ShapesOK(units, v') by { CarryShapes(units, v, v'); }
    assert DonesOK(units, v') by { CarryDones(units, v, v'); }
  }

  // Roles, shapes and decided nodes depend on the dictionary fields only.
  ghost predicate SameDict(v: View, v': View) {
    v'.owner == v.owner && v'.lang == v.lang && v'.base == v.base && v'.done == v.done
    && v'.used == v.used && v'.rep == v.rep
  }

  lemma CarryRoles(units: seq<Word>, v: View, v': View)
    requires SameDict(v, v') && RolesOK(units, v) && RepsOK(v)
    ensures RolesOK(units, v') && RepsOK(v')
  {
    hide Xor;
    forall id | id in v'.owner ensures RoleOK(units, v', id) {
      assert RoleOK(units, v, id);
    }
    forall w | w in v'.used ensures w in v'.rep && Hangs(v', w, v'.rep[w]) {
      assert Hangs(v, w, v.rep[w]);
    }
  }

  lemma CarryShapes(units: seq<Word>, v: View, v': View)
    requires SameDict(v, v') && ShapesOK(units, v)
    ensures ShapesOK(units, v')
  {
    hide Xor, Starts, After;
    forall w | w in v'.base ensures ShapeOK(units, v', w, v'.base[w]) {
      assert ShapeOK(units, v, w, v.base[w]);
      forall c: Byte | c != 0 ensures ChildOK(v', w, v'.base[w], c) {
        assert ChildOK(v, w, v.base[w], c);
      }
    }
  }

  lemma CarryDones(units: seq<Word>, v: View, v': View)
    requires SameDict(v, v') && DonesOK(units, v)
    ensures DonesOK(units, v')
  {
    hide Xor, OffsetOf, HasLeaf;
    forall d | d in v'.done ensures NodeDone(units, v', d) {
      assert NodeDone(units, v, d);
    }
  }

  // A word may change without disturbing the dictionary: a node keeps its label,
  // a decided node or a value keeps everything.
  ghost predicate Harmless(units: seq<Word>, units': seq<Word>, v: View) {
    && |units| <= |units'|
    && forall id: nat :: id < |units| && units'[id] != units[id] ==>
         && id !in v.done
         && (id in v.owner ==>
               id in v.lang && units[id] < MSB && units'[id] < MSB && units'[id] % 256 == units[id] % 256)
  }

  lemma HarmlessKeeps(units: seq<Word>, units': seq<Word>, v: View)
    requires RolesOK(units, v) && RepsOK(v) && ShapesOK(units, v) && DonesOK(units, v)
    requires Harmless(units, units', v)
    ensures RolesOK(units', v) && RepsOK(v) && ShapesOK(units', v) && DonesOK(units', v)
  {
    hide Xor, Starts, After, OffsetOf, HasLeaf, ValueOf;
    forall id | id in v.owner ensures RoleOK(units', v, id) {
      assert RoleOK(units, v, id);
    }
    forall w | w in v.base ensures ShapeOK(units', v, w, v.base[w]) {
      assert ShapeOK(units, v, w, v.base[w]);
      assert ValueOK(units, v, w, v.base[w]);
      assert ValueOK(units', v, w, v.base[w]);
    }
    forall d | d in v.done ensures NodeDone(units', v, d) {
      assert NodeDone(units, v, d);
    }
  }

  function Zeros(): (r: seq<Word>)
    ensures |r| == 256 && forall i :: 0 <= i < 256 ==> r[i] == 0
  {
    seq(256, _ => 0)
  }

  lemma GrowKeeps(units: seq<Word>, v: View)
    requires DictOK(units, v) && v.low <= |units|
    requires Within(v.free, v.low, |units|)
    ensures DictOK(units + Zeros(), v.(free := v.free + Fresh(|units|)))
  {
    hide RoleOK, FillerOK, ShapeOK, NodeDone;
    var n := |units|;
    var units', v' := units + Zeros(), v.(free := v.free + Fresh(n));
    HarmlessKeeps(units, units', v);
    CarryRoles(units', v, v');
    CarryShapes(units', v, v');
    CarryDones(units', v, v');
    assert FillersOK(units', v');
    forall id: nat | v'.low <= id < |units'|
      ensures id !in v'.free <==> id in v'.owner || id in v'.hole
    {
      if id >= n {
        assert v'.free[|v.free| + (id - n)] == id;
        assert id !in v.owner by { if id in v.owner { OwnedInRange(units, v, id); } }
      } else {
        assert id in v'.free <==> id in v.free;
      }
    }
  }

  lemma OwnedInRange(units: seq<Word>, v: View, id: nat)
    requires RolesOK(units, v) && id in v.owner
    ensures id < |units|
  {
    assert RoleOK(units, v, id);
  }

  // ---- fillers ----

  // The lowest id has its final role already.
  lemma PassKeeps(units: seq<Word>, v: View)
    requires DictOK(units, v) && v.low < |units| && v.low in v.owner
    ensures DictOK(units, v.(low := v.low + 1))
  {
    hide RoleOK, FillerOK, ShapeOK, NodeDone;
    var v' := v.(low := v.low + 1);
    CarryRoles(units, v, v');
    CarryShapes(units, v, v');
    CarryDones(units, v, v');
  }

  // The lowest id becomes a filler labelled against an offset that is not used.
  lemma FillKeeps(units: seq<Word>, v: View, z: nat)
    requires DictOK(units, v) && v.low < |units| && v.low in v.hole
    requires z / 256 == v.low / 256 && z !in v.used
    ensures Xor(v.low, z) < 256
    ensures LabelOf(WithLabel(units[v.low], Xor(v.low, z))) == Xor(v.low, z)
    ensures DictOK(units[v.low := WithLabel(units[v.low], Xor(v.low, z))],
                   v.(low := v.low + 1, hole := v.hole - {v.low}))
  {
    hide RoleOK, ShapeOK, NodeDone, Xor, LabelOf, HasLeaf, OffsetOf;
    var id := v.low;
    XorSameBlock(id, z);
    var units' := units[id := WithLabel(units[id], Xor(id, z))];
    var v' := v.(low := id + 1, hole := v.hole - {id});
    assert units[id] == 0;
    LabelFacts(units[id], Xor(id, z));
    assert units'[id] == Xor(id, z);
    DoneOwned(units, v, id);
    HarmlessKeeps(units, units', v);
    CarryRoles(units', v, v');
    CarryShapes(units', v, v');
    CarryDones(units', v, v');
    assert FillerOK(units'[id], v.used, id) by {
      forall w | w in v.used && w / 256 == id / 256
        ensures units'[id] % 256 != Xor(w, id)
      {
        XorComm(w, id);
        if Xor(id, z) == Xor(id, w) { XorInjective(id, z, w); }
      }
    }
    assert FillersOK(units', v');
  }

  lemma DoneOwned(units: seq<Word>, v: View, id: nat)
    requires DonesOK(units, v) && RolesOK(units, v)
    ensures id in v.done ==> id in v.owner
  {
    if id in v.done { assert NodeDone(units, v, id); }
  }

  // ---- new nodes and values ----

  // A reserved id starts to hang from offset w, which no decided node uses yet.
  ghost function Hung(v: View, w: nat, id: nat): View {
    v.(owner := v.owner[id := w], hole := v.hole - {id})
  }

  ghost function HungNode(v: View, w: nat, id: nat, K: Lang): View {
    v.(owner := v.owner[id := w], lang := v.lang[id := K], hole := v.hole - {id})
  }

  // v' adds id, hanging from w, to the roles of v.
  ghost predicate AddsRole(v: View, v': View, w: nat, id: nat) {
    && id !in v.owner && v'.owner == v.owner[id := w] && v'.hole == v.hole - {id}
    && (forall x :: x in v.lang ==> x in v'.lang && v'.lang[x] == v.lang[x])
    && (forall x :: x in v'.lang ==> x in v.lang || x == id)
    && v'.low == v.low && v'.free == v.free && v'.base == v.base && v'.done == v.done
    && v'.used == v.used && v'.rep == v.rep
  }

  lemma AddRoleShape(units: seq<Word>, units': seq<Word>, v: View, v': View, w: nat, id: nat, b: nat)
    requires AddsRole(v, v', w, id) && ShapesOK(units, v) && RolesOK(units, v)
    requires |units'| == |units| && forall x: nat :: x < |units| && x != id ==> units'[x] == units[x]
    requires w !in v.used && b in v.base
    ensures ShapeOK(units', v', b, v'.base[b])
  {
    hide Xor, Starts, After, ValueOf, RoleOK;
    var B := v.base[b];
    assert b in v.used;
    assert ShapeOK(units, v, b, B);
    assert ValueOK(units, v, b, B);
    assert ValueOK(units', v', b, B);
    forall c: Byte | c != 0 ensures ChildOK(v', b, B, c) {
      assert ChildOK(v, b, B, c);
      assert Hangs(v', b, Xor(b, c)) <==> Hangs(v, b, Xor(b, c));
    }
  }

  lemma AddRoleKeeps(units: seq<Word>, units': seq<Word>, v: View, v': View, w: nat, id: nat)
    requires DictOK(units, v) && AddsRole(v, v', w, id)
    requires id in v.hole && w !in v.used
    requires |units'| == |units| && forall x: nat :: x < |units| && x != id ==> units'[x] == units[x]
    requires id < |units| && RoleOK(units', v', id)
    ensures DictOK(units', v')
  {
    hide Xor, Starts, After, ValueOf, ShapeOK, HasLeaf, OffsetOf, FillerOK;
    forall x | x in v'.owner ensures RoleOK(units', v', x) {
      if x != id { assert RoleOK(units, v, x); }
    }
    forall b | b in v'.base ensures ShapeOK(units', v', b, v'.base[b]) {
      AddRoleShape(units, units', v, v', w, id, b);
    }
    DoneOwned(units, v, id);
    forall d | d in v'.done ensures NodeDone(units', v', d) {
      assert NodeDone(units, v, d);
    }
    forall u | u in v'.used ensures u in v'.rep && Hangs(v', u, v'.rep[u]) {
      assert Hangs(v, u, v.rep[u]);
    }
    assert FillersOK(units', v');
  }

  lemma NewNodeKeeps(units: seq<Word>, v: View, w: nat, id: nat, K: Lang)
    requires DictOK(units, v) && id in v.hole && w !in v.used && id / 256 == w / 256
    ensures id < |units| && Xor(w, id) < 256
    ensures DictOK(units[id := WithLabel(units[id], Xor(w, id))], HungNode(v, w, id, K))
  {
    hide Xor, RoleOK, ShapeOK, NodeDone, FillerOK;
    XorSameBlock(w, id);
    var units', v' := units[id := WithLabel(units[id], Xor(w, id))], HungNode(v, w, id, K);
    assert units[id] == 0;
    assert units'[id] == Xor(w, id);
    assert id !in v.lang;
    assert RoleOK(units', v', id) by { NodeRole(units', v', id); }
    AddRoleKeeps(units, units', v, v', w, id);
  }

  lemma NodeRole(units: seq<Word>, v: View, id: nat)
    requires id in v.owner && id in v.lang && id < |units| && id / 256 == v.owner[id] / 256
    requires units[id] == Xor(v.owner[id], id) < 256
    ensures RoleOK(units, v, id)
  {
    hide Xor;
  }

  lemma NewValueKeeps(units: seq<Word>, v: View, w: nat, val: nat)
    requires DictOK(units, v) && w in v.hole && w !in v.used && val < MSB
    ensures w < |units|
    ensures DictOK(units[w := WithValue(val)], Hung(v, w, w))
  {
    hide Xor, RoleOK, ShapeOK, NodeDone, FillerOK;
    var units', v' := units[w := WithValue(val)], Hung(v, w, w);
    assert w !in v.lang;
    assert RoleOK(units', v', w) by { ValueRole(units', v', w); }
    AddRoleKeeps(units, units', v, v', w, w);
  }

  lemma ValueRole(units: seq<Word>, v: View, id: nat)
    requires id in v.owner && id !in v.lang && id < |units| && v.owner[id] == id
    requires units[id] >= MSB
    ensures RoleOK(units, v, id)
  {
  }

  // ---- the word of an undecided node ----

  lemma TouchKeeps(units: seq<Word>, v: View, d: nat, u: Word)
    requires DictOK(units, v) && d in v.lang && d !in v.done
    ensures d < |units| && units[d] < MSB
    ensures u < MSB && u % 256 == units[d] % 256 ==> DictOK(units[d := u], v)
  {
    hide Xor, ShapeOK, NodeDone, FillerOK;
    assert RoleOK(units, v, d);
    if u < MSB && u % 256 == units[d] % 256 {
      var units' := units[d := u];
      HarmlessKeeps(units, units', v);
      assert FillersOK(units', v);
      assert Partition(units', v);
    }
  }

  // ---- deciding a node ----

  ghost function Committed(v: View, d: nat, w: nat, id: nat): View
    requires d in v.lang
  {
    v.(used := v.used + {w}, rep := v.rep[w := id], base := v.base[w := v.lang[d]], done := v.done + {d})
  }

  // Marking the offset used and the node decided, once all children hang.
  lemma CommitKeeps(units: seq<Word>, v: View, d: nat, w: nat, id: nat)
    requires DictOK(units, v) && d in v.lang && d !in v.done && d < |units|
    requires w !in v.used && w != 0 && v.low % 256 == 0 && v.low <= w
    requires Hangs(v, w, id)
    requires ShapeOK(units, v, w, v.lang[d])
    requires Base(units, d) == w && (HasLeaf(units[d]) <==> [] in v.lang[d])
    ensures DictOK(units, Committed(v, d, w, id))
  {
    hide Xor, Starts, After, ValueOf, HasLeaf, OffsetOf, RoleOK;
    var v' := Committed(v, d, w, id);
    assert RolesOK(units, v') by {
      forall x | x in v'.owner ensures RoleOK(units, v', x) { CommitRole(units, v, v', x); }
    }
    assert FillersOK(units, v') by {
      forall x: nat | x < v'.low && x < |units| && x !in v'.owner ensures FillerOK(units[x], v'.used, x) {
        assert FillerOK(units[x], v.used, x);
        assert w / 256 != x / 256;
      }
    }
    forall b | b in v'.base ensures ShapeOK(units, v', b, v'.base[b]) {
      CommitShape(units, v, v', b, v'.base[b]);
    }
    forall x | x in v'.done ensures NodeDone(units, v', x) {
      if x != d {
        assert NodeDone(units, v, x);
        assert Base(units, x) in v.used;
      }
    }
    forall u | u in v'.used ensures u in v'.rep && Hangs(v', u, v'.rep[u]) {
      if u != w { assert Hangs(v, u, v.rep[u]); }
    }
  }

  lemma CommitRole(units: seq<Word>, v: View, v': View, x: nat)
    requires RolesOK(units, v) && v'.owner == v.owner && v'.lang == v.lang && x in v.owner
    ensures RoleOK(units, v', x)
  {
    assert RoleOK(units, v, x);
  }

  lemma CommitShape(units: seq<Word>, v: View, v': View, b: nat, B: Lang)
    requires v'.owner == v.owner && v'.lang == v.lang
    requires ShapeOK(units, v, b, B)
    ensures ShapeOK(units, v', b, B)
  {
    hide Xor, Starts, After;
    forall c: Byte | c != 0 ensures ChildOK(v', b, B, c) {
      assert ChildOK(v, b, B, c);
    }
  }

  // A node may instead point to the offset of an equal node.
  lemma ShareKeeps(units: seq<Word>, v: View, d: nat)
    requires DictOK(units, v) && d in v.lang && d < |units|
    requires Base(units, d) in v.base && v.base[Base(units, d)] == v.lang[d]
    requires HasLeaf(units[d]) <==> [] in v.lang[d]
    ensures DictOK(units, v.(done := v.done + {d}))
  {
    hide Xor, Starts, After, ValueOf, HasLeaf, OffsetOf, RoleOK, FillerOK;
    var v' := v.(done := v.done + {d});
    forall x | x in v'.owner ensures RoleOK(units, v', x) { CommitRole(units, v, v', x); }
    forall b | b in v'.base ensures ShapeOK(units, v', b, v'.base[b]) {
      CommitShape(units, v, v', b, v'.base[b]);
    }
    forall x | x in v'.done ensures NodeDone(units, v', x) {
      if x != d { assert NodeDone(units, v, x); }
    }
    forall u | u in v'.used ensures u in v'.rep && Hangs(v', u, v'.rep[u]) {
      assert Hangs(v, u, v.rep[u]);
    }
  }

  // ---- the pigeonhole ----

  function Ids(begin: nat, end: nat): (r: set<nat>)
    requires begin <= end
    ensures |r| == end - begin
    ensures forall x :: x in r <==> begin <= x < end
    decreases end
  {
    if begin < end then Ids(begin, end - 1) + {end - 1} else {}
  }

  ghost function Image(S: set<nat>, m: map<nat, nat>): (r: set<nat>)
    requires S <= m.Keys
  {
    set x | x in S :: m[x]
  }

  // An injective map sends a set onto a set of the same size.
  lemma {:induction false} ImageSize(S: set<nat>, m: map<nat, nat>)
    requires S <= m.Keys
    requires forall x, y :: x in S && y in S && m[x] == m[y] ==> x == y
    ensures |Image(S, m)| == |S|
    decreases |S|
  {
    if S == {} {
      assert Image(S, m) == {};
    } else {
      var a :| a in S;
      ImageSize(S - {a}, m);
      assert Image(S, m) == Image(S - {a}, m) + {m[a]};
      assert m[a] !in Image(S - {a}, m);
    }
  }

  lemma SubsetFull(A: set<nat>, B: set<nat>)
    requires A <= B && |A| == |B|
    ensures A == B
  {
    assert |B - A| == |B| - |A|;
    assert B == A + (B - A);
  }

  lemma ImageInside(S: set<nat>, m: map<nat, nat>)
    requires S <= m.Keys
    requires forall x {:trigger m[x]} :: x in S ==> m[x] in S
    ensures Image(S, m) <= S
  {
  }

  // An injective map of a finite set into itself reaches every element.
  lemma InjectiveOnto(S: set<nat>, m: map<nat, nat>, id: nat) returns (x: nat)
    requires S <= m.Keys && id in S
    requires forall x {:trigger m[x]} :: x in S ==> m[x] in S
    requires forall x, y :: x in S && y in S && m[x] == m[y] ==> x == y
    ensures x in S && m[x] == id
  {
    assert id in Image(S, m) by {
      hide Image;
      ImageSize(S, m);
      ImageInside(S, m);
      SubsetFull(Image(S, m), S);
    }
    x :| x in S && m[x] == id;
  }

  lemma RepInBlock(units: seq<Word>, v: View, w: nat, begin: nat)
    requires RolesOK(units, v) && RepsOK(v) && w in v.used
    requires begin % 256 == 0 && begin <= w < begin + 256
    ensures w in v.rep && v.rep[w] in v.owner && v.owner[v.rep[w]] == w
    ensures begin <= v.rep[w] < begin + 256
  {
    hide Xor;
    assert Hangs(v, w, v.rep[w]);
    assert RoleOK(units, v, v.rep[w]);
  }

  /** Each block has at most as many used offsets as hanging ids: when all 256
      offsets of a block are used, no id of the block is free or a filler. */
  lemma Pigeonhole(units: seq<Word>, v: View, begin: nat, id: nat)
    requires RolesOK(units, v) && RepsOK(v) && begin % 256 == 0
    requires Ids(begin, begin + 256) <= v.used
    requires begin <= id < begin + 256
    ensures id in v.owner
  {
    hide Xor, Ids, RolesOK, RepsOK;
    var S := Ids(begin, begin + 256);
    forall w | w in S
      ensures w in v.rep && v.rep[w] in v.owner && v.owner[v.rep[w]] == w
      ensures v.rep[w] in S
    {
      RepInBlock(units, v, w, begin);
    }
    var x := InjectiveOnto(S, v.rep, id);
  }

  // ---- the first unused offset of a block ----

  /** The first offset of a block that is not used. */
  ghost predicate Least(used: set<nat>, begin: nat, z: nat) {
    begin <= z < begin + 256 && z !in used && forall w :: begin <= w < z ==> w in used
  }

  lemma LeastFacts(used: set<nat>, begin: nat, z: nat)
    requires Least(used, begin, z)
    ensures begin <= z < begin + 256 && z !in used
  {
  }

  lemma LeastOnly(used: set<nat>, begin: nat, z: nat)
    requires Least(used, begin, z) || Ids(begin, begin + 256) <= used
    ensures forall y :: Least(used, begin, y) ==> y == z
  {
  }

  // ---- the window ----

  lemma DetachWindow(n: nat, ext: Extras, head: nat, v: View, k: nat)
    requires WindowOK(n, ext, head, v) && k < |v.free|
    ensures WindowOK(n, Unlink(ext, v.free[k]), HeadAfter(ext, head, v.free[k], n), Detached(v, k))
  {
    hide Ex, Unlink, Remove, ListOK;
    var id := v.free[k];
    UnlinkKeeps(ext, n, v.low, head, v.free, k);
    forall x: nat | n <= x < 4096
      ensures !Ex(Unlink(ext, id), x).fixed && !Ex(Unlink(ext, id), x).used
    {
      DetachBeyond(n, ext, head, v, k, x);
    }
  }

  lemma DetachBeyond(n: nat, ext: Extras, head: nat, v: View, k: nat, x: nat)
    requires ListOK(ext, n, v.low, head, v.free) && k < |v.free| && n <= x < 4096
    ensures Ex(Unlink(ext, v.free[k]), x).fixed == Ex(ext, x).fixed
    ensures Ex(Unlink(ext, v.free[k]), x).used == Ex(ext, x).used
  {
    hide Ex, Unlink;
    var m := |v.free|;
    assert Linked(ext, v.free, k);
    UnlinkAt(ext, v.low, n, v.free[Pred(k, m)], v.free[k], v.free[Succ(k, m)], x);
  }

  lemma RaiseWindow(n: nat, ext: Extras, head: nat, v: View)
    requires WindowOK(n, ext, head, v) && v.low < n && v.low !in v.free
    ensures WindowOK(n, ext, head, v.(low := v.low + 1))
  {
    hide ListOK, Ex;
    RaiseLow(ext, n, v.low, head, v.free);
  }

  // Other extras than those of the window may change freely before growth.
  lemma GrowWindow(n: nat, ext: Extras, ext': Extras, head: nat, v: View)
    requires WindowOK(n, ext, head, v) && n + 256 <= v.low + 4096
    requires SameBelow(ext, ext', v.low, n) && Chained(ext', n, n + 256) && Clear(ext', n, n + 256)
    requires forall x: nat :: n + 256 <= x < 4096 ==> !Ex(ext', x).fixed && !Ex(ext', x).used
    ensures WindowOK(n + 256, Splice(ext', n, head), head, v.(free := v.free + Fresh(n)))
  {
    hide Ex, Splice, ListOK, Chained, Fresh;
    SameBelowKeeps(ext, ext', n, v.low, head, v.free);
    SpliceKeeps(ext', n, v.low, head, v.free);
    var e := Splice(ext', n, head);
    forall x: nat | n + 256 <= x < 4096 ensures !Ex(e, x).fixed && !Ex(e, x).used {
      GrowBeyond(n, ext', head, v, x);
    }
  }

  lemma GrowBeyond(n: nat, ext: Extras, head: nat, v: View, x: nat)
    requires ListOK(ext, n, v.low, head, v.free) && n + 256 <= x < 4096
    ensures Ex(Splice(ext, n, head), x).fixed == Ex(ext, x).fixed
    ensures Ex(Splice(ext, n, head), x).used == Ex(ext, x).used
  {
    hide Ex, Splice;
    if v.free == [] {
      SpliceEmptyAt(ext, v.low, n, x);
    } else {
      RingEnds(ext, v.free);
      SpliceAt(ext, v.low, n, head, v.free[|v.free| - 1], x);
    }
  }

  // Marking an offset of the window used.
  lemma UseWindow(n: nat, ext: Extras, head: nat, v: View, v': View, w: nat)
    requires WindowOK(n, ext, head, v) && v.low <= w < n
    requires v'.free == v.free && v'.low == v.low && v'.used == v.used + {w}
    ensures WindowOK(n, SetUsed(ext, w, true), head, v')
  {
    hide Ex, Put;
    var ext' := SetUsed(ext, w, true);
    forall x: nat | v.low <= x < v.low + 4096
      ensures Ex(ext', x) == if x == w then Ex(ext, w).(used := true) else Ex(ext, x)
    {
      PutAt(ext, v.low, w, Ex(ext, w).(used := true), x);
    }
    forall k | 0 <= k < |v.free| ensures Linked(ext', v.free, k) {
      assert Linked(ext, v.free, k);
    }
  }

  // The state of the extras just before the new block is spliced in.
  lemma GrowReady(ext: Extras, cleared: Extras, ext': Extras, low: nat, n: nat)
    requires low <= n && n + 256 <= low + 4096
    requires SameBelow(ext, cleared, low, n) && Clear(cleared, n, n + 256)
    requires n < 4096 ==> cleared == ext
    requires forall x: nat :: n <= x < 4096 ==> !Ex(ext, x).fixed && !Ex(ext, x).used
    requires SameBelow(cleared, ext', low, n) && SameFlags(cleared, ext', low)
    ensures SameBelow(ext, ext', low, n) && Clear(ext', n, n + 256)
    ensures forall x: nat :: n + 256 <= x < 4096 ==> !Ex(ext', x).fixed && !Ex(ext', x).used
  {
    hide Ex;
  }

  lemma RoleWindow(n: nat, ext: Extras, head: nat, v: View, v': View)
    requires WindowOK(n, ext, head, v) && v'.free == v.free && v'.low == v.low && v'.used == v.used
    ensures WindowOK(n, ext, head, v')
  {
    hide ListOK, Ex;
  }
}
