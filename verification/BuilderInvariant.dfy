/** The global invariant of the double-array builder: which ids and offsets are
    taken, by whom, and which dictionary hangs below each of them. */
module BuilderInvariant {
  import opened Bits
  import opened Units
  import opened Languages
  import opened FreeList
  import opened DoubleArray

  /** The ghost state of the builder.
      free:  unfixed ids of the window, increasing
      low:   ids below are final (a node, a value, or a filler)
      hole:  ids reserved but not yet given a role
      used:  offsets marked used;  rep[w] is an id hanging from offset w
      owner: for each node or value id, the offset it hangs from
      lang:  for each node id, the suffixes below it
      base:  for each offset of a node, the suffixes below that node
      done:  the nodes whose offset has been decided */
  datatype View = View(free: seq<nat>, low: nat, hole: set<nat>, used: set<nat>, rep: map<nat, nat>,
                       owner: map<nat, nat>, lang: map<nat, Lang>, base: map<nat, Lang>, done: set<nat>)

  // ---- the window ----

  ghost predicate WindowOK(n: nat, ext: Extras, head: nat, v: View) {
    && n % 256 == 0
    && ListOK(ext, n, v.low, head, v.free)
    && (forall id: nat :: v.low <= id < n ==> (Ex(ext, id).used <==> id in v.used))
    && (forall w :: w in v.used ==> w < n)
    && (forall id: nat :: n <= id < 4096 ==> !Ex(ext, id).fixed && !Ex(ext, id).used)
  }

  // ---- the roles of the ids ----

  ghost predicate Hangs(v: View, w: nat, id: nat) {
    id in v.owner && v.owner[id] == w
  }

  // A node carries its label relative to the offset it hangs from; a value
  // hangs from its own id.
  ghost predicate RoleOK(units: seq<Word>, v: View, id: nat)
    requires id in v.owner
  {
    && id < |units|
    && id / 256 == v.owner[id] / 256
    && (id in v.lang ==> units[id] < MSB && units[id] % 256 == Xor(v.owner[id], id))
    && (id !in v.lang ==> units[id] >= MSB && v.owner[id] == id)
  }

  ghost predicate RolesOK(units: seq<Word>, v: View) {
    && (forall id :: id in v.owner ==> RoleOK(units, v, id))
    && (forall id :: id in v.lang ==> id in v.owner)
  }

  ghost predicate Partition(units: seq<Word>, v: View) {
    && (forall id: nat :: v.low <= id < |units| ==> (id !in v.free <==> id in v.owner || id in v.hole))
    && (forall id :: id in v.hole ==> v.low <= id < |units| && id !in v.owner)
    && (forall id: nat :: v.low <= id < |units| && id !in v.owner ==> units[id] == 0)
  }

  // A filler's label is wrong for every used offset of its block.
  ghost predicate FillerOK(u: Word, used: set<nat>, id: nat) {
    && u < 256
    && forall w :: w in used && w / 256 == id / 256 ==> u % 256 != Xor(w, id)
  }

  ghost predicate FillersOK(units: seq<Word>, v: View) {
    forall id: nat :: id < v.low && id < |units| && id !in v.owner ==> FillerOK(units[id], v.used, id)
  }

  ghost predicate RepsOK(v: View) {
    forall w :: w in v.used ==> w in v.rep && Hangs(v, w, v.rep[w])
  }

  // ---- the dictionaries ----

  ghost predicate ChildOK(v: View, w: nat, B: Lang, c: Byte) {
    && (Hangs(v, w, Xor(w, c)) <==> Starts(B, c))
    && (Starts(B, c) ==> Xor(w, c) in v.lang && v.lang[Xor(w, c)] == After(B, [c]))
  }

  ghost predicate ValueOK(units: seq<Word>, v: View, w: nat, B: Lang) {
    && (Hangs(v, w, w) <==> [] in B)
    && ([] in B ==> w !in v.lang && w < |units| && ValueOf(units[w]) == B[[]])
  }

  ghost predicate ShapeOK(units: seq<Word>, v: View, w: nat, B: Lang) {
    && ValueOK(units, v, w, B)
    && !Starts(B, 0)
    && forall c: Byte :: c != 0 ==> ChildOK(v, w, B, c)
  }

  ghost predicate ShapesOK(units: seq<Word>, v: View) {
    && v.base.Keys == v.used - {0}
    && forall w :: w in v.base ==> ShapeOK(units, v, w, v.base[w])
  }

  ghost predicate NodeDone(units: seq<Word>, v: View, d: nat) {
    && d in v.lang && d < |units|
    && Base(units, d) in v.base && v.base[Base(units, d)] == v.lang[d]
    && (HasLeaf(units[d]) <==> [] in v.lang[d])
  }

  ghost predicate DonesOK(units: seq<Word>, v: View) {
    forall d :: d in v.done ==> NodeDone(units, v, d)
  }

  ghost predicate DictOK(units: seq<Word>, v: View) {
    && RolesOK(units, v) && Partition(units, v) && FillersOK(units, v)
    && RepsOK(v) && ShapesOK(units, v) && DonesOK(units, v)
  }

  ghost predicate BuilderOK(units: seq<Word>, ext: Extras, head: nat, v: View) {
    && WindowOK(|units|, ext, head, v)
    && DictOK(units, v)
  }

  // ---- the finished array ----

  lemma NoFalseStep(units: seq<Word>, v: View, b: nat, c: Byte)
    requires |units| % 256 == 0 && DictOK(units, v) && v.low == |units|
    requires b in v.base && b < |units|
    ensures StepOK(units, v.lang, b, v.base[b], c)
  {
    hide Starts, After, Xor;
    var t, B := Xor(b, c), v.base[b];
    XorBlock(b, c);
    assert t / 256 == b / 256 && t < |units|;
    XorCancel(b, c);
    assert Xor(b, t) == c;
    assert b in v.used;
    assert ShapeOK(units, v, b, B);
    if t in v.owner {
      assert RoleOK(units, v, t);
      var w := v.owner[t];
      if w == b {
        if c == 0 {
          XorZero(b);
          assert LabelOf(units[t]) != c;
        } else {
          assert ChildOK(v, b, B, c);
          assert LabelOf(units[t]) == c;
        }
      } else {
        if Xor(w, t) == c {
          XorComm(w, t);
          XorComm(b, t);
          XorInjective(t, w, b);
        }
        assert LabelOf(units[t]) != c;
        if c != 0 { assert ChildOK(v, b, B, c); }
      }
    } else {
      assert FillerOK(units[t], v.used, t);
      assert LabelOf(units[t]) != c;
      if c != 0 { assert ChildOK(v, b, B, c); }
    }
  }

  /** No false transitions: once every block is fixed and every node decided,
      the array represents the dictionary assigned to each node. */
  lemma FinishedRepresents(units: seq<Word>, v: View)
    requires |units| % 256 == 0 && DictOK(units, v) && v.low == |units| && v.done == v.lang.Keys
    requires forall w :: w in v.used ==> w < |units|
    ensures Represents(units, v.lang)
  {
    hide Starts, After, Xor, StepOK;
    forall id | id in v.lang ensures NodeOK(units, v.lang, id) {
      assert NodeDone(units, v, id);
      var b := Base(units, id);
      assert b in v.used;
      assert ShapeOK(units, v, b, v.base[b]);
      forall c: Byte ensures StepOK(units, v.lang, b, v.lang[id], c) {
        NoFalseStep(units, v, b, c);
      }
    }
  }
}
