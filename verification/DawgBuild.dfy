/** The double array built from the word graph (`build_from_dawg`): states that
    the graph shares are arranged once and shared in the array as well. */
module DawgBuild {
  import opened Bits
  import opened Outcomes
  import opened Units
  import opened Languages
  import opened DoubleArray
  import opened BuilderInvariant
  import opened BuilderPlacing
  import opened Builder
  import opened Keyset
  import opened KeysetBuild
  import opened DawgRegistry
  import opened BitVector
  import opened DawgBuilder
  import opened DawgKeys
  import opened Prefixes

  // ---- the offsets remembered for shared groups ----

  // The number of group g among the marked ones.
  ghost function Number(bits: seq<bool>, g: nat): nat
    requires g < |bits| && bits[g]
  {
    RankInRange(bits, g);
    CountTrue(bits[..g + 1]) - 1
  }

  // A remembered offset leads to a node with the suffixes of its group.
  ghost predicate Remembers(table: seq<nat>, bits: seq<bool>, sem: map<nat, Lang>, v: View) {
    && |table| == CountTrue(bits)
    && forall g :: g in sem && g < |bits| && bits[g] ==>
         && Number(bits, g) < |table|
         && (table[Number(bits, g)] != 0 ==>
               table[Number(bits, g)] in v.base && v.base[table[Number(bits, g)]] == sem[g])
  }

  // The offset remembered for a shared group, or 0.
  ghost function Offset(table: seq<nat>, bits: seq<bool>, g: nat): nat {
    if g < |bits| && bits[g] && Number(bits, g) < |table| then table[Number(bits, g)] else 0
  }

  // Offsets once remembered stay remembered.
  ghost predicate Kept(before: seq<nat>, after: seq<nat>) {
    |after| == |before| && forall i :: 0 <= i < |before| && before[i] != 0 ==> after[i] != 0
  }

  lemma NumberFacts(bits: seq<bool>, g: nat, h: nat)
    requires g < |bits| && h < |bits| && bits[g] && bits[h]
    ensures Number(bits, g) < CountTrue(bits)
    ensures Number(bits, g) == Number(bits, h) <==> g == h
  {
    hide CountTrue;
    RankInRange(bits, g);
    if g < h { RankInjective(bits, g, h); }
    if h < g { RankInjective(bits, h, g); }
  }

  lemma RememberExtends(table: seq<nat>, bits: seq<bool>, sem: map<nat, Lang>, v: View, v': View)
    requires Remembers(table, bits, sem, v) && Extends(v, v')
    ensures Remembers(table, bits, sem, v')
  {
    hide Number;
  }

  lemma RememberNew(table: seq<nat>, bits: seq<bool>, sem: map<nat, Lang>, v: View, g: nat, w: nat)
    requires Remembers(table, bits, sem, v) && g in sem && g < |bits| && bits[g]
    requires w in v.base && v.base[w] == sem[g]
    ensures Number(bits, g) < |table| && Remembers(table[Number(bits, g) := w], bits, sem, v)
  {
    hide Number;
    NumberFacts(bits, g, g);
    var k := Number(bits, g);
    var table' := table[k := w];
    forall h | h in sem && h < |bits| && bits[h]
      ensures Number(bits, h) < |table'|
      ensures table'[Number(bits, h)] != 0 ==>
                table'[Number(bits, h)] in v.base && v.base[table'[Number(bits, h)]] == sem[h]
    {
      NumberFacts(bits, h, g);
    }
  }

  // ---- the labels of a group ----

  lemma GroupLabels(units: seq<Word>, labels: seq<Byte>, sem: map<nat, Lang>, cont: map<nat, seq<Item>>, g: nat)
    requires RegistryOK(units, labels, sem, cont) && g in sem
    ensures g in cont && |cont[g]| >= 1 && 1 <= g && g + |cont[g]| <= |units| == |labels|
    ensures NoRepeat(TagSeq(cont[g])) && LabelsOf(sem[g], LabelSet(TagSeq(cont[g])))
    ensures labels[g] == 0 <==> [] in sem[g]
    ensures labels[g] == 0 ==> UnitValue(units[g]) == sem[g][[]] && sem[g][[]] < MSB
  {
    hide ItemsLang, Starts, Pack, UnitValue, Tags;
    assert GroupOK(units, labels, sem, cont, g);
    var items := cont[g];
    TagsAre(items);
    ItemsStarts(items, sem, 0);
    forall c: Byte ensures c in LabelSet(TagSeq(items)) <==> (if c == 0 then [] in sem[g] else Starts(sem[g], c)) {
      ItemsStarts(items, sem, c);
    }
    assert units[g + 0] == Pack(items[0], true, 1 < |items|) && labels[g + 0] == items[0].tag;
    ZeroFirst(items);
    if items[0].tag == 0 {
      ValueAt(items, sem, 0);
      assert ItemOK(items[0], sem);
      PackReads(items[0], true, 1 < |items|);
    }
  }

  lemma TagsAre(items: seq<Item>)
    requires Ordered(items)
    ensures LabelSet(TagSeq(items)) == Tags(items) && NoRepeat(TagSeq(items))
  {
    var s := TagSeq(items);
    forall c: Byte ensures c in LabelSet(s) <==> c in Tags(items) {
      if c in s { var i :| 0 <= i < |s| && s[i] == c; assert items[i].tag == c; }
      if c in Tags(items) { var i :| 0 <= i < |items| && items[i].tag == c; assert s[i] == c; }
    }
  }

  // A value can only be the first sibling.
  lemma ZeroFirst(items: seq<Item>)
    requires Ordered(items) && items != []
    ensures items[0].tag == 0 <==> 0 in Tags(items)
  {
    if 0 in Tags(items) {
      var i :| 0 <= i < |items| && items[i].tag == 0;
    }
  }

  lemma SiblingFacts(units: seq<Word>, labels: seq<Byte>, sem: map<nat, Lang>, cont: map<nat, seq<Item>>, g: nat,
      i: nat)
    requires RegistryOK(units, labels, sem, cont) && g in sem && g in cont && i < |cont[g]|
    ensures g + i < |units| == |labels| && labels[g + i] == cont[g][i].tag
    ensures UnitMore(units[g + i]) == (i + 1 < |cont[g]|)
    ensures cont[g][i].tag != 0 ==>
              var child := UnitChild(units[g + i]);
              child in sem && child < g && sem[child] == After(sem[g], [cont[g][i].tag])
  {
    hide ItemsLang, Starts, Pack, UnitValue, UnitMore, UnitChild, UnitIsState;
    assert GroupOK(units, labels, sem, cont, g);
    var items := cont[g];
    assert ItemOK(items[i], sem);
    PackReads(items[i], i == 0, i + 1 < |items|);
    if items[i].tag != 0 { ItemsAfter(items, sem, i); }
  }

  // The labels from position i on, without the value.
  ghost function Rest(items: seq<Item>, i: nat): set<Byte>
    requires i <= |items|
  {
    LabelSet(TagSeq(items)[i..]) - {0}
  }

  lemma RestStep(items: seq<Item>, i: nat)
    requires Ordered(items) && i < |items|
    ensures Rest(items, i + 1) == Rest(items, i) - {items[i].tag}
    ensures items[i].tag != 0 ==> items[i].tag in Rest(items, i)
  {
    var s := TagSeq(items);
    var tail := s[i + 1..];
    assert s[i..] == [s[i]] + tail;
    forall j | 0 <= j < |tail| ensures tail[j] != items[i].tag {
      assert tail[j] == items[i + 1 + j].tag;
    }
  }

  // ---- build_from_dawg ----

  // The builder, the remembered offsets and the graph agree.
  ghost predicate Agree(b: DoubleArrayBuilder, table: array<nat>, marks: BitVector, units: seq<Word>, labels: seq<Byte>,
                        sem: map<nat, Lang>, cont: map<nat, seq<Item>>)
    reads b, b.extras, table, marks
  {
    && RegistryOK(units, labels, sem, cont)
    && marks.Valid() && marks.Built() && marks.size == |units|
    && b.Quiet() && Remembers(table[..], marks.bits, sem, b.v)
  }

  /** Lists the labels of the group and places one child per label. */
  method ArrangeFromDawg(b: DoubleArrayBuilder, table: array<nat>, marks: BitVector, units: seq<Word>,
      labels: seq<Byte>,
                         ghost sem: map<nat, Lang>, ghost cont: map<nat, seq<Item>>, g: nat, d: nat)
    returns (r: Outcome, w: nat)
    requires Agree(b, table, marks, units, labels, sem, cont) && g in sem
    requires Pending(b.v, d) && b.v.lang[d] == sem[g]
    modifies b, b.extras
    ensures r.Failed? ==> r.error == TooLargeOffset && d in old(b.v).lang && Overfull(old(b.v), d)
    ensures g in cont
    ensures r.Done? ==> b.Quiet() && d in old(b.v).lang && Remaining(old(b.v), b.v, d, w, Rest(cont[g], 0))
    ensures r.Done? ==> w in b.v.base && b.v.base[w] == sem[g] && w != 0
  {
    hide RegistryOK, Settled, LabelsOf, LabelSet, NoRepeat, BuilderOK, Remaining, Remembers, UnitValue, UnitMore;
    hide TagSeq, Overfull;
    GroupLabels(units, labels, sem, cont, g);
    CollectTags(b, units, labels, sem, cont, g);
    r, w := b.PlaceChildren(d, if labels[g] == 0 then UnitValue(units[g]) else 0);
    if r.Done? {
      RestAll(cont[g]);
      b.BaseNotZero(w);
    }
  }

  method CollectTags(b: DoubleArrayBuilder, units: seq<Word>, labels: seq<Byte>,
                     ghost sem: map<nat, Lang>, ghost cont: map<nat, seq<Item>>, g: nat)
    requires RegistryOK(units, labels, sem, cont) && g in sem && g in cont && cont[g] != []
    modifies b`labels
    ensures b.labels == TagSeq(cont[g])
  {
    hide RegistryOK, UnitMore, TagSeq;
    ghost var items := cont[g];
    b.labels := [];
    var u, more := g, true;
    while more
      invariant g <= u <= g + |items| && (more <==> u < g + |items|)
      invariant b.labels == TagSeq(items)[..u - g]
      decreases g + |items| - u
    {
      SiblingFacts(units, labels, sem, cont, g, u - g);
      b.labels := b.labels + [labels[u]];
      more := UnitMore(units[u]);
      u := u + 1;
    }
  }

  lemma RestAll(items: seq<Item>)
    ensures Rest(items, 0) == LabelSet(TagSeq(items)) - {0}
  {
    assert TagSeq(items)[0..] == TagSeq(items);
  }

  /** Builds node d for the group below graph unit dawgId. A shared group whose remembered offset can be
      represented from d is linked to, and no other node is built. Otherwise the group is arranged,
      remembered for good when it is shared, and its subgraphs are built. */
  method BuildNode(b: DoubleArrayBuilder, table: array<nat>, marks: BitVector, units: seq<Word>, labels: seq<Byte>,
                   ghost sem: map<nat, Lang>, ghost cont: map<nat, seq<Item>>, dawgId: nat, d: nat)
    returns (r: Outcome)
    requires Agree(b, table, marks, units, labels, sem, cont)
    requires dawgId < |units| && UnitChild(units[dawgId]) in sem
    requires Pending(b.v, d) && b.v.lang[d] == sem[UnitChild(units[dawgId])]
    modifies b, b.extras, table
    ensures r.Failed? ==> r.error == TooLargeOffset && d in old(b.v).lang && Overfull(old(b.v), d)
    ensures r.Done? ==> Agree(b, table, marks, units, labels, sem, cont) && Decides(old(b.v), b.v, d)
    ensures r.Done? ==>
      var g := UnitChild(units[dawgId]);
      var offset := Offset(old(table[..]), marks.bits, g);
      && Kept(old(table[..]), table[..])
      && (g < |marks.bits| && marks.bits[g] ==> Offset(table[..], marks.bits, g) != 0)
      && (offset != 0 && Encodable(Xor(offset, d)) ==>
            b.v == old(b.v).(done := old(b.v).done + {d}) && table[..] == old(table[..]))
    decreases UnitChild(units[dawgId]), 3
  {
    hide RegistryOK, Settled, BuilderOK, Remaining, Remembers, UnitChild, Decides, Rest, Number, Encodable, Xor;
    hide Overfull, Kept, Offset;
    KeptSelf(table[..]);
    var g := UnitChild(units[dawgId]);
    GroupLabels(units, labels, sem, cont, g);
    GroupFull(units, labels, sem, cont, g);
    ghost var v0 := b.v;
    var shared := marks.Get(g);
    var number := 0;
    if shared {
      number := NumberOf(marks, g);
      var offset := Recall(b, table, marks, units, labels, sem, cont, g, number);
      if offset != 0 && Encodable(Xor(offset, d)) {
        var ok := b.ShareOffset(d, offset, labels[g] == 0);
        if !ok {
          return Failed(TooLargeOffset);
        }
        ShareDecides(v0, b.v, d);
        RememberExtends(table[..], marks.bits, sem, v0, b.v);
        return Done;
      }
    } else {
      NotShared(table[..], marks.bits, g);
    }
    r := BuildGroup(b, table, marks, units, labels, sem, cont, g, d, shared, number);
  }

  /** Arranges the group, remembers it when it is shared, and builds its subgraphs. */
  method BuildGroup(b: DoubleArrayBuilder, table: array<nat>, marks: BitVector, units: seq<Word>, labels: seq<Byte>,
                    ghost sem: map<nat, Lang>, ghost cont: map<nat, seq<Item>>, g: nat, d: nat, shared: bool,
                    number: nat)
    returns (r: Outcome)
    requires Agree(b, table, marks, units, labels, sem, cont) && g in sem && g < |marks.bits| && shared == marks.bits[g]
    requires Pending(b.v, d) && b.v.lang[d] == sem[g] && (shared ==> number == Number(marks.bits, g))
    modifies b, b.extras, table
    ensures r.Failed? ==> r.error == TooLargeOffset && d in old(b.v).lang && Overfull(old(b.v), d)
    ensures r.Done? ==> Agree(b, table, marks, units, labels, sem, cont) && Decides(old(b.v), b.v, d)
    ensures r.Done? ==> Kept(old(table[..]), table[..]) && (shared ==> Offset(table[..], marks.bits, g) != 0)
    decreases g, 2
  {
    hide RegistryOK, Settled, BuilderOK, Remaining, Remembers, UnitChild, Decides, Rest, Number, Overfull, Kept, Offset;
    KeptSelf(table[..]);
    GroupLabels(units, labels, sem, cont, g);
    ghost var v0 := b.v;
    var w;
    r, w := ArrangeFromDawg(b, table, marks, units, labels, sem, cont, g, d);
    if r.Failed? {
      return;
    }
    RemainingExtends(v0, b.v, d, w, Rest(cont[g], 0));
    RememberExtends(table[..], marks.bits, sem, v0, b.v);
    if shared {
      Remember(b, table, marks, sem, g, number, w);
    }
    ghost var mid := table[..];
    r := BuildSiblings(b, table, marks, units, labels, sem, cont, g, d, w, v0);
    if r.Done? {
      KeptOn(old(table[..]), mid, table[..], marks.bits, g);
    }
  }

  lemma KeptSelf(table: seq<nat>)
    ensures Kept(table, table)
  {
  }

  lemma KeptOn(before: seq<nat>, mid: seq<nat>, after: seq<nat>, bits: seq<bool>, g: nat)
    requires Kept(before, mid) && Kept(mid, after)
    ensures Kept(before, after) && (Offset(mid, bits, g) != 0 ==> Offset(after, bits, g) != 0)
  {
    hide Number;
  }

  lemma OffsetIs(table: seq<nat>, bits: seq<bool>, sem: map<nat, Lang>, v: View, g: nat)
    requires Remembers(table, bits, sem, v) && g in sem && g < |bits| && bits[g]
    ensures Number(bits, g) < |table| && Offset(table, bits, g) == table[Number(bits, g)]
  {
    hide Number;
  }

  lemma NotShared(table: seq<nat>, bits: seq<bool>, g: nat)
    requires g < |bits| && !bits[g]
    ensures Offset(table, bits, g) == 0
  {
  }

  lemma GroupFull(units: seq<Word>, labels: seq<Byte>, sem: map<nat, Lang>, cont: map<nat, seq<Item>>, g: nat)
    requires RegistryOK(units, labels, sem, cont) && g in sem
    ensures sem[g] != map[]
  {
    hide ItemsLang, Pack, Ordered;
    assert GroupOK(units, labels, sem, cont, g);
    ItemsNonEmpty(cont[g], sem);
  }

  method NumberOf(marks: BitVector, g: nat) returns (number: nat)
    requires marks.Valid() && marks.Built() && g < marks.size && marks.bits[g]
    ensures number == Number(marks.bits, g)
  {
    var rank := marks.Rank(g);
    RankInRange(marks.bits, g);
    number := rank - 1;
  }

  method Recall(b: DoubleArrayBuilder, table: array<nat>, marks: BitVector, units: seq<Word>, labels: seq<Byte>,
                ghost sem: map<nat, Lang>, ghost cont: map<nat, seq<Item>>, g: nat, number: nat) returns (offset: nat)
    requires Agree(b, table, marks, units, labels, sem, cont) && g in sem && g < marks.size && marks.bits[g]
    requires number == Number(marks.bits, g)
    ensures offset == Offset(table[..], marks.bits, g)
    ensures offset != 0 ==> offset in b.v.base && b.v.base[offset] == sem[g]
  {
    hide RegistryOK, Settled, BuilderOK, Number;
    offset := table[number];
    assert offset == table[..][number];
    OffsetIs(table[..], marks.bits, sem, b.v, g);
  }

  method Remember(b: DoubleArrayBuilder, table: array<nat>, marks: BitVector, ghost sem: map<nat, Lang>,
                  g: nat, number: nat, w: nat)
    requires marks.Valid() && g in sem && g < marks.size && marks.bits[g] && number == Number(marks.bits, g)
    requires Remembers(table[..], marks.bits, sem, b.v) && w in b.v.base && b.v.base[w] == sem[g]
    requires w != 0
    modifies table
    ensures Remembers(table[..], marks.bits, sem, b.v)
    ensures Kept(old(table[..]), table[..]) && Offset(table[..], marks.bits, g) == w
  {
    hide Remembers, Number;
    RememberNew(table[..], marks.bits, sem, b.v, g, w);
    table[number] := w;
    assert table[..] == old(table[..])[number := w];
    OffsetIs(table[..], marks.bits, sem, b.v, g);
  }

  lemma ShareDecides(v0: View, v: View, d: nat)
    requires v == v0.(done := v0.done + {d}) && d in v0.lang && v0.lang[d] != map[]
    ensures Decides(v0, v, d) && Extends(v0, v)
  {
    hide Size;
    BelowAll(v0.lang[d], {});
  }

  lemma RemainingExtends(v0: View, v: View, d: nat, w: nat, rest: set<Byte>)
    requires d in v0.lang && Remaining(v0, v, d, w, rest)
    ensures Extends(v0, v)
  {
  }

  method BuildSiblings(b: DoubleArrayBuilder, table: array<nat>, marks: BitVector, units: seq<Word>, labels: seq<Byte>,
                       ghost sem: map<nat, Lang>, ghost cont: map<nat, seq<Item>>, g: nat, d: nat, w: nat,
                           ghost v0: View)
    returns (r: Outcome)
    requires Agree(b, table, marks, units, labels, sem, cont) && g in sem && g in cont && cont[g] != []
    requires d in v0.lang && v0.lang[d] == sem[g] && Remaining(v0, b.v, d, w, Rest(cont[g], 0))
    modifies b, b.extras, table
    ensures r.Failed? ==> r.error == TooLargeOffset && Overfull(v0, d)
    ensures r.Done? ==> Agree(b, table, marks, units, labels, sem, cont) && Decides(v0, b.v, d)
    ensures r.Done? ==> Kept(old(table[..]), table[..])
    decreases g, 1
  {
    hide RegistryOK, Settled, BuilderOK, Remaining, Remembers, UnitChild, UnitMore, Decides, Rest, Overfull, Kept;
    KeptSelf(table[..]);
    ghost var items := cont[g];
    var u, more := g, true;
    while more
      invariant g <= u <= g + |items| && (more <==> u < g + |items|)
      invariant Agree(b, table, marks, units, labels, sem, cont)
      invariant Remaining(v0, b.v, d, w, Rest(items, u - g)) && Kept(old(table[..]), table[..])
      decreases g + |items| - u
    {
      ghost var mid := table[..];
      SiblingFacts(units, labels, sem, cont, g, u - g);
      RestStepIn(units, labels, sem, cont, g, u - g);
      if labels[u] != 0 {
        r := BuildChild(b, table, marks, units, labels, sem, cont, g, u, d, w, v0);
        if r.Failed? {
          return;
        }
        KeptOn(old(table[..]), mid, table[..], marks.bits, g);
      }
      more := UnitMore(units[u]);
      u := u + 1;
    }
    RestNone(items);
    RemainingEnd(v0, b.v, d, w);
    r := Done;
  }

  lemma RestNone(items: seq<Item>)
    ensures Rest(items, |items|) == {}
  {
  }

  lemma RestStepIn(units: seq<Word>, labels: seq<Byte>, sem: map<nat, Lang>, cont: map<nat, seq<Item>>, g: nat, i: nat)
    requires RegistryOK(units, labels, sem, cont) && g in sem && g in cont && i < |cont[g]|
    ensures var c := cont[g][i].tag;
            && (c == 0 ==> Rest(cont[g], i + 1) == Rest(cont[g], i))
            && (c != 0 ==> Rest(cont[g], i + 1) == Rest(cont[g], i) - {c} && c in Rest(cont[g], i))
  {
    hide Rest, ItemsLang, Pack;
    assert GroupOK(units, labels, sem, cont, g);
    RestStep(cont[g], i);
    if cont[g][i].tag == 0 { NoZeroRest(cont[g], i); }
  }

  lemma NoZeroRest(items: seq<Item>, i: nat)
    requires i <= |items|
    ensures Rest(items, i) - {0} == Rest(items, i)
  {
  }

  method BuildChild(b: DoubleArrayBuilder, table: array<nat>, marks: BitVector, units: seq<Word>, labels: seq<Byte>,
                    ghost sem: map<nat, Lang>, ghost cont: map<nat, seq<Item>>, ghost g: nat, u: nat, ghost d: nat,
                        w: nat,
                    ghost v0: View)
    returns (r: Outcome)
    requires Agree(b, table, marks, units, labels, sem, cont) && g in sem && g in cont && g <= u < g + |cont[g]|
    requires u < |labels| && labels[u] != 0
    requires d in v0.lang && v0.lang[d] == sem[g] && Remaining(v0, b.v, d, w, Rest(cont[g], u - g))
    modifies b, b.extras, table
    ensures r.Failed? ==> r.error == TooLargeOffset && Overfull(v0, d)
    ensures r.Done? ==>
        Agree(b, table, marks, units, labels, sem, cont) && Remaining(v0, b.v, d, w, Rest(cont[g], u - g + 1))
    ensures r.Done? ==> Kept(old(table[..]), table[..])
    decreases g, 0
  {
    hide RegistryOK, Settled, BuilderOK, Remaining, Remembers, UnitChild, UnitMore, Decides, Rest, Xor, Overfull;
    hide Kept, Offset;
    SiblingFacts(units, labels, sem, cont, g, u - g);
    RestStepIn(units, labels, sem, cont, g, u - g);
    ghost var rest, v := Rest(cont[g], u - g), b.v;
    ChildReady(v0, v, d, w, rest, labels[u]);
    r := BuildNode(b, table, marks, units, labels, sem, cont, u, Xor(w, labels[u]));
    if r.Done? {
      RemainingStep(v0, v, b.v, d, w, rest, labels[u]);
    } else {
      OverfullChild(v0, v, d, w, rest, labels[u]);
    }
  }

  // ---- the whole build ----

  method BuildFromDawg(dawgUnits: seq<Word>, dawgLabels: seq<Byte>, marks: BitVector,
                       ghost sem: map<nat, Lang>, ghost cont: map<nat, seq<Item>>, ghost L: Lang)
    returns (r: Outcome, units: seq<Word>, ghost lang: map<nat, Lang>)
    requires Finished(dawgUnits, dawgLabels, sem, cont, L)
    requires marks.Valid() && marks.Built() && marks.size == |dawgUnits|
    ensures r.Failed? ==> r.error == TooLargeOffset && OFFSET_LIMIT < 256 * (Size(L) + 1)
    ensures r.Done? ==> Built(units, lang, L)
  {
    hide RegistryOK, Settled, BuilderOK, Remembers, UnitChild, Represents, Size;
    units, lang := [], map[];
    RootKnown(dawgUnits, dawgLabels, sem, cont);
    var b := new DoubleArrayBuilder();
    var table := new nat[marks.numOnes](_ => 0);
    b.PlantRoot(L);
    RememberNothing(table[..], marks.bits, sem, b.v);
    if UnitChild(dawgUnits[0]) != 0 {
      r := BuildAllFromDawg(b, table, marks, dawgUnits, dawgLabels, sem, cont, L);
      if r.Failed? {
        return;
      }
    } else {
      r := Done;
    }
    b.FixAllBlocks();
    units, lang := b.units, b.v.lang;
    b.DictNow();
    b.FinishedFacts();
    if L != map[] {
      FinishedRepresents(units, b.v);
    } else {
      EmptyIs(units, b.v);
    }
  }

  method BuildAllFromDawg(b: DoubleArrayBuilder, table: array<nat>, marks: BitVector, units: seq<Word>,
      labels: seq<Byte>,
                          ghost sem: map<nat, Lang>, ghost cont: map<nat, seq<Item>>, ghost L: Lang)
    returns (r: Outcome)
    requires Agree(b, table, marks, units, labels, sem, cont) && |units| > 0
    requires UnitChild(units[0]) in sem && sem[UnitChild(units[0])] == L
    requires b.v.lang == map[0 := L] && b.v.done == {}
    modifies b, b.extras, table
    ensures r.Failed? ==> r.error == TooLargeOffset && OFFSET_LIMIT < 256 * (Size(L) + 1)
    ensures r.Done? ==> b.Valid() && b.Steady() && b.v.done == b.v.lang.Keys && 0 in b.v.lang && b.v.lang[0] == L
  {
    hide RegistryOK, Settled, BuilderOK, Remembers, UnitChild, Decides, Size;
    ghost var v0 := b.v;
    r := BuildNode(b, table, marks, units, labels, sem, cont, 0, 0);
    if r.Done? {
      b.FinishedFacts();
      AllDecided(v0, b.v, 0);
    }
  }

  lemma RootKnown(units: seq<Word>, labels: seq<Byte>, sem: map<nat, Lang>, cont: map<nat, seq<Item>>)
    requires RegistryOK(units, labels, sem, cont)
    ensures |units| > 0 && 0 !in sem
  {
    OldInRange(units, labels, sem, cont);
  }

  lemma RememberNothing(table: seq<nat>, bits: seq<bool>, sem: map<nat, Lang>, v: View)
    requires |table| == CountTrue(bits) && forall i :: 0 <= i < |table| ==> table[i] == 0
    ensures Remembers(table, bits, sem, v)
  {
    hide CountTrue, Number;
    forall g | g in sem && g < |bits| && bits[g] ensures Number(bits, g) < |table| {
      NumberFacts(bits, g, g);
    }
  }

  /** The build through the word graph preserves meaning: it accepts exactly the insertable lists
      of key-value pairs, and the array serves, from the root, the dictionary in which the first of
      equal keys wins. It runs out of offsets only when the list has two million bytes. */
  method BuildPairs(buffers: seq<seq<Byte>>, lengths: seq<nat>, values: seq<int>, ghost keys: seq<Key>)
    returns (r: Outcome, units: seq<Word>, ghost lang: map<nat, Lang>)
    requires Backed(buffers, lengths) && keys == KeysOf(buffers, lengths) && |keys| == |values|
    requires Watched(keys) && forall i :: 0 <= i < |keys| ==> values[i] < VALUE_LIMIT
    requires TotalLength(keys) + 1 < CHILD_LIMIT
    ensures r.Done? ==> Insertable(keys, values) && Built(units, lang, PairDict(keys, values))
    ensures r.Failed? && r.error != TooLargeOffset ==>
      !Insertable(keys, values) && exists i :: FirstRefused(keys, values, i, r.error)
    ensures TotalLength(keys) < 0x20_0000 ==> (r.Done? <==> Insertable(keys, values))
  {
    hide RegistryOK, Represents, Insertable, PairDict, TotalLength, UnitChild, Finished, Built, Size, FirstRefused;
    units, lang := [], map[];
    var d;
    r, d := BuildDawg(buffers, lengths, values, keys);
    if r.Failed? {
      return;
    }
    PairSize(keys, values);
    r, units, lang := BuildFromDawg(d.units, d.labels, d.marks, d.sem, d.cont, PairDict(keys, values));
  }

  lemma PairSize(keys: seq<Key>, values: seq<int>)
    requires |keys| == |values|
    ensures Size(PairDict(keys, values)) <= TotalLength(keys)
  {
    hide Size, TotalLength;
    forall k | k in PairDict(keys, values) ensures k in keys {
      PairKeys(keys, values, k);
    }
    SizeBound(PairDict(keys, values), keys);
  }

  lemma {:induction false} PairKeys(keys: seq<Key>, values: seq<int>, k: Key)
    requires |keys| == |values| && k in PairDict(keys, values)
    ensures k in keys
    decreases |keys|
  {
    if keys != [] {
      var n := |keys| - 1;
      if k != keys[n] {
        PairKeys(keys[..n], values[..n], k);
      }
    }
  }

  // ---- the two builds agree ----

  function Indices(n: nat): (r: seq<int>)
    ensures |r| == n && forall i :: 0 <= i < n ==> r[i] == i
  {
    seq(n, i => i)
  }

  /** With value i for key i, the graph build and the direct build serve the same dictionary. */
  lemma {:induction false} BuildsAgree(keys: seq<Key>)
    ensures PairDict(keys, Indices(|keys|)) == IndexOf(keys)
    decreases |keys|
  {
    if keys == [] {
      assert IndexOf(keys) == map[];
    } else {
      var n := |keys| - 1;
      var front := keys[..n];
      BuildsAgree(front);
      assert Indices(|keys|)[..n] == Indices(n);
      forall key: Key
        ensures key in keys <==> key in front || key == keys[n]
        ensures key in front ==> FirstIndex(keys, key) == FirstIndex(front, key)
        ensures key !in front && key == keys[n] ==> FirstIndex(keys, key) == n
      {
        IndexStep(keys, key);
      }
    }
  }

  lemma IndexStep(keys: seq<Key>, key: Key)
    requires keys != []
    ensures var n := |keys| - 1;
            && (key in keys <==> key in keys[..n] || key == keys[n])
            && (key in keys[..n] ==> FirstIndex(keys, key) == FirstIndex(keys[..n], key))
            && (key !in keys[..n] && key == keys[n] ==> FirstIndex(keys, key) == n)
  {
    hide FirstIndex;
    var n := |keys| - 1;
    assert keys == keys[..n] + [keys[n]];
    if key in keys[..n] {
      var g := FirstIndex(keys[..n], key);
      assert keys[..n][..g] == keys[..g];
      FirstIndexIs(keys, key, g);
    } else if key == keys[n] {
      FirstIndexIs(keys, key, n);
    }
  }

  lemma FirstIndexIs(keys: seq<Key>, key: Key, f: nat)
    requires f < |keys| && keys[f] == key && key !in keys[..f]
    ensures FirstIndex(keys, key) == f
  {
    hide FirstIndex;
    var g := FirstIndex(keys, key);
    forall i | 0 <= i < f ensures keys[i] != key { assert keys[i] == keys[..f][i]; }
    forall i | 0 <= i < g ensures keys[i] != key { assert keys[i] == keys[..g][i]; }
  }

  /** Of equal keys the first one gives the value. */
  lemma {:induction false} PairDictFirst(keys: seq<Key>, values: seq<int>, key: Key)
    requires |keys| == |values| && forall i :: 0 <= i < |values| ==> values[i] >= 0
    ensures key in PairDict(keys, values) <==> key in keys
    ensures key in keys ==> PairDict(keys, values)[key] == values[FirstIndex(keys, key)]
    decreases |keys|
  {
    if keys != [] {
      var n := |keys| - 1;
      PairDictFirst(keys[..n], values[..n], key);
      PairDictFirst(keys[..n], values[..n], keys[n]);
      IndexStep(keys, key);
    }
  }

  lemma {:induction false} CountBound(keys: seq<Key>)
    ensures |keys| <= TotalLength(keys)
    decreases |keys|
  {
    if keys != [] {
      CountBound(keys[..|keys| - 1]);
    }
  }

  /** Whichever way the array is built from the keys, a search answers the index of the first equal
      key, and -1 for every other query; below two million bytes either build succeeds exactly on the
      lists in order, the graph build on those without empty keys. */
  method SearchBothBuilds(buffers: seq<seq<Byte>>, lengths: seq<nat>, query: seq<Byte>, length: nat,
      ghost keys: seq<Key>)
    returns (direct: Outcome, graph: Outcome, directValue: int, graphValue: int)
    requires Backed(buffers, lengths) && keys == KeysOf(buffers, lengths) && Watched(keys)
    requires TotalLength(keys) + 1 < CHILD_LIMIT && GoodQuery(query, length)
    ensures var q := Query(query, length);
      && (direct.Done? ==> directValue == if q in keys then FirstIndex(keys, q) else -1)
      && (graph.Done? ==> graphValue == if q in keys then FirstIndex(keys, q) else -1)
    ensures TotalLength(keys) < 0x20_0000 ==> (direct.Done? <==> Acceptable(keys))
    ensures TotalLength(keys) < 0x20_0000 ==> (graph.Done? <==> Insertable(keys, Indices(|keys|)))
  {
    hide Represents, Built, Serves, Insertable, PairDict, TotalLength, Query, GoodQuery, Acceptable, IndexOf;
    hide FirstIndex;
    directValue, graphValue := -1, -1;
    ghost var lang;
    var units, matched;
    direct, units, lang := BuildFromKeyset(KeysOf(buffers, lengths), true);
    if direct.Done? {
      BuiltServes(units, lang, IndexOf(keys));
      BuiltRoot(units, lang, IndexOf(keys));
      directValue, matched := ExactMatchSearch(units, query, length, 0, lang);
      IndexLookup(keys, Query(query, length));
    }
    CountBound(keys);
    graph, units, lang := BuildPairs(buffers, lengths, Indices(|buffers|), keys);
    if graph.Done? {
      BuildsAgree(keys);
      BuiltServes(units, lang, IndexOf(keys));
      BuiltRoot(units, lang, IndexOf(keys));
      graphValue, matched := ExactMatchSearch(units, query, length, 0, lang);
      IndexLookup(keys, Query(query, length));
    }
  }

  lemma BuiltRoot(units: seq<Word>, lang: map<nat, Lang>, L: Lang)
    requires Built(units, lang, L)
    ensures 0 in lang && lang[0] == L
  {
  }

  lemma IndexLookup(keys: seq<Key>, q: Key)
    ensures Lookup(IndexOf(keys), q) == if q in keys then FirstIndex(keys, q) else -1
  {
  }
}
