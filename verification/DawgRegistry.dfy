/** The registered part of the acyclic word graph: sibling groups stored in
    consecutive units (`DawgUnit`), and the dictionary each group stands for. */
module DawgRegistry {
  import opened Bits
  import opened Languages

  /** One sibling: its label, and its child group, or its value when the label is 0. */
  datatype Item = Item(tag: Byte, child: nat)

  const CHILD_LIMIT: nat := 0x4000_0000
  const VALUE_LIMIT: nat := 0x8000_0000

  predicate Packable(item: Item) {
    if item.tag == 0 then item.child < VALUE_LIMIT else item.child < CHILD_LIMIT
  }

  // ---- the 32-bit unit of a sibling ----

  function Pack(item: Item, first: bool, more: bool): Word
    requires Packable(item)
  {
    if item.tag == 0 then item.child * 2 + (if more then 1 else 0)
    else item.child * 4 + (if first then 2 else 0) + (if more then 1 else 0)
  }

  function UnitChild(u: Word): nat {
    u / 4
  }

  function UnitValue(u: Word): nat {
    u / 2
  }

  predicate UnitMore(u: Word) {
    u % 2 == 1
  }

  predicate UnitIsState(u: Word) {
    (u / 2) % 2 == 1
  }

  lemma PackReads(item: Item, first: bool, more: bool)
    requires Packable(item)
    ensures UnitMore(Pack(item, first, more)) == more
    ensures item.tag == 0 ==> UnitValue(Pack(item, first, more)) == item.child
    ensures item.tag != 0 ==> UnitChild(Pack(item, first, more)) == item.child
    ensures item.tag != 0 ==> UnitIsState(Pack(item, first, more)) == first
  {
  }

  // ---- dictionaries of items ----

  function Pre(c: Byte, K: Lang): Lang {
    map s | s in (set t | t in K :: [c] + t) && s != [] && s[1..] in K :: K[s[1..]]
  }

  lemma PreHas(c: Byte, K: Lang, s: Key)
    ensures s in Pre(c, K) <==> s != [] && s[0] == c && s[1..] in K
    ensures s in Pre(c, K) ==> Pre(c, K)[s] == K[s[1..]]
  {
    if s != [] && s[0] == c && s[1..] in K { assert [c] + s[1..] == s; }
    if s in Pre(c, K) {
      var t :| t in K && [c] + t == s;
      assert s[1..] == t;
    }
  }

  ghost predicate ItemOK(item: Item, sem: map<nat, Lang>) {
    Packable(item) && (item.tag != 0 ==> item.child in sem && sem[item.child] != map[])
  }

  ghost predicate ItemsOK(items: seq<Item>, sem: map<nat, Lang>) {
    forall i :: 0 <= i < |items| ==> ItemOK(items[i], sem)
  }

  ghost predicate Ordered(items: seq<Item>) {
    forall i, j :: 0 <= i < j < |items| ==> items[i].tag < items[j].tag
  }

  ghost function ItemLang(item: Item, sem: map<nat, Lang>): Lang
    requires ItemOK(item, sem)
  {
    if item.tag == 0 then map[[] := item.child] else Pre(item.tag, sem[item.child])
  }

  ghost function ItemsLang(items: seq<Item>, sem: map<nat, Lang>): Lang
    requires ItemsOK(items, sem)
  {
    if items == [] then map[]
    else ItemsLang(items[..|items| - 1], sem) + ItemLang(items[|items| - 1], sem)
  }

  // The sibling with a given label, or the number of siblings.
  ghost function Find(items: seq<Item>, c: Byte): (i: nat)
    ensures i <= |items|
    ensures i < |items| ==> items[i].tag == c
    ensures i == |items| ==> forall j :: 0 <= j < |items| ==> items[j].tag != c
  {
    if items == [] then 0
    else if items[|items| - 1].tag == c then |items| - 1
    else
      var i := Find(items[..|items| - 1], c);
      assert forall j :: 0 <= j < |items| - 1 ==> items[j] == items[..|items| - 1][j];
      if i < |items| - 1 then i else |items|
  }

  // What a string finds among the items.
  ghost predicate Holds(items: seq<Item>, sem: map<nat, Lang>, s: Key)
    requires ItemsOK(items, sem)
  {
    var i := Find(items, if s == [] then 0 else s[0]);
    && i < |items|
    && (s == [] || (s[0] != 0 && s[1..] in sem[items[i].child]))
  }

  lemma {:induction false} ItemsHas(items: seq<Item>, sem: map<nat, Lang>, s: Key)
    requires ItemsOK(items, sem) && Ordered(items)
    ensures s in ItemsLang(items, sem) <==> Holds(items, sem, s)
    ensures Holds(items, sem, s) ==>
              ItemsLang(items, sem)[s] == var i := Find(items, if s == [] then 0 else s[0]);
                                          if s == [] then items[i].child else sem[items[i].child][s[1..]]
    decreases |items|
  {
    hide Pre;
    if items != [] {
      var rest, last := items[..|items| - 1], items[|items| - 1];
      ItemsHas(rest, sem, s);
      if last.tag != 0 { PreHas(last.tag, sem[last.child], s); }
      var c := if s == [] then 0 else s[0];
      var i := Find(rest, c);
      if i < |rest| { assert items[i].tag == c && last.tag != c; }
    }
  }

  // The dictionary does not depend on groups that are registered later.
  lemma {:induction false} ItemsStable(items: seq<Item>, sem: map<nat, Lang>, sem': map<nat, Lang>)
    requires ItemsOK(items, sem)
    requires forall g :: g in sem ==> g in sem' && sem'[g] == sem[g]
    ensures ItemsOK(items, sem') && ItemsLang(items, sem') == ItemsLang(items, sem)
    decreases |items|
  {
    hide Pre;
    if items != [] {
      ItemsStable(items[..|items| - 1], sem, sem');
    }
  }

  ghost function Tags(items: seq<Item>): set<Byte> {
    set i | 0 <= i < |items| :: items[i].tag
  }

  // Quotients and labels of the dictionary of items.
  lemma ItemsAfter(items: seq<Item>, sem: map<nat, Lang>, i: nat)
    requires ItemsOK(items, sem) && Ordered(items) && i < |items| && items[i].tag != 0
    ensures After(ItemsLang(items, sem), [items[i].tag]) == sem[items[i].child]
  {
    hide After, ItemsLang, Find;
    var L, c, K := ItemsLang(items, sem), items[i].tag, sem[items[i].child];
    assert Find(items, c) == i;
    forall s: Key
      ensures s in After(L, [c]) <==> s in K
      ensures s in K ==> After(L, [c])[s] == K[s]
    {
      AfterHas(L, [c], s);
      ItemsHas(items, sem, [c] + s);
      assert ([c] + s)[1..] == s;
    }
  }

  lemma ItemsStarts(items: seq<Item>, sem: map<nat, Lang>, c: Byte)
    requires ItemsOK(items, sem) && Ordered(items)
    ensures var L := ItemsLang(items, sem);
            if c == 0 then !Starts(L, 0) && ([] in L <==> 0 in Tags(items))
            else Starts(L, c) <==> c in Tags(items)
  {
    hide ItemsLang, Find, After, Starts;
    var L := ItemsLang(items, sem);
    var i := Find(items, c);
    assert c in Tags(items) <==> i < |items|;
    if c == 0 {
      ItemsHas(items, sem, []);
      NoZeroStart(items, sem);
    } else if i < |items| {
      ItemsAfter(items, sem, i);
      StartsAfter(L, c);
    } else {
      NoTagNoStart(items, sem, c);
    }
  }

  lemma NoZeroStart(items: seq<Item>, sem: map<nat, Lang>)
    requires ItemsOK(items, sem) && Ordered(items)
    ensures !Starts(ItemsLang(items, sem), 0)
  {
    hide ItemsLang, Find;
    forall s: Key ensures [0] + s !in ItemsLang(items, sem) {
      ItemsHas(items, sem, [0] + s);
    }
  }

  lemma NoTagNoStart(items: seq<Item>, sem: map<nat, Lang>, c: Byte)
    requires ItemsOK(items, sem) && Ordered(items) && Find(items, c) == |items|
    ensures !Starts(ItemsLang(items, sem), c)
  {
    hide ItemsLang, Find;
    forall s: Key ensures [c] + s !in ItemsLang(items, sem) {
      ItemsHas(items, sem, [c] + s);
    }
  }

  lemma ItemsNonEmpty(items: seq<Item>, sem: map<nat, Lang>)
    requires ItemsOK(items, sem) && Ordered(items) && items != []
    ensures ItemsLang(items, sem) != map[]
  {
    hide ItemsLang, Find, After;
    var L := ItemsLang(items, sem);
    if items[0].tag == 0 {
      ItemsStarts(items, sem, 0);
      assert 0 in Tags(items);
    } else {
      ItemsAfter(items, sem, 0);
      var s :| s in sem[items[0].child];
      AfterHas(L, [items[0].tag], s);
    }
  }

  // ---- the registry ----

  ghost predicate GroupOK(units: seq<Word>, labels: seq<Byte>, sem: map<nat, Lang>, cont: map<nat, seq<Item>>, g: nat)
    requires g in sem && g in cont && |labels| == |units|
  {
    var items := cont[g];
    && 1 <= g && items != [] && g + |items| <= |units|
    && Ordered(items) && ItemsOK(items, sem) && sem[g] == ItemsLang(items, sem)
    && (forall i :: 0 <= i < |items| && items[i].tag != 0 ==> items[i].child < g)
    && (forall i :: 0 <= i < |items| ==>
          units[g + i] == Pack(items[i], i == 0, i + 1 < |items|) && labels[g + i] == items[i].tag)
  }

  // Which units begin a group, as the rehash recognises them.
  predicate LooksLikeHead(units: seq<Word>, labels: seq<Byte>, id: nat)
    requires id < |units| == |labels|
  {
    labels[id] == 0 || UnitIsState(units[id])
  }

  ghost predicate RegistryOK(units: seq<Word>, labels: seq<Byte>, sem: map<nat, Lang>, cont: map<nat, seq<Item>>) {
    && |labels| == |units| >= 1
    && sem.Keys == cont.Keys
    && (forall g :: g in sem ==> GroupOK(units, labels, sem, cont, g))
    && (forall id :: 1 <= id < |units| ==> (LooksLikeHead(units, labels, id) <==> id in sem))
    && (forall g, h :: g in cont && h in cont && cont[g] == cont[h] ==> g == h)
  }

  // ---- minimality ----

  lemma TagsEqual(s: seq<Item>, t: seq<Item>, k: nat)
    requires Ordered(s) && Ordered(t) && Tags(s) == Tags(t)
    requires k <= |s| && k <= |t|
    ensures forall i :: 0 <= i < k ==> s[i].tag == t[i].tag
  {
    if k > 0 {
      TagsEqual(s, t, k - 1);
      var a, b := s[k - 1].tag, t[k - 1].tag;
      assert a in Tags(t) && b in Tags(s);
      var i :| 0 <= i < |t| && t[i].tag == a;
      var j :| 0 <= j < |s| && s[j].tag == b;
      assert i >= k - 1 && j >= k - 1;
    }
  }

  lemma {:induction false} TagCount(s: seq<Item>)
    requires Ordered(s)
    ensures |Tags(s)| == |s|
    decreases |s|
  {
    if s == [] {
      assert Tags(s) == {};
    } else {
      var rest, last := s[..|s| - 1], s[|s| - 1];
      TagCount(rest);
      assert Tags(s) == Tags(rest) + {last.tag} by {
        assert forall i :: 0 <= i < |rest| ==> s[i] == rest[i];
      }
    }
  }

  // Equal dictionaries have equal labels.
  lemma TagsOfLang(s: seq<Item>, t: seq<Item>, sem: map<nat, Lang>)
    requires ItemsOK(s, sem) && Ordered(s) && ItemsOK(t, sem) && Ordered(t)
    requires ItemsLang(s, sem) == ItemsLang(t, sem)
    ensures Tags(s) == Tags(t)
  {
    hide ItemsLang, Starts, Tags;
    forall c: Byte ensures c in Tags(s) <==> c in Tags(t) {
      ItemsStarts(s, sem, c);
      ItemsStarts(t, sem, c);
    }
    assert forall c: Byte :: c in Tags(s) <==> c in Tags(t);
  }

  /** Minimality: two registered groups never stand for the same dictionary. */
  lemma {:induction false} Minimal(units: seq<Word>, labels: seq<Byte>, sem: map<nat, Lang>, cont: map<nat, seq<Item>>,
                                   g: nat, h: nat)
    requires RegistryOK(units, labels, sem, cont) && g in sem && h in sem && sem[g] == sem[h]
    ensures g == h
    decreases g + h
  {
    hide ItemsLang;
    assert GroupOK(units, labels, sem, cont, g) && GroupOK(units, labels, sem, cont, h);
    var s, t := cont[g], cont[h];
    TagsOfLang(s, t, sem);
    TagCount(s);
    TagCount(t);
    TagsEqual(s, t, |s|);
    forall i | 0 <= i < |s| ensures s[i] == t[i] {
      if s[i].tag != 0 {
        ItemsAfter(s, sem, i);
        ItemsAfter(t, sem, i);
        Minimal(units, labels, sem, cont, s[i].child, t[i].child);
      } else {
        ValueAt(s, sem, i);
        ValueAt(t, sem, i);
      }
    }
    assert s == t;
  }

  lemma ValueAt(items: seq<Item>, sem: map<nat, Lang>, i: nat)
    requires ItemsOK(items, sem) && Ordered(items) && i < |items| && items[i].tag == 0
    ensures [] in ItemsLang(items, sem) && ItemsLang(items, sem)[[]] == items[i].child
  {
    hide ItemsLang, Find;
    assert Find(items, 0) == i;
    ItemsHas(items, sem, []);
  }

  // ---- registering a group ----

  ghost function Words(items: seq<Item>): (r: seq<Word>)
    requires forall i :: 0 <= i < |items| ==> Packable(items[i])
    ensures |r| == |items|
    ensures forall i :: 0 <= i < |items| ==> r[i] == Pack(items[i], i == 0, i + 1 < |items|)
  {
    seq(|items|, i requires 0 <= i < |items| => Pack(items[i], i == 0, i + 1 < |items|))
  }

  ghost function TagSeq(items: seq<Item>): (r: seq<Byte>)
    ensures |r| == |items|
    ensures forall i :: 0 <= i < |items| ==> r[i] == items[i].tag
  {
    seq(|items|, i requires 0 <= i < |items| => items[i].tag)
  }

  ghost predicate NewGroup(units: seq<Word>, sem: map<nat, Lang>, cont: map<nat, seq<Item>>, items: seq<Item>) {
    && items != [] && Ordered(items) && ItemsOK(items, sem)
    && (forall g :: g in cont ==> cont[g] != items)
  }

  lemma RegisterKeeps(units: seq<Word>, labels: seq<Byte>, sem: map<nat, Lang>, cont: map<nat, seq<Item>>,
      items: seq<Item>)
    requires RegistryOK(units, labels, sem, cont) && NewGroup(units, sem, cont, items)
    ensures var n := |units|;
            RegistryOK(units + Words(items), labels + TagSeq(items), sem[n := ItemsLang(items, sem)], cont[n := items])
  {
    hide ItemsLang, Pack, UnitIsState, GroupOK;
    var n := |units|;
    var units', labels' := units + Words(items), labels + TagSeq(items);
    var sem', cont' := sem[n := ItemsLang(items, sem)], cont[n := items];
    OldInRange(units, labels, sem, cont);
    forall g | g in sem' ensures GroupOK(units', labels', sem', cont', g) {
      if g == n {
        NewGroupOK(units, labels, sem, cont, items);
      } else {
        OldGroupOK(units, labels, sem, cont, items, g);
      }
    }
    forall id | 1 <= id < |units'| ensures LooksLikeHead(units', labels', id) <==> id in sem' {
      if id < n {
        assert LooksLikeHead(units, labels, id) <==> id in sem;
      } else {
        NewHead(items, id - n);
      }
    }
  }

  lemma OldInRange(units: seq<Word>, labels: seq<Byte>, sem: map<nat, Lang>, cont: map<nat, seq<Item>>)
    requires RegistryOK(units, labels, sem, cont)
    ensures forall g :: g in sem ==> 1 <= g < |units|
  {
    hide ItemsLang, Pack;
    forall g | g in sem ensures 1 <= g < |units| {
      assert GroupOK(units, labels, sem, cont, g);
    }
  }

  lemma NewHead(items: seq<Item>, i: nat)
    requires i < |items| && Ordered(items) && (forall j :: 0 <= j < |items| ==> Packable(items[j]))
    ensures items[i].tag == 0 || UnitIsState(Words(items)[i]) <==> i == 0
  {
    hide Pack;
    PackReads(items[i], i == 0, i + 1 < |items|);
    if i > 0 { assert items[0].tag < items[i].tag; }
  }

  lemma OldGroupOK(units: seq<Word>, labels: seq<Byte>, sem: map<nat, Lang>, cont: map<nat, seq<Item>>,
      items: seq<Item>, g: nat)
    requires RegistryOK(units, labels, sem, cont) && NewGroup(units, sem, cont, items) && g in sem
    requires forall h :: h in sem ==> 1 <= h < |units|
    ensures var n := |units|;
            GroupOK(units + Words(items), labels + TagSeq(items), sem[n := ItemsLang(items, sem)], cont[n := items], g)
  {
    hide ItemsLang, Pack;
    var n := |units|;
    var sem' := sem[n := ItemsLang(items, sem)];
    assert GroupOK(units, labels, sem, cont, g);
    ItemsStable(cont[g], sem, sem');
    var units', labels' := units + Words(items), labels + TagSeq(items);
  }

  lemma NewGroupOK(units: seq<Word>, labels: seq<Byte>, sem: map<nat, Lang>, cont: map<nat, seq<Item>>,
      items: seq<Item>)
    requires RegistryOK(units, labels, sem, cont) && NewGroup(units, sem, cont, items)
    requires forall h :: h in sem ==> 1 <= h < |units|
    ensures var n := |units|;
            GroupOK(units + Words(items), labels + TagSeq(items), sem[n := ItemsLang(items, sem)], cont[n := items], n)
  {
    hide ItemsLang, Pack, Ordered;
    var n := |units|;
    ItemsStable(items, sem, sem[n := ItemsLang(items, sem)]);
    forall i | 0 <= i < |items| && items[i].tag != 0 ensures items[i].child < n {
      assert ItemOK(items[i], sem);
    }
  }
}
