/** The unregistered part of the word graph: the path of the last key, with the
    siblings hanging off it at every level, and the dictionary it stands for. */
module DawgSpine {
  import opened Bits
  import opened Languages
  import opened DawgRegistry

  // levels[j] are the finished siblings at depth j; path[j] leads from depth j on.
  ghost predicate SpineShape(levels: seq<seq<Item>>, path: Key) {
    |levels| == |path| + 1
  }

  ghost predicate LevelItemsOK(levels: seq<seq<Item>>, sem: map<nat, Lang>) {
    forall j :: 0 <= j < |levels| ==> ItemsOK(levels[j], sem) && Ordered(levels[j])
  }

  ghost predicate Below(items: seq<Item>, c: Byte) {
    forall i :: 0 <= i < |items| ==> items[i].tag < c
  }

  // Along the path every sibling is smaller than the way down.
  ghost predicate PathOK(levels: seq<seq<Item>>, path: Key)
    requires SpineShape(levels, path)
  {
    forall j :: 0 <= j < |path| ==> path[j] != 0 && Below(levels[j], path[j])
  }

  ghost predicate SpineOK(levels: seq<seq<Item>>, path: Key, sem: map<nat, Lang>) {
    SpineShape(levels, path) && LevelItemsOK(levels, sem) && PathOK(levels, path)
  }

  ghost function Dict(levels: seq<seq<Item>>, path: Key, sem: map<nat, Lang>): Lang
    requires SpineOK(levels, path, sem)
    decreases |path|
  {
    if path == [] then ItemsLang(levels[0], sem)
    else
      SpineTail(levels, path, sem);
      ItemsLang(levels[0], sem) + Pre(path[0], Dict(levels[1..], path[1..], sem))
  }

  lemma SpineTail(levels: seq<seq<Item>>, path: Key, sem: map<nat, Lang>)
    requires SpineOK(levels, path, sem) && path != []
    ensures SpineOK(levels[1..], path[1..], sem)
  {
    hide ItemsOK, Ordered, Below;
    var l, p := levels[1..], path[1..];
    forall j | 0 <= j < |l| ensures ItemsOK(l[j], sem) && Ordered(l[j]) {
      assert l[j] == levels[j + 1];
    }
    forall j | 0 <= j < |p| ensures p[j] != 0 && Below(l[j], p[j]) {
      assert p[j] == path[j + 1] && l[j] == levels[j + 1];
    }
  }

  // ---- registering the tip ----

  // The tip group, registered as g, becomes a finished sibling one level up.
  ghost function Collapsed(levels: seq<seq<Item>>, path: Key, g: nat): (seq<seq<Item>>, Key)
    requires SpineShape(levels, path) && path != []
  {
    var m := |path|;
    (levels[..m - 1] + [levels[m - 1] + [Item(path[m - 1], g)]], path[..m - 1])
  }

  ghost predicate Grows(sem: map<nat, Lang>, sem': map<nat, Lang>) {
    forall g :: g in sem ==> g in sem' && sem'[g] == sem[g]
  }

  lemma CollapseOK(levels: seq<seq<Item>>, path: Key, sem: map<nat, Lang>, sem': map<nat, Lang>, g: nat)
    requires SpineOK(levels, path, sem) && path != [] && Grows(sem, sem')
    requires g in sem' && sem'[g] != map[] && g < CHILD_LIMIT
    ensures var (l, p) := Collapsed(levels, path, g); SpineOK(l, p, sem')
  {
    hide ItemsLang;
    var m := |path|;
    var (l, p) := Collapsed(levels, path, g);
    forall j | 0 <= j < |l| ensures ItemsOK(l[j], sem') && Ordered(l[j]) {
      ItemsStable(levels[j], sem, sem');
      if j == m - 1 {
        assert Below(levels[j], path[j]);
      } else {
        assert l[j] == levels[j];
      }
    }
    forall j | 0 <= j < |p| ensures p[j] != 0 && Below(l[j], p[j]) {
      assert l[j] == levels[j] && p[j] == path[j];
    }
  }

  lemma {:induction false} CollapseDict(levels: seq<seq<Item>>, path: Key, sem: map<nat, Lang>, sem': map<nat, Lang>,
      g: nat)
    requires SpineOK(levels, path, sem) && path != [] && Grows(sem, sem')
    requires g in sem' && sem'[g] != map[] && g < CHILD_LIMIT
    requires sem'[g] == ItemsLang(levels[|path|], sem)
    ensures var (l, p) := Collapsed(levels, path, g);
            SpineOK(l, p, sem') && Dict(l, p, sem') == Dict(levels, path, sem)
    decreases |path|
  {
    hide Pre, ItemsOK, Ordered, Below, ItemsLang;
    CollapseOK(levels, path, sem, sem', g);
    if |path| == 1 {
      CollapseTip(levels, path, sem, sem', g);
    } else {
      LevelStable(levels, sem, sem', 0);
      SpineTail(levels, path, sem);
      CollapseDict(levels[1..], path[1..], sem, sem', g);
      CollapseTail(levels, path, g);
    }
  }

  // A spine of one step becomes a single group.
  lemma CollapseTip(levels: seq<seq<Item>>, path: Key, sem: map<nat, Lang>, sem': map<nat, Lang>, g: nat)
    requires SpineOK(levels, path, sem) && |path| == 1 && Grows(sem, sem')
    requires g in sem' && sem'[g] == ItemsLang(levels[1], sem)
    requires var (l, p) := Collapsed(levels, path, g); SpineOK(l, p, sem')
    ensures var (l, p) := Collapsed(levels, path, g); Dict(l, p, sem') == Dict(levels, path, sem)
  {
    hide Pre, ItemsOK, Ordered, Below;
    var (l, p) := Collapsed(levels, path, g);
    var item := Item(path[0], g);
    LevelStable(levels, sem, sem', 0);
    SpineTail(levels, path, sem);
    assert l == [levels[0] + [item]] && p == [];
    assert (levels[0] + [item])[..|levels[0]|] == levels[0];
    assert levels[1..] == [levels[1]] && path[1..] == [];
  }

  // Above the tip nothing changes.
  lemma CollapseTail(levels: seq<seq<Item>>, path: Key, g: nat)
    requires SpineShape(levels, path) && |path| > 1
    ensures var ((l, p), (l', p')) := (Collapsed(levels, path, g), Collapsed(levels[1..], path[1..], g));
      p != [] && l[1..] == l' && p[1..] == p' && l[0] == levels[0] && p[0] == path[0]
  {
  }

  lemma LevelStable(levels: seq<seq<Item>>, sem: map<nat, Lang>, sem': map<nat, Lang>, j: nat)
    requires LevelItemsOK(levels, sem) && Grows(sem, sem') && j < |levels|
    ensures ItemsOK(levels[j], sem') && ItemsLang(levels[j], sem') == ItemsLang(levels[j], sem)
  {
    ItemsStable(levels[j], sem, sem');
  }

  // ---- a new key ----

  // The levels below a fresh branch: empty ones, then the value.
  ghost function Branch(k: nat, value: nat): (r: seq<seq<Item>>)
    ensures |r| == k + 1
    ensures forall j :: 0 <= j < k ==> r[j] == []
    ensures r[k] == [Item(0, value)]
  {
    if k == 0 then [[Item(0, value)]] else [[]] + Branch(k - 1, value)
  }

  // key branches off at the tip: below all that is there.
  ghost predicate Branches(levels: seq<seq<Item>>, path: Key, key: Key)
    requires SpineShape(levels, path)
  {
    && path < key && key[|path|] != 0
    && (forall i :: 0 <= i < |key| ==> key[i] != 0)
    && Below(levels[|path|], key[|path|])
  }

  ghost function Extended(levels: seq<seq<Item>>, path: Key, key: Key, value: nat): seq<seq<Item>>
    requires SpineShape(levels, path) && path < key
  {
    levels + Branch(|key| - |path| - 1, value)
  }

  lemma ExtendOK(levels: seq<seq<Item>>, path: Key, sem: map<nat, Lang>, key: Key, value: nat)
    requires SpineOK(levels, path, sem) && Branches(levels, path, key) && value < VALUE_LIMIT
    ensures SpineOK(Extended(levels, path, key, value), key, sem)
  {
    hide Branch, ItemsLang;
    var l := Extended(levels, path, key, value);
    var b := Branch(|key| - |path| - 1, value);
    forall j | 0 <= j < |l| ensures ItemsOK(l[j], sem) && Ordered(l[j]) {
      if j >= |levels| { assert l[j] == b[j - |levels|]; }
    }
    forall j | 0 <= j < |key| ensures key[j] != 0 && Below(l[j], key[j]) {
      if j < |path| {
        assert l[j] == levels[j] && key[j] == path[j];
      } else if j > |path| {
        assert l[j] == b[j - |levels|];
      }
    }
  }

  lemma {:induction false} BranchDict(k: Key, value: nat, sem: map<nat, Lang>)
    requires SpineOK(Branch(|k|, value), k, sem)
    ensures Dict(Branch(|k|, value), k, sem) == map[k := value]
    decreases |k|
  {
    hide Pre, ItemsOK, Ordered, Below;
    var l := Branch(|k|, value);
    if k == [] {
      assert l == [[Item(0, value)]];
      assert ItemsLang([Item(0, value)], sem) == map[[] := value] by {
        assert [Item(0, value)][..0] == [];
      }
    } else {
      SpineTail(l, k, sem);
      assert l[1..] == Branch(|k| - 1, value);
      BranchDict(k[1..], value, sem);
      PreSingle(k, value);
      assert l[0] == [];
    }
  }

  lemma PreSingle(k: Key, value: nat)
    requires k != []
    ensures Pre(k[0], map[k[1..] := value]) == map[k := value]
  {
    hide Pre;
    forall s: Key
      ensures s in Pre(k[0], map[k[1..] := value]) <==> s == k
      ensures s == k ==> Pre(k[0], map[k[1..] := value])[s] == value
    {
      PreHas(k[0], map[k[1..] := value], s);
      if s != [] && s[0] == k[0] && s[1..] == k[1..] { assert s == [s[0]] + s[1..] && k == [k[0]] + k[1..]; }
    }
  }

  lemma PreUpdate(c: Byte, K: Lang, k: Key, value: nat)
    ensures Pre(c, K[k := value]) == Pre(c, K)[[c] + k := value]
  {
    hide Pre;
    var A, B := Pre(c, K[k := value]), Pre(c, K)[[c] + k := value];
    forall s: Key
      ensures s in A <==> s in B
      ensures s in B ==> A[s] == B[s]
    {
      PreHas(c, K[k := value], s);
      PreHas(c, K, s);
      assert s == [c] + k <==> s != [] && s[0] == c && s[1..] == k by {
        if s != [] && s[0] == c && s[1..] == k { assert s == [s[0]] + s[1..]; }
      }
    }
  }

  /** Adding a branch adds exactly the new key. */
  lemma {:induction false} ExtendDict(levels: seq<seq<Item>>, path: Key, sem: map<nat, Lang>, key: Key, value: nat)
    requires SpineOK(levels, path, sem) && Branches(levels, path, key) && value < VALUE_LIMIT
    ensures SpineOK(Extended(levels, path, key, value), key, sem)
    ensures Dict(Extended(levels, path, key, value), key, sem) == Dict(levels, path, sem)[key := value]
    decreases |path|
  {
    hide Pre, ItemsOK, Ordered, Below, ItemsLang, Branch, Dict;
    ExtendOK(levels, path, sem, key, value);
    if path == [] {
      ExtendRoot(levels, sem, key, value);
    } else {
      SpineTail(levels, path, sem);
      assert key[1..][|path| - 1] == key[|path|] && levels[1..][|path| - 1] == levels[|path|];
      ExtendDict(levels[1..], path[1..], sem, key[1..], value);
      ExtendStep(levels, path, sem, key, value);
    }
  }

  lemma ExtendRoot(levels: seq<seq<Item>>, sem: map<nat, Lang>, key: Key, value: nat)
    requires SpineOK(levels, [], sem) && Branches(levels, [], key) && value < VALUE_LIMIT
    requires SpineOK(Extended(levels, [], key, value), key, sem)
    ensures Dict(Extended(levels, [], key, value), key, sem) == Dict(levels, [], sem)[key := value]
  {
    hide Pre, ItemsOK, Ordered, Below, ItemsLang, Branch;
    var l := Extended(levels, [], key, value);
    SpineTail(l, key, sem);
    assert l[1..] == Branch(|key| - 1, value);
    BranchDict(key[1..], value, sem);
    PreSingle(key, value);
  }

  lemma ExtendStep(levels: seq<seq<Item>>, path: Key, sem: map<nat, Lang>, key: Key, value: nat)
    requires SpineOK(levels, path, sem) && path != [] && path < key
    requires SpineOK(Extended(levels, path, key, value), key, sem)
    requires SpineOK(levels[1..], path[1..], sem)
    requires SpineOK(Extended(levels[1..], path[1..], key[1..], value), key[1..], sem)
    requires Dict(Extended(levels[1..], path[1..], key[1..], value), key[1..], sem)
             == Dict(levels[1..], path[1..], sem)[key[1..] := value]
    ensures Dict(Extended(levels, path, key, value), key, sem) == Dict(levels, path, sem)[key := value]
  {
    hide Pre, ItemsLang, Branch, Dict, LevelItemsOK, PathOK;
    var l := Extended(levels, path, key, value);
    assert l[1..] == Extended(levels[1..], path[1..], key[1..], value);
    assert l[0] == levels[0] && key[0] == path[0];
    DictStep(levels, path, sem);
    DictStep(l, key, sem);
    PreUpdate(path[0], Dict(levels[1..], path[1..], sem), key[1..], value);
    assert [path[0]] + key[1..] == key;
  }

  lemma DictStep(levels: seq<seq<Item>>, path: Key, sem: map<nat, Lang>)
    requires SpineOK(levels, path, sem) && path != []
    ensures SpineOK(levels[1..], path[1..], sem) && ItemsOK(levels[0], sem)
    ensures Dict(levels, path, sem) == ItemsLang(levels[0], sem) + Pre(path[0], Dict(levels[1..], path[1..], sem))
  {
    hide Pre, ItemsLang;
    SpineTail(levels, path, sem);
  }

  // ---- membership ----

  // The key compares with the spine at depth p: it agrees above, and there it is
  // larger than every sibling and than the way down.
  ghost predicate Beyond(levels: seq<seq<Item>>, path: Key, key: Key, p: nat)
    requires SpineShape(levels, path)
  {
    && p <= |path| && p < |key| && key[..p] == path[..p]
    && Below(levels[p], key[p]) && (p < |path| ==> path[p] < key[p])
  }

  lemma {:induction false} BeyondNew(levels: seq<seq<Item>>, path: Key, sem: map<nat, Lang>, key: Key, p: nat)
    requires SpineOK(levels, path, sem) && Beyond(levels, path, key, p)
    ensures key !in Dict(levels, path, sem)
    decreases |path|
  {
    hide Pre, ItemsLang, Find;
    ItemsHas(levels[0], sem, key);
    assert Find(levels[0], key[0]) == |levels[0]| by {
      if p > 0 { assert key[0] == key[..p][0] == path[..p][0] == path[0]; }
    }
    if path != [] {
      SpineTail(levels, path, sem);
      PreHas(path[0], Dict(levels[1..], path[1..], sem), key);
      if p > 0 {
        assert key[1..][..p - 1] == key[..p][1..] && path[1..][..p - 1] == path[..p][1..];
        assert levels[1..][p - 1] == levels[p];
        BeyondNew(levels[1..], path[1..], sem, key[1..], p - 1);
      }
    }
  }

  // The last key is in the dictionary.
  lemma {:induction false} PathIn(levels: seq<seq<Item>>, path: Key, sem: map<nat, Lang>)
    requires SpineOK(levels, path, sem) && 0 in Tags(levels[|path|])
    ensures path in Dict(levels, path, sem)
    decreases |path|
  {
    hide Pre, ItemsLang, Below, ItemsOK, Ordered;
    if path == [] {
      ItemsStarts(levels[0], sem, 0);
    } else {
      SpineTail(levels, path, sem);
      assert levels[1..][|path| - 1] == levels[|path|];
      PathIn(levels[1..], path[1..], sem);
      PreHas(path[0], Dict(levels[1..], path[1..], sem), path);
    }
  }
}
