/** The nodes of the unregistered part of the word graph: sibling chains along
    the path of the last key, the node stack and the recycle bin. */
module DawgNodes {
  import opened Bits
  import opened Languages
  import opened DawgRegistry

  datatype DawgNode = DawgNode(child: nat, sibling: nat, tag: Byte, isState: bool, hasSibling: bool)

  const FRESH_NODE := DawgNode(0, 0, 0, false, false)

  function NodeItem(node: DawgNode): Item {
    Item(node.tag, node.child)
  }

  // The i-th sibling of a chain: oldest first in `group`, linked from the newest
  // to the oldest; `more` is the flag of the newest.
  ghost predicate LinkOK(nodes: seq<DawgNode>, group: seq<nat>, item: Item, more: bool, i: nat)
    requires i < |group|
  {
    && 0 < group[i] < |nodes|
    && NodeItem(nodes[group[i]]) == item
    && nodes[group[i]].sibling == (if i == 0 then 0 else group[i - 1])
    && nodes[group[i]].isState == (i == 0)
    && nodes[group[i]].hasSibling == (i + 1 < |group| || more)
  }

  ghost predicate ChainOK(nodes: seq<DawgNode>, group: seq<nat>, items: seq<Item>, more: bool) {
    && |group| == |items|
    && forall i :: 0 <= i < |group| ==> LinkOK(nodes, group, items[i], more, i)
  }

  function Newest(group: seq<nat>): nat {
    if group == [] then 0 else group[|group| - 1]
  }

  /** The ghost shape of the unregistered part.
      groups[j]: the sibling nodes at depth j; levels[j]: the finished ones as items
      path[j]:   the label of the newest node at depth j, whose child is at depth j + 1
      promised:  the depth at which the newest node already announces a next sibling
      armed:     whether the newest node of the last depth is on the stack
      seat:      the depth and position of every node in use */
  datatype Tree = Tree(groups: seq<seq<nat>>, levels: seq<seq<Item>>, path: Key, promised: int, armed: bool,
                       seat: map<nat, (nat, nat)>)

  ghost predicate Shape(t: Tree) {
    |t.groups| == |t.levels| == |t.path| + 1
  }

  // The items of a depth; the way down counts as an item whose child is a node.
  ghost function ChainItems(t: Tree, j: nat): seq<Item>
    requires Shape(t) && j <= |t.path|
  {
    if j < |t.path| then t.levels[j] + [Item(t.path[j], Newest(t.groups[j + 1]))] else t.levels[j]
  }

  ghost predicate DepthOK(nodes: seq<DawgNode>, t: Tree, j: nat)
    requires Shape(t) && j <= |t.path|
  {
    ChainOK(nodes, t.groups[j], ChainItems(t, j), j == t.promised)
  }

  ghost predicate RootOK(nodes: seq<DawgNode>, child: nat) {
    |nodes| > 0 && nodes[0] == DawgNode(child, 0, 255, false, false)
  }

  ghost predicate SeatsOK(t: Tree) {
    && 0 !in t.seat
    && forall j, i :: 0 <= j < |t.groups| && 0 <= i < |t.groups[j]| ==>
         t.groups[j][i] in t.seat && t.seat[t.groups[j][i]] == (j, i)
  }

  ghost predicate BinOK(nodes: seq<DawgNode>, bin: seq<nat>, t: Tree) {
    && (forall i :: 0 <= i < |bin| ==> 0 < bin[i] < |nodes| && bin[i] !in t.seat)
    && (forall i, j :: 0 <= i < j < |bin| ==> bin[i] != bin[j])
    && (forall id :: id in t.seat ==> id < |nodes|)
  }

  function StackSize(t: Tree): nat {
    |t.path| + (if t.armed then 2 else 1)
  }

  ghost predicate StackOK(stack: seq<nat>, t: Tree)
    requires Shape(t)
  {
    && |stack| == StackSize(t) && stack[0] == 0
    && forall j :: 1 <= j < |stack| ==> stack[j] == Newest(t.groups[j - 1]) && stack[j] != 0
  }

  ghost predicate TreeOK(nodes: seq<DawgNode>, bin: seq<nat>, stack: seq<nat>, t: Tree) {
    && Shape(t)
    && RootOK(nodes, Newest(t.groups[0]))
    && (forall j :: 0 <= j <= |t.path| ==> DepthOK(nodes, t, j))
    && SeatsOK(t) && BinOK(nodes, bin, t) && StackOK(stack, t)
  }

  // ---- frames ----

  // A chain only depends on its own nodes.
  lemma ChainFrame(nodes: seq<DawgNode>, nodes': seq<DawgNode>, group: seq<nat>, items: seq<Item>, more: bool)
    requires ChainOK(nodes, group, items, more) && |nodes| <= |nodes'|
    requires forall i :: 0 <= i < |group| && group[i] < |nodes| ==> nodes'[group[i]] == nodes[group[i]]
    ensures ChainOK(nodes', group, items, more)
  {
    forall i | 0 <= i < |group| ensures LinkOK(nodes', group, items[i], more, i) {
      assert LinkOK(nodes, group, items[i], more, i);
    }
  }

  ghost predicate OffDepth(nodes: seq<DawgNode>, nodes': seq<DawgNode>, t: Tree, j: nat)
    requires j < |t.groups|
  {
    && |nodes| <= |nodes'|
    && forall i :: 0 <= i < |t.groups[j]| && t.groups[j][i] < |nodes| ==>
        nodes'[t.groups[j][i]] == nodes[t.groups[j][i]]
  }

  // Changing one node leaves the other depths alone.
  lemma OtherDepths(nodes: seq<DawgNode>, nodes': seq<DawgNode>, t: Tree, id: nat, j: nat)
    requires SeatsOK(t) && j < |t.groups|
    requires |nodes| <= |nodes'| && forall x: nat :: x < |nodes| && x != id ==> nodes'[x] == nodes[x]
    requires id in t.seat ==> t.seat[id].0 != j
    ensures OffDepth(nodes, nodes', t, j)
  {
    forall i | 0 <= i < |t.groups[j]| && t.groups[j][i] < |nodes|
      ensures nodes'[t.groups[j][i]] == nodes[t.groups[j][i]]
    {
      assert t.groups[j][i] in t.seat;
    }
  }

  // ---- announcing a sibling ----

  lemma PromiseKeeps(nodes: seq<DawgNode>, bin: seq<nat>, stack: seq<nat>, t: Tree, p: nat)
    requires TreeOK(nodes, bin, stack, t) && t.promised == -1 && p <= |t.path| && t.groups[p] != []
    ensures var id := Newest(t.groups[p]);
            && 0 < id < |nodes|
            && TreeOK(nodes[id := nodes[id].(hasSibling := true)], bin, stack, t.(promised := p))
  {
    hide LinkOK, BinOK;
    var k := |t.groups[p]| - 1;
    var id := t.groups[p][k];
    assert DepthOK(nodes, t, p);
    LinkAt(nodes, t.groups[p], ChainItems(t, p), false, k);
    var nodes', t' := nodes[id := nodes[id].(hasSibling := true)], t.(promised := p);
    BinFrame(nodes, nodes', bin, t, t');
    forall j | 0 <= j <= |t.path| ensures DepthOK(nodes', t', j) {
      assert DepthOK(nodes, t, j);
      assert ChainItems(t', j) == ChainItems(t, j);
      if j == p {
        PromiseChain(nodes, t.groups[p], ChainItems(t, p));
      } else {
        OtherDepths(nodes, nodes', t, id, j);
        ChainFrame(nodes, nodes', t.groups[j], ChainItems(t, j), false);
      }
    }
  }

  lemma LinkAt(nodes: seq<DawgNode>, group: seq<nat>, items: seq<Item>, more: bool, i: nat)
    requires ChainOK(nodes, group, items, more) && i < |group|
    ensures 0 < group[i] < |nodes| && NodeItem(nodes[group[i]]) == items[i]
    ensures nodes[group[i]].sibling == (if i == 0 then 0 else group[i - 1])
    ensures nodes[group[i]].isState == (i == 0)
    ensures nodes[group[i]].hasSibling == (i + 1 < |group| || more)
  {
    assert LinkOK(nodes, group, items[i], more, i);
  }

  lemma ChainIds(nodes: seq<DawgNode>, group: seq<nat>, items: seq<Item>, more: bool)
    requires ChainOK(nodes, group, items, more)
    ensures |group| == |items| && forall i :: 0 <= i < |group| ==> 0 < group[i] < |nodes|
  {
    forall i | 0 <= i < |group| ensures 0 < group[i] < |nodes| {
      LinkAt(nodes, group, items, more, i);
    }
  }

  lemma BinFrame(nodes: seq<DawgNode>, nodes': seq<DawgNode>, bin: seq<nat>, t: Tree, t': Tree)
    requires BinOK(nodes, bin, t) && |nodes| <= |nodes'| && t'.seat == t.seat
    ensures BinOK(nodes', bin, t')
  {
  }

  ghost predicate NoRepeats(group: seq<nat>) {
    forall i, j :: 0 <= i < j < |group| ==> group[i] != group[j]
  }

  lemma SeatsNoRepeats(t: Tree, p: nat)
    requires SeatsOK(t) && p < |t.groups|
    ensures NoRepeats(t.groups[p])
  {
    var g := t.groups[p];
    forall i, j | 0 <= i < j < |g| ensures g[i] != g[j] {
      assert t.seat[t.groups[p][i]] == (p, i) && t.seat[t.groups[p][j]] == (p, j);
    }
  }

  lemma PromiseChain(nodes: seq<DawgNode>, group: seq<nat>, items: seq<Item>)
    requires ChainOK(nodes, group, items, false) && group != [] && NoRepeats(group)
    ensures var id := group[|group| - 1];
            && 0 < id < |nodes|
            && ChainOK(nodes[id := nodes[id].(hasSibling := true)], group, items, true)
  {
    var k := |group| - 1;
    var id := group[k];
    LinkAt(nodes, group, items, false, k);
    var nodes' := nodes[id := nodes[id].(hasSibling := true)];
    forall i | 0 <= i < |group| ensures LinkOK(nodes', group, items[i], true, i) {
      LinkAt(nodes, group, items, false, i);
    }
  }

  // ---- single chains ----

  // The newest sibling gets another child.
  lemma RechildChain(nodes: seq<DawgNode>, group: seq<nat>, items: seq<Item>, last: Item, more: bool, child: nat)
    requires ChainOK(nodes, group, items + [last], more) && NoRepeats(group)
    ensures var id := Newest(group);
            && 0 < id < |nodes| && |group| == |items| + 1
            && ChainOK(nodes[id := nodes[id].(child := child)], group, items + [Item(last.tag, child)], more)
  {
    var k := |items|;
    var id := group[k];
    LinkAt(nodes, group, items + [last], more, k);
    var nodes', items' := nodes[id := nodes[id].(child := child)], items + [Item(last.tag, child)];
    forall i | 0 <= i < |group| ensures LinkOK(nodes', group, items'[i], more, i) {
      LinkAt(nodes, group, items + [last], more, i);
    }
  }

  // A fresh node becomes the newest sibling.
  lemma GrowChain(nodes: seq<DawgNode>, nodes': seq<DawgNode>, group: seq<nat>, items: seq<Item>, id: nat, c: Byte,
      child: nat)
    requires ChainOK(nodes, group, items, true) && |nodes| <= |nodes'| && 0 < id < |nodes'|
    requires forall i :: 0 <= i < |group| && group[i] < |nodes| ==> nodes'[group[i]] == nodes[group[i]]
    requires nodes'[id] == DawgNode(child, Newest(group), c, group == [], false)
    ensures ChainOK(nodes', group + [id], items + [Item(c, child)], false)
  {
    var group', items' := group + [id], items + [Item(c, child)];
    forall i | 0 <= i < |group'| ensures LinkOK(nodes', group', items'[i], false, i) {
      if i < |group| { LinkAt(nodes, group, items, true, i); }
    }
  }

  // ---- registering the last depth ----

  ghost function Kept(seat: map<nat, (nat, nat)>, m: nat): map<nat, (nat, nat)> {
    map id | id in seat && seat[id].0 < m :: seat[id]
  }

  ghost function CollapsedTree(t: Tree, g: nat): Tree
    requires Shape(t) && t.path != []
  {
    var m := |t.path|;
    Tree(t.groups[..m], t.levels[..m - 1] + [t.levels[m - 1] + [Item(t.path[m - 1], g)]], t.path[..m - 1],
         t.promised, true, Kept(t.seat, m))
  }

  function Reversed(s: seq<nat>): (r: seq<nat>)
    ensures |r| == |s| && forall i :: 0 <= i < |s| ==> r[i] == s[|s| - 1 - i]
  {
    seq(|s|, i requires 0 <= i < |s| => s[|s| - 1 - i])
  }

  lemma CollapseSeats(t: Tree, g: nat)
    requires Shape(t) && t.path != [] && SeatsOK(t)
    ensures SeatsOK(CollapsedTree(t, g))
  {
    var m := |t.path|;
    var t' := CollapsedTree(t, g);
    forall j, i | 0 <= j < |t'.groups| && 0 <= i < |t'.groups[j]|
      ensures t'.groups[j][i] in t'.seat && t'.seat[t'.groups[j][i]] == (j, i)
    {
      assert t'.groups[j][i] == t.groups[j][i];
    }
  }

  lemma CollapseBin(nodes: seq<DawgNode>, nodes': seq<DawgNode>, bin: seq<nat>, t: Tree, g: nat)
    requires Shape(t) && t.path != [] && SeatsOK(t) && BinOK(nodes, bin, t) && |nodes'| == |nodes|
    ensures BinOK(nodes', bin + Reversed(t.groups[|t.path|]), CollapsedTree(t, g))
  {
    var m := |t.path|;
    var last := t.groups[m];
    var bin' := bin + Reversed(last);
    forall i | |bin| <= i < |bin'| ensures bin'[i] in t.seat && t.seat[bin'[i]] == (m, |last| - 1 - (i - |bin|))
        && bin'[i] != 0 {
      assert bin'[i] == t.groups[m][|last| - 1 - (i - |bin|)];
    }
  }

  lemma CollapseStack(stack: seq<nat>, t: Tree, g: nat)
    requires Shape(t) && t.path != [] && t.armed && StackOK(stack, t)
    ensures StackOK(stack[..|stack| - 1], CollapsedTree(t, g))
  {
    var m := |t.path|;
    var t' := CollapsedTree(t, g);
    var s := stack[..|stack| - 1];
    forall j | 1 <= j < |s| ensures s[j] == Newest(t'.groups[j - 1]) && s[j] != 0 {
      assert s[j] == stack[j] && t'.groups[j - 1] == t.groups[j - 1];
    }
  }

  lemma CollapseDepth(nodes: seq<DawgNode>, t: Tree, g: nat, j: nat)
    requires Shape(t) && t.path != [] && SeatsOK(t)
    requires forall i :: 0 <= i <= |t.path| ==> DepthOK(nodes, t, i)
    requires j < |t.path|
    ensures var id := Newest(t.groups[|t.path| - 1]);
            && 0 < id < |nodes|
            && Shape(CollapsedTree(t, g))
            && DepthOK(nodes[id := nodes[id].(child := g)], CollapsedTree(t, g), j)
  {
    hide LinkOK;
    var m := |t.path|;
    var t' := CollapsedTree(t, g);
    assert DepthOK(nodes, t, m - 1) && DepthOK(nodes, t, j);
    SeatsNoRepeats(t, m - 1);
    RechildChain(nodes, t.groups[m - 1], t.levels[m - 1], Item(t.path[m - 1], Newest(t.groups[m])),
        m - 1 == t.promised, g);
    var id := Newest(t.groups[m - 1]);
    var nodes' := nodes[id := nodes[id].(child := g)];
    if j == m - 1 {
      assert ChainItems(t', j) == t.levels[m - 1] + [Item(t.path[m - 1], g)];
    } else {
      assert t.groups[m - 1][|t.groups[m - 1]| - 1] == id;
      OtherDepths(nodes, nodes', t, id, j);
      assert t'.groups[j + 1] == t.groups[j + 1];
      assert ChainItems(t', j) == ChainItems(t, j);
      ChainFrame(nodes, nodes', t.groups[j], ChainItems(t, j), j == t.promised);
    }
  }

  /** Registering the last depth as group g and freeing its nodes keeps the shape. */
  lemma CollapseTree(nodes: seq<DawgNode>, bin: seq<nat>, stack: seq<nat>, t: Tree, g: nat)
    requires TreeOK(nodes, bin, stack, t) && t.path != [] && t.armed
    ensures var m := |t.path|;
            var id := Newest(t.groups[m - 1]);
            && 0 < id < |nodes| && id == stack[|stack| - 2]
            && TreeOK(nodes[id := nodes[id].(child := g)], bin + Reversed(t.groups[m]), stack[..|stack| - 1],
                CollapsedTree(t, g))
  {
    hide ChainOK, SeatsOK, BinOK, Reversed;
    var m := |t.path|;
    var id := Newest(t.groups[m - 1]);
    var t' := CollapsedTree(t, g);
    CollapseDepth(nodes, t, g, m - 1);
    var nodes' := nodes[id := nodes[id].(child := g)];
    forall j | 0 <= j <= |t'.path| ensures DepthOK(nodes', t', j) {
      CollapseDepth(nodes, t, g, j);
    }
    CollapseSeats(t, g);
    CollapseBin(nodes, nodes', bin, t, g);
    CollapseStack(stack, t, g);
  }

  // ---- adding nodes ----

  // A node that is not in use.
  ghost predicate Spare(nodes: seq<DawgNode>, bin: seq<nat>, t: Tree, id: nat) {
    0 < id < |nodes| && id !in t.seat && id !in bin && nodes[id] == FRESH_NODE
  }

  lemma UnusedKeeps(nodes: seq<DawgNode>, nodes': seq<DawgNode>, bin: seq<nat>, bin': seq<nat>, stack: seq<nat>,
      t: Tree, id: nat)
    requires TreeOK(nodes, bin, stack, t) && id !in t.seat && id != 0
    requires |nodes| <= |nodes'| && forall x: nat :: x < |nodes| && x != id ==> nodes'[x] == nodes[x]
    requires BinOK(nodes', bin', t)
    ensures TreeOK(nodes', bin', stack, t)
  {
    hide ChainOK, BinOK;
    forall j | 0 <= j <= |t.path| ensures DepthOK(nodes', t, j) {
      assert DepthOK(nodes, t, j);
      OtherDepths(nodes, nodes', t, id, j);
      ChainFrame(nodes, nodes', t.groups[j], ChainItems(t, j), j == t.promised);
    }
  }

  // The node above the last depth, which is on top of the stack.
  ghost function Above(t: Tree): nat
    requires Shape(t)
  {
    if t.path == [] then 0 else Newest(t.groups[|t.path| - 1])
  }

  lemma AboveFacts(nodes: seq<DawgNode>, bin: seq<nat>, stack: seq<nat>, t: Tree)
    requires TreeOK(nodes, bin, stack, t) && !t.armed
    ensures Above(t) == stack[|stack| - 1] && Above(t) < |nodes|
    ensures nodes[Above(t)].child == Newest(t.groups[|t.path|])
    ensures t.path != [] ==> Above(t) in t.seat && t.seat[Above(t)].0 == |t.path| - 1
  {
    hide LinkOK, BinOK;
    if t.path != [] {
      var j := |t.path| - 1;
      assert DepthOK(nodes, t, j);
      assert stack[j + 1] == Newest(t.groups[j]) != 0;
      LinkAt(nodes, t.groups[j], ChainItems(t, j), j == t.promised, |t.groups[j]| - 1);
      assert t.groups[j][|t.groups[j]| - 1] in t.seat;
    }
  }

  // What the three writes of insert leave: the new node, and the pointer to it.
  ghost predicate Added(nodes: seq<DawgNode>, nodes': seq<DawgNode>, t: Tree, id: nat, c: Byte)
    requires Shape(t)
  {
    && |nodes'| == |nodes| && 0 < id < |nodes| && Above(t) < |nodes| && Above(t) != id
    && (forall x: nat :: x < |nodes| && x != id && x != Above(t) ==> nodes'[x] == nodes[x])
    && nodes'[id] == DawgNode(0, Newest(t.groups[|t.path|]), c, t.groups[|t.path|] == [], false)
    && nodes'[Above(t)] == nodes[Above(t)].(child := id)
  }

  ghost function WithOpen(t: Tree, id: nat, c: Byte): Tree
    requires Shape(t)
  {
    var m := |t.path|;
    Tree(t.groups[..m] + [t.groups[m] + [id], []], t.levels + [[]], t.path + [c], m + 1, false,
         t.seat[id := (m, |t.groups[m]|)])
  }

  ghost function WithLeaf(t: Tree, id: nat): Tree
    requires Shape(t)
  {
    var m := |t.path|;
    Tree(t.groups[..m] + [t.groups[m] + [id]], t.levels[..m] + [t.levels[m] + [Item(0, 0)]], t.path, -1, true,
         t.seat[id := (m, |t.groups[m]|)])
  }

  lemma AddedTip(nodes: seq<DawgNode>, nodes': seq<DawgNode>, t: Tree, id: nat, c: Byte)
    requires Shape(t) && Added(nodes, nodes', t, id, c) && SeatsOK(t) && id !in t.seat
    requires DepthOK(nodes, t, |t.path|) && t.promised == |t.path|
    requires t.path != [] ==> Above(t) in t.seat && t.seat[Above(t)].0 == |t.path| - 1
    ensures ChainOK(nodes', t.groups[|t.path|] + [id], t.levels[|t.path|] + [Item(c, 0)], false)
  {
    hide LinkOK, ChainOK;
    var m := |t.path|;
    forall i | 0 <= i < |t.groups[m]| && t.groups[m][i] < |nodes| ensures nodes'[t.groups[m][i]]
        == nodes[t.groups[m][i]] {
      assert t.groups[m][i] in t.seat && t.seat[t.groups[m][i]] == (m, i);
    }
    GrowChain(nodes, nodes', t.groups[m], t.levels[m], id, c, 0);
  }

  lemma AddedAbove(nodes: seq<DawgNode>, nodes': seq<DawgNode>, t: Tree, id: nat, c: Byte)
    requires Shape(t) && Added(nodes, nodes', t, id, c) && SeatsOK(t) && id !in t.seat
    requires t.path != [] && DepthOK(nodes, t, |t.path| - 1) && t.promised == |t.path|
    ensures var j := |t.path| - 1;
            ChainOK(nodes', t.groups[j], t.levels[j] + [Item(t.path[j], id)], false)
  {
    hide LinkOK, ChainOK;
    var j := |t.path| - 1;
    SeatsNoRepeats(t, j);
    RechildChain(nodes, t.groups[j], t.levels[j], Item(t.path[j], Newest(t.groups[j + 1])), false, id);
    var up := nodes[Above(t) := nodes[Above(t)].(child := id)];
    forall i | 0 <= i < |t.groups[j]| && t.groups[j][i] < |up| ensures nodes'[t.groups[j][i]] == up[t.groups[j][i]] {
      assert t.groups[j][i] in t.seat;
    }
    ChainFrame(up, nodes', t.groups[j], t.levels[j] + [Item(t.path[j], id)], false);
  }

  lemma AddedHigh(nodes: seq<DawgNode>, nodes': seq<DawgNode>, t: Tree, id: nat, c: Byte, j: nat)
    requires Shape(t) && Added(nodes, nodes', t, id, c) && SeatsOK(t) && id !in t.seat
    requires j + 1 < |t.path| && DepthOK(nodes, t, j) && t.promised == |t.path|
    requires Above(t) in t.seat && t.seat[Above(t)].0 == |t.path| - 1
    ensures ChainOK(nodes', t.groups[j], ChainItems(t, j), false)
  {
    hide LinkOK, ChainOK;
    forall i | 0 <= i < |t.groups[j]| && t.groups[j][i] < |nodes| ensures nodes'[t.groups[j][i]]
        == nodes[t.groups[j][i]] {
      assert t.groups[j][i] in t.seat && t.seat[t.groups[j][i]] == (j, i);
    }
    ChainFrame(nodes, nodes', t.groups[j], ChainItems(t, j), false);
  }

  lemma AddedSeats(t: Tree, id: nat, c: Byte)
    requires Shape(t) && SeatsOK(t) && id !in t.seat && id != 0
    ensures SeatsOK(WithOpen(t, id, c)) && SeatsOK(WithLeaf(t, id))
  {
    var m := |t.path|;
    var a, b := WithOpen(t, id, c), WithLeaf(t, id);
    forall j, i | 0 <= j < |a.groups| && 0 <= i < |a.groups[j]|
      ensures a.groups[j][i] in a.seat && a.seat[a.groups[j][i]] == (j, i)
    {
      if j < m { assert a.groups[j] == t.groups[j]; } else if j == m
          && i < |t.groups[m]| { assert a.groups[j][i] == t.groups[j][i]; }
    }
    forall j, i | 0 <= j < |b.groups| && 0 <= i < |b.groups[j]|
      ensures b.groups[j][i] in b.seat && b.seat[b.groups[j][i]] == (j, i)
    {
      assert b.groups[j][i] == a.groups[j][i];
    }
  }

  lemma AddedBin(nodes: seq<DawgNode>, nodes': seq<DawgNode>, bin: seq<nat>, t: Tree, t': Tree, id: nat, at: (nat, nat))
    requires BinOK(nodes, bin, t) && |nodes'| == |nodes| && id !in bin && id < |nodes|
    requires t'.seat == t.seat[id := at]
    ensures BinOK(nodes', bin, t')
  {
  }

  lemma AddedStack(stack: seq<nat>, t: Tree, t': Tree, id: nat)
    requires Shape(t) && Shape(t') && StackOK(stack, t) && !t.armed && id != 0
    requires StackSize(t') == |t.path| + 2 && t'.groups[|t.path|] == t.groups[|t.path|] + [id]
    requires forall j :: 0 <= j < |t.path| ==> t'.groups[j] == t.groups[j]
    ensures StackOK(stack + [id], t')
  {
    var s := stack + [id];
    forall j | 1 <= j < |s| ensures s[j] == Newest(t'.groups[j - 1]) && s[j] != 0 {
      if j < |stack| { assert stack[j] == Newest(t.groups[j - 1]); }
    }
  }

  /** A node with a further way down is added below the top of the stack. */
  lemma AddOpenKeeps(nodes: seq<DawgNode>, nodes': seq<DawgNode>, bin: seq<nat>, stack: seq<nat>, t: Tree, id: nat,
      c: Byte)
    requires TreeOK(nodes, bin, stack, t) && !t.armed && t.promised == |t.path|
    requires Added(nodes, nodes', t, id, c) && id !in t.seat && id !in bin
    ensures TreeOK(nodes', bin, stack + [id], WithOpen(t, id, c))
  {
    hide ChainOK, SeatsOK, BinOK, StackOK;
    var m := |t.path|;
    var t' := WithOpen(t, id, c);
    AboveFacts(nodes, bin, stack, t);
    AddedSeats(t, id, c);
    AddedBin(nodes, nodes', bin, t, t', id, (m, |t.groups[m]|));
    AddedStack(stack, t, t', id);
    forall j | 0 <= j <= |t'.path| ensures DepthOK(nodes', t', j) {
      if j <= m { assert DepthOK(nodes, t, j); }
      AddOpenDepth(nodes, nodes', t, id, c, j);
    }
    RootAdded(nodes, nodes', t, id, c);
  }

  lemma RootAdded(nodes: seq<DawgNode>, nodes': seq<DawgNode>, t: Tree, id: nat, c: Byte)
    requires Shape(t) && Added(nodes, nodes', t, id, c) && RootOK(nodes, Newest(t.groups[0]))
    requires t.path != [] ==> Above(t) != 0
    ensures RootOK(nodes', Newest((t.groups[..|t.path|] + [t.groups[|t.path|] + [id], []])[0]))
    ensures RootOK(nodes', Newest((t.groups[..|t.path|] + [t.groups[|t.path|] + [id]])[0]))
  {
  }

  lemma AddOpenDepth(nodes: seq<DawgNode>, nodes': seq<DawgNode>, t: Tree, id: nat, c: Byte, j: nat)
    requires Shape(t) && Added(nodes, nodes', t, id, c) && SeatsOK(t) && id !in t.seat
    requires t.promised == |t.path| && j <= |t.path| + 1
    requires t.path != [] ==> Above(t) in t.seat && t.seat[Above(t)].0 == |t.path| - 1
    requires forall i :: 0 <= i <= |t.path| ==> DepthOK(nodes, t, i)
    ensures DepthOK(nodes', WithOpen(t, id, c), j)
  {
    hide LinkOK, SeatsOK;
    var m := |t.path|;
    var t' := WithOpen(t, id, c);
    if j <= m { assert DepthOK(nodes, t, j); }
    if j == m + 1 {
    } else if j == m {
      AddedTip(nodes, nodes', t, id, c);
      assert ChainItems(t', m) == t.levels[m] + [Item(c, 0)];
    } else if j == m - 1 {
      AddedAbove(nodes, nodes', t, id, c);
      assert t'.groups[m] == t.groups[m] + [id];
      assert ChainItems(t', j) == t.levels[j] + [Item(t.path[j], id)];
    } else {
      AddedHigh(nodes, nodes', t, id, c, j);
      assert t'.groups[j + 1] == t.groups[j + 1];
      assert ChainItems(t', j) == ChainItems(t, j);
    }
  }

  /** A node that ends a key is added below the top of the stack. */
  lemma AddLeafKeeps(nodes: seq<DawgNode>, nodes': seq<DawgNode>, bin: seq<nat>, stack: seq<nat>, t: Tree, id: nat)
    requires TreeOK(nodes, bin, stack, t) && !t.armed && t.promised == |t.path|
    requires Added(nodes, nodes', t, id, 0) && id !in t.seat && id !in bin
    ensures TreeOK(nodes', bin, stack + [id], WithLeaf(t, id))
  {
    hide ChainOK, SeatsOK, BinOK, StackOK;
    var m := |t.path|;
    var t' := WithLeaf(t, id);
    AboveFacts(nodes, bin, stack, t);
    AddedSeats(t, id, 0);
    AddedBin(nodes, nodes', bin, t, t', id, (m, |t.groups[m]|));
    AddedStack(stack, t, t', id);
    forall j | 0 <= j <= |t'.path| ensures DepthOK(nodes', t', j) {
      AddLeafDepth(nodes, nodes', t, id, j);
    }
    RootAdded(nodes, nodes', t, id, 0);
  }

  lemma AddLeafDepth(nodes: seq<DawgNode>, nodes': seq<DawgNode>, t: Tree, id: nat, j: nat)
    requires Shape(t) && Added(nodes, nodes', t, id, 0) && SeatsOK(t) && id !in t.seat
    requires t.promised == |t.path| && j <= |t.path|
    requires t.path != [] ==> Above(t) in t.seat && t.seat[Above(t)].0 == |t.path| - 1
    requires forall i :: 0 <= i <= |t.path| ==> DepthOK(nodes, t, i)
    ensures DepthOK(nodes', WithLeaf(t, id), j)
  {
    hide LinkOK, SeatsOK;
    var m := |t.path|;
    var t' := WithLeaf(t, id);
    assert DepthOK(nodes, t, j);
    if j == m {
      AddedTip(nodes, nodes', t, id, 0);
      assert ChainItems(t', m) == t.levels[m] + [Item(0, 0)];
    } else if j == m - 1 {
      AddedAbove(nodes, nodes', t, id, 0);
      assert t'.groups[m] == t.groups[m] + [id];
      assert ChainItems(t', j) == t.levels[j] + [Item(t.path[j], id)];
    } else {
      AddedHigh(nodes, nodes', t, id, 0, j);
      assert t'.groups[j + 1] == t.groups[j + 1];
      assert ChainItems(t', j) == ChainItems(t, j);
    }
  }

  ghost function WithValue(t: Tree, items: seq<Item>, value: nat): Tree
    requires Shape(t)
  {
    t.(levels := t.levels[..|t.path|] + [items + [Item(0, value)]])
  }

  /** The value of a new leaf. */
  lemma ValueKeeps(nodes: seq<DawgNode>, bin: seq<nat>, stack: seq<nat>, t: Tree, items: seq<Item>, value: nat)
    requires TreeOK(nodes, bin, stack, t) && t.levels[|t.path|] == items + [Item(0, 0)]
    ensures var id := Newest(t.groups[|t.path|]);
            && 0 < id < |nodes|
            && TreeOK(nodes[id := nodes[id].(child := value)], bin, stack, WithValue(t, items, value))
  {
    hide LinkOK, ChainOK, SeatsOK, BinOK, StackOK;
    var m := |t.path|;
    var t' := WithValue(t, items, value);
    assert DepthOK(nodes, t, m);
    SeatsNoRepeats(t, m);
    RechildChain(nodes, t.groups[m], items, Item(0, 0), m == t.promised, value);
    var id := Newest(t.groups[m]);
    var nodes' := nodes[id := nodes[id].(child := value)];
    NewestSeat(t, m);
    BinFrame(nodes, nodes', bin, t, t');
    SameSeats(t, t');
    SameStack(stack, t, t');
    forall j | 0 <= j <= |t'.path| ensures DepthOK(nodes', t', j) {
      assert DepthOK(nodes, t, j);
      if j < m {
        OtherDepths(nodes, nodes', t, id, j);
        ChainFrame(nodes, nodes', t.groups[j], ChainItems(t, j), j == t.promised);
        assert ChainItems(t', j) == ChainItems(t, j);
      }
    }
  }

  lemma NewestSeat(t: Tree, m: nat)
    requires SeatsOK(t) && m < |t.groups| && t.groups[m] != []
    ensures Newest(t.groups[m]) in t.seat && t.seat[Newest(t.groups[m])].0 == m
  {
    assert t.groups[m][|t.groups[m]| - 1] in t.seat;
  }

  lemma SameSeats(t: Tree, t': Tree)
    requires SeatsOK(t) && t'.groups == t.groups && t'.seat == t.seat
    ensures SeatsOK(t')
  {
  }

  lemma SameStack(stack: seq<nat>, t: Tree, t': Tree)
    requires Shape(t) && Shape(t') && StackOK(stack, t) && t'.groups == t.groups && t'.path == t.path
        && t'.armed == t.armed
    ensures StackOK(stack, t')
  {
  }

  // Popping the newest node of the last depth off the stack.
  lemma DisarmKeeps(nodes: seq<DawgNode>, bin: seq<nat>, stack: seq<nat>, t: Tree)
    requires TreeOK(nodes, bin, stack, t) && t.armed
    ensures TreeOK(nodes, bin, stack[..|stack| - 1], t.(armed := false))
  {
    hide ChainOK, BinOK;
    var t' := t.(armed := false);
    forall j | 0 <= j <= |t'.path| ensures DepthOK(nodes, t', j) {
      assert DepthOK(nodes, t, j);
      assert ChainItems(t', j) == ChainItems(t, j);
    }
    BinFrame(nodes, nodes, bin, t, t');
    SameSeats(t, t');
  }
}
