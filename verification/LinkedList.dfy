/** The intrusive circular list (`linked_list_t`): a sentinel and the linked
    nodes, each pointing to both neighbours. */
module LinkedList {

  class Link {
    var next: Link?
    var prev: Link?

    constructor ()
    {
      next, prev := null, null;
    }
  }

  // Two neighbours point to each other.
  ghost predicate Joined(a: Link, b: Link)
    reads a, b
  {
    a.next == b && b.prev == a
  }

  class List {
    const head: Link
    // the linked nodes from head.next on to head.prev
    ghost var nodes: seq<Link>

    // The nodes and the sentinel, once around the ring, beginning and ending at the sentinel.
    ghost function Around(): seq<Link>
      reads this
    {
      [head] + nodes + [head]
    }

    ghost predicate Valid()
      reads this, head, nodes
    {
      && head !in nodes
      && (forall i, j :: 0 <= i < j < |nodes| ==> nodes[i] != nodes[j])
      && (forall i :: 0 <= i <= |nodes| ==> Joined(Around()[i], Around()[i + 1]))
    }

    constructor ()
      ensures Valid() && fresh(head) && nodes == []
    {
      head := new Link();
      nodes := [];
      new;
      head.next := head;
      head.prev := head;
    }

    method IsEmpty() returns (b: bool)
      requires Valid()
      ensures b <==> nodes == []
    {
      assert Joined(Around()[0], Around()[1]);
      b := head.next == head;
    }

    /** The neighbours of the sentinel: the node added last and the one added first. */
    lemma Ends()
      requires Valid()
      ensures nodes != [] ==> head.next == nodes[0] && head.prev == nodes[|nodes| - 1]
    {
      assert Joined(Around()[0], Around()[1]);
      assert Joined(Around()[|nodes|], Around()[|nodes| + 1]);
    }

    /** entry(): the node itself, or null for the sentinel. */
    method Entry(node: Link) returns (r: Link?)
      ensures r == if node == head then null else node
    {
      if node == head { r := null; } else { r := node; }
    }

    /** Links a node right after the sentinel. */
    method Add(node: Link)
      requires Valid() && node != head && node !in nodes
      modifies this, head, nodes, node
      ensures Valid() && nodes == [node] + old(nodes)
    {
      ghost var ring := Around();
      assert Joined(ring[0], ring[1]);
      head.next.prev := node;
      node.next := head.next;
      node.prev := head;
      head.next := node;
      nodes := [node] + nodes;
      forall i | 0 <= i <= |nodes| ensures Joined(Around()[i], Around()[i + 1]) {
        if i >= 2 {
          assert Around()[i] == ring[i - 1] && Around()[i + 1] == ring[i];
          assert old(Joined(ring[i - 1], ring[i]));
        }
      }
    }

    /** Unlinks a node by joining its neighbours. */
    method Del(node: Link, ghost k: nat)
      requires Valid() && k < |nodes| && nodes[k] == node
      modifies this, head, nodes
      ensures Valid() && nodes == old(nodes)[..k] + old(nodes)[k + 1..]
    {
      ghost var ring := Around();
      assert Joined(ring[k], ring[k + 1]) && Joined(ring[k + 1], ring[k + 2]);
      node.next.prev := node.prev;
      node.prev.next := node.next;
      nodes := nodes[..k] + nodes[k + 1..];
      forall i | 0 <= i <= |nodes| ensures Joined(Around()[i], Around()[i + 1]) {
        if i < k {
          assert Around()[i] == ring[i] && Around()[i + 1] == ring[i + 1];
          assert old(Joined(ring[i], ring[i + 1]));
        } else if i > k {
          assert Around()[i] == ring[i + 1] && Around()[i + 1] == ring[i + 2];
          assert old(Joined(ring[i + 1], ring[i + 2]));
        } else {
          assert Around()[i] == ring[k] && Around()[i + 1] == ring[k + 2];
        }
      }
    }
  }
}
