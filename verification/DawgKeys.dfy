/** How `DawgBuilder::insert` reads a key: a buffer and a length, compared byte by byte with the
    last key on the stack. */
module DawgKeys {
  import opened Bits
  import opened Languages
  import opened Keyset

  // How a key compares with the last one at the first depth where they differ; Null stands for a
  // zero byte inside the key, First for an empty graph.
  datatype Order = First | Null | Less | More | Same

  /** The comparison of the first loop from a depth on. It reads one byte behind the key. */
  function Walk(buffer: seq<Byte>, length: nat, path: Key, depth: nat): (Order, nat)
    requires length < |buffer| && 0 !in path && (depth <= length ==> depth <= |path|)
    decreases length + 1 - depth
  {
    if depth > length then (Same, depth)
    else
      var c, u := buffer[depth], CharAt(path, depth);
      if depth < length && c == 0 then (Null, depth)
      else if c < u then (Less, depth)
      else if c > u then (More, depth)
      else Walk(buffer, length, path, depth + 1)
  }

  /** A zero byte of the key on the part it shares with the last key. */
  ghost predicate ZeroShared(path: Key, key: Key) {
    exists z :: 0 <= z < |key| && z <= |path| && key[z] == 0 && key[..z] == path[..z]
  }

  // The walk stopped at depth d: above, the key agrees with the path.
  ghost predicate Agrees(buffer: seq<Byte>, length: nat, path: Key, d: nat) {
    d <= length < |buffer| && d <= |path| && buffer[..d] == path[..d]
  }

  lemma {:induction false} WalkStops(buffer: seq<Byte>, length: nat, path: Key, depth: nat)
    requires 0 !in path && length < |buffer| && (depth <= length ==> Agrees(buffer, length, path, depth))
    ensures var (order, d) := Walk(buffer, length, path, depth);
      && !order.First?
      && (!order.Same? ==> Agrees(buffer, length, path, d))
      && (order.Null? ==> d < length && buffer[d] == 0)
      && (order.Less? || order.More? ==> d == length || buffer[d] != 0)
      && (order.Less? ==> buffer[d] < CharAt(path, d))
      && (order.More? ==> buffer[d] > CharAt(path, d))
      && (order.Same? && depth <= length ==>
            length <= |path| && buffer[..length] == path[..length] && buffer[length] == CharAt(path, length))
    decreases length + 1 - depth
  {
    if depth <= length {
      var c, u := buffer[depth], CharAt(path, depth);
      if c == u && (depth == length || c != 0) {
        if depth < length {
          assert buffer[..depth + 1] == buffer[..depth] + [c] && path[..depth + 1] == path[..depth] + [u];
        }
        WalkStops(buffer, length, path, depth + 1);
      }
    }
  }

  // The zero byte at which the walk stops is the shared one.
  lemma NullIff(buffer: seq<Byte>, length: nat, path: Key)
    requires 0 !in path && length < |buffer|
    ensures Walk(buffer, length, path, 0).0.Null? <==> ZeroShared(path, buffer[..length])
  {
    var key := buffer[..length];
    assert buffer[..0] == path[..0];
    WalkStops(buffer, length, path, 0);
    var (order, d) := Walk(buffer, length, path, 0);
    if order.Null? {
      assert key[d] == 0 && key[..d] == buffer[..d] == path[..d];
    }
    if ZeroShared(path, key) {
      var z :| 0 <= z < |key| && z <= |path| && key[z] == 0 && key[..z] == path[..z];
      assert key[..z] == buffer[..z];
      WalkMeets(buffer, length, path, 0, z);
    }
  }

  lemma {:induction false} WalkMeets(buffer: seq<Byte>, length: nat, path: Key, depth: nat, z: nat)
    requires 0 !in path && depth <= z < length < |buffer| && z <= |path|
    requires buffer[z] == 0 && buffer[..z] == path[..z]
    ensures Walk(buffer, length, path, depth) == (Null, z)
    decreases z - depth
  {
    if depth < z {
      assert buffer[depth] == buffer[..z][depth] == path[..z][depth] == path[depth];
      WalkMeets(buffer, length, path, depth + 1, z);
    }
  }

  /** The walk tells how the key compares with the last one. */
  ghost predicate Right(buffer: seq<Byte>, length: nat, path: Key)
    requires length < |buffer| && 0 !in path
  {
    var key, order := buffer[..length], Walk(buffer, length, path, 0).0;
    && (order.Same? <==> key == path)
    && (order.Less? <==> !LexLeq(path, key))
    && (order.More? <==> LexLeq(path, key) && key != path)
  }

  /** For a key without zero bytes the walk is right exactly when the byte behind the key is zero,
      or is not reached, or happens to be smaller than the byte it is compared with. */
  lemma WalkRightIff(buffer: seq<Byte>, length: nat, path: Key)
    requires length < |buffer| && 0 !in path && 0 !in buffer[..length]
    ensures var key := buffer[..length];
      Right(buffer, length, path) <==>
      buffer[length] == 0 || !(key <= path) || (length < |path| && buffer[length] < path[length])
  {
    hide LexLeq;
    var key := buffer[..length];
    assert buffer[..0] == path[..0];
    WalkStops(buffer, length, path, 0);
    var (order, d) := Walk(buffer, length, path, 0);
    LexSelf(key);
    assert d < length ==> key[d] == buffer[d];
    if order.Less? || order.More? {
      assert key[..d] == buffer[..d];
      Compared(key, path, d, buffer[d], buffer[length]);
    } else if order.Same? {
      ProperPrefix(key, path);
    }
  }

  // What the byte c at depth d says of the key.
  lemma Compared(key: Key, path: Key, d: nat, c: Byte, behind: Byte)
    requires 0 !in key && 0 !in path && d <= |key| && d <= |path| && key[..d] == path[..d] && c != CharAt(path, d)
    requires c == if d < |key| then key[d] else behind
    ensures d < |key| ==> !(key <= path) && key != path && (LexLeq(path, key) <==> c > CharAt(path, d))
    ensures d == |key| ==> key <= path && (LexLeq(path, key) <==> key == path)
  {
    hide LexLeq;
    if d < |key| {
      assert d < |path| ==> key[d] != path[d];
      if c > CharAt(path, d) { LexMore(key, path, d); } else { LexLess(key, path, d); }
    } else {
      assert key[..d] == key;
      ProperPrefix(key, path);
    }
  }

  lemma ProperPrefix(key: Key, path: Key)
    requires 0 !in path
    ensures key <= path ==> (LexLeq(path, key) <==> key == path)
  {
    hide LexLeq;
    LexSelf(key);
    if key < path {
      LexLess(key, path, |key|);
    }
  }

  /** "a" inserted again from the buffer "ab": the key is there, yet the walk finds it greater. */
  lemma FalseMore()
    ensures Walk([97, 98], 1, [97], 0) == (More, 1) && !Right([97, 98], 1, [97])
  {
    assert Walk([97, 98], 1, [97], 1) == (More, 1);
  }

  /** "a" after "ab" from the buffer "ab": the walk takes it for the same key. */
  lemma FalseSame()
    ensures Walk([97, 98], 1, [97, 98], 0).0 == Same && !Right([97, 98], 1, [97, 98])
  {
    var b: seq<Byte>, p: Key := [97, 98], [97, 98];
    assert Walk(b, 1, p, 1) == Walk(b, 1, p, 2) == (Same, 2);
    assert b[..1] == [97];
  }

  // ---- what is accepted ----

  /** The outcome of insert on a terminated key, after the key `path` or (unarmed) on an empty graph. */
  ghost predicate Accepts(path: Key, armed: bool, key: Key, value: int) {
    && value >= 0 && key != []
    && !(armed && ZeroShared(path, key))
    && LexLeq(path, key)
  }

  /** A zero byte is noticed only on the shared part: an empty graph takes any. */
  lemma ZeroUnnoticed()
    ensures Accepts([], false, [97, 0, 98], 1)
    ensures Accepts([97], true, [98, 0], 1)
    ensures !Accepts([97], true, [97, 0, 98], 1)
  {
    var path: Key, key: Key, noticed: Key := [97], [98, 0], [97, 0, 98];
    assert key[..1][0] == 98 && path[..1][0] == 97;
    assert !ZeroShared(path, key);
    assert noticed[1] == 0 && noticed[..1] == path[..1];
  }

  // ---- lists of keys in buffers ----

  /** Every key has a zero byte behind it. */
  ghost predicate Backed(buffers: seq<seq<Byte>>, lengths: seq<nat>) {
    && |lengths| == |buffers|
    && forall i :: 0 <= i < |buffers| ==> lengths[i] < |buffers[i]| && buffers[i][lengths[i]] == 0
  }

  function KeysOf(buffers: seq<seq<Byte>>, lengths: seq<nat>): (keys: seq<Key>)
    requires |lengths| == |buffers| && forall i :: 0 <= i < |buffers| ==> lengths[i] <= |buffers[i]|
    ensures |keys| == |buffers| && forall i :: 0 <= i < |keys| ==> keys[i] == buffers[i][..lengths[i]]
  {
    seq(|buffers|, i requires 0 <= i < |buffers| => buffers[i][..lengths[i]])
  }

  /** Zero bytes are where insert notices them: on the part shared with the key before. */
  ghost predicate Watched(keys: seq<Key>) {
    forall i :: 0 <= i < |keys| && 0 in keys[i] ==> i > 0 && ZeroShared(keys[i - 1], keys[i])
  }

  // ---- byte order, label by label ----

  lemma {:induction false} LexSelf(key: Key)
    ensures LexLeq(key, key)
    decreases |key|
  {
    if key != [] { LexSelf(key[1..]); }
  }

  lemma LexFirst(key: Key)
    ensures LexLeq([], key)
  {
  }

  lemma {:induction false} LexLess(key: Key, path: Key, p: nat)
    requires p <= |key| && p <= |path| && key[..p] == path[..p]
    requires CharAt(key, p) < CharAt(path, p)
    ensures !LexLeq(path, key)
    decreases p
  {
    if p > 0 {
      assert key[0] == key[..p][0] && path[0] == path[..p][0];
      assert key[1..][..p - 1] == key[..p][1..] && path[1..][..p - 1] == path[..p][1..];
      LexLess(key[1..], path[1..], p - 1);
    }
  }

  lemma {:induction false} LexMore(key: Key, path: Key, p: nat)
    requires p <= |key| && p <= |path| && key[..p] == path[..p]
    requires CharAt(key, p) > CharAt(path, p)
    ensures LexLeq(path, key)
    decreases p
  {
    if p > 0 {
      assert key[0] == key[..p][0] && path[0] == path[..p][0];
      assert key[1..][..p - 1] == key[..p][1..] && path[1..][..p - 1] == path[..p][1..];
      LexMore(key[1..], path[1..], p - 1);
    }
  }
}
