/** The circular list of unfixed ids that the builder keeps in a window of
    4096 extra units, addressed modulo 4096 (`DoubleArrayBuilderExtraUnit`). */
module FreeList {

  datatype Extra = Extra(prev: nat, next: nat, fixed: bool, used: bool)

  type Extras = e: seq<Extra> | |e| == 4096 witness seq(4096, _ => Extra(0, 0, false, false))

  function Ex(ext: Extras, id: nat): Extra {
    ext[id % 4096]
  }

  function Put(ext: Extras, id: nat, e: Extra): Extras {
    ext[id % 4096 := e]
  }

  function Succ(k: nat, n: nat): nat {
    if k + 1 < n then k + 1 else 0
  }

  function Pred(k: nat, n: nat): nat
    requires k < n
  {
    if k == 0 then n - 1 else k - 1
  }

  // The links of the k-th free id lead to its neighbours on the ring.
  ghost predicate Linked(ext: Extras, free: seq<nat>, k: nat)
    requires k < |free|
  {
    && Ex(ext, free[k]).next == free[Succ(k, |free|)]
    && Ex(ext, free[k]).prev == free[Pred(k, |free|)]
  }

  ghost predicate Ring(ext: Extras, free: seq<nat>) {
    forall k :: 0 <= k < |free| ==> Linked(ext, free, k)
  }

  ghost predicate Ascending(free: seq<nat>) {
    forall i, j :: 0 <= i < j < |free| ==> free[i] < free[j]
  }

  ghost predicate Within(free: seq<nat>, low: nat, n: nat) {
    forall k :: 0 <= k < |free| ==> low <= free[k] < n
  }

  ghost predicate FlagsOK(ext: Extras, low: nat, n: nat, free: seq<nat>) {
    forall id: nat :: low <= id < n ==> (Ex(ext, id).fixed <==> id !in free)
  }

  /** The free-list invariant: `free` is the increasing list of all unfixed ids
      of the window [low, n); following `next` from `head` visits exactly it and
      returns; the head is n when nothing is free. */
  ghost predicate ListOK(ext: Extras, n: nat, low: nat, head: nat, free: seq<nat>) {
    && low <= n <= low + 4096
    && Within(free, low, n)
    && Ascending(free)
    && FlagsOK(ext, low, n, free)
    && Ring(ext, free)
    && head == (if free == [] then n else free[0])
  }

  // ---- removal ----

  function Remove<T>(s: seq<T>, k: nat): seq<T>
    requires k < |s|
  {
    s[..k] + s[k + 1..]
  }

  function SetNext(ext: Extras, id: nat, next: nat): Extras {
    Put(ext, id, Ex(ext, id).(next := next))
  }

  function SetPrev(ext: Extras, id: nat, prev: nat): Extras {
    Put(ext, id, Ex(ext, id).(prev := prev))
  }

  function SetFixed(ext: Extras, id: nat, fixed: bool): Extras {
    Put(ext, id, Ex(ext, id).(fixed := fixed))
  }

  function SetUsed(ext: Extras, id: nat, used: bool): Extras {
    Put(ext, id, Ex(ext, id).(used := used))
  }

  // The three writes of reserve_id.
  function Unlink(ext: Extras, id: nat): Extras {
    var e1 := SetNext(ext, Ex(ext, id).prev, Ex(ext, id).next);
    var e2 := SetPrev(e1, Ex(e1, id).next, Ex(e1, id).prev);
    SetFixed(e2, id, true)
  }

  function HeadAfter(ext: Extras, head: nat, id: nat, n: nat): nat {
    if id == head then (if Ex(ext, id).next == id then n else Ex(ext, id).next) else head
  }

  // Distinct ids of the window have distinct slots.
  lemma Slots(a: nat, b: nat)
    requires a <= b < a + 4096
    ensures a % 4096 == b % 4096 <==> a == b
  {
  }

  lemma SlotsIn(low: nat, n: nat, a: nat, b: nat)
    requires low <= a < n && low <= b < n && n <= low + 4096
    ensures a % 4096 == b % 4096 <==> a == b
  {
    if a <= b { Slots(a, b); } else { Slots(b, a); }
  }

  // What the three writes leave at any id of the window.
  lemma UnlinkAt(ext: Extras, low: nat, n: nat, p: nat, id: nat, q: nat, x: nat)
    requires n <= low + 4096
    requires low <= p < n && low <= id < n && low <= q < n && low <= x < low + 4096
    requires Ex(ext, id).prev == p && Ex(ext, id).next == q
    ensures var e, e' := Ex(ext, x), Ex(Unlink(ext, id), x);
            && (x != id ==> e'.next == (if x == p then q else e.next))
            && (x != id ==> e'.prev == (if x == q then p else e.prev))
            && e'.fixed == (e.fixed || x == id)
            && e'.used == e.used
  {
    SlotsIn(low, low + 4096, p, id);
    SlotsIn(low, low + 4096, q, id);
    SlotsIn(low, low + 4096, p, q);
    SlotsIn(low, low + 4096, x, p);
    SlotsIn(low, low + 4096, x, q);
    SlotsIn(low, low + 4096, x, id);
  }

  lemma RemoveMembers(free: seq<nat>, k: nat, x: nat)
    requires Ascending(free) && k < |free|
    ensures x in Remove(free, k) <==> x in free && x != free[k]
  {
    var r := Remove(free, k);
    if x in free && x != free[k] {
      var i :| 0 <= i < |free| && free[i] == x;
      if i < k { assert r[i] == x; } else { assert r[i - 1] == x; }
    }
    if x in r {
      var j :| 0 <= j < |r| && r[j] == x;
      assert x == free[if j < k then j else j + 1];
    }
  }

  // The neighbours of what stays on the ring.
  lemma RemoveNeighbours(free: seq<nat>, k: nat, j: nat)
    requires k < |free| && j < |Remove(free, k)|
    ensures var r, i, n := Remove(free, k), if j < k then j else j + 1, |free|;
            && r[j] == free[i]
            && r[Succ(j, n - 1)] == (if Succ(i, n) == k then free[Succ(k, n)] else free[Succ(i, n)])
            && r[Pred(j, n - 1)] == (if Pred(i, n) == k then free[Pred(k, n)] else free[Pred(i, n)])
  {
  }

  lemma Distinct(free: seq<nat>, i: nat, j: nat)
    requires Ascending(free) && i < |free| && j < |free|
    ensures free[i] == free[j] <==> i == j
  {
  }

  lemma UnlinkLinked(ext: Extras, n: nat, low: nat, free: seq<nat>, k: nat, j: nat)
    requires n <= low + 4096 && Within(free, low, n) && Ascending(free) && Ring(ext, free)
    requires k < |free| && j < |Remove(free, k)|
    ensures Linked(Unlink(ext, free[k]), Remove(free, k), j)
  {
    hide Unlink, Ex, Remove, Ascending;
    var id, m := free[k], |free|;
    assert Linked(ext, free, k);
    var p, q := Pred(k, m), Succ(k, m);
    assert |Remove(free, k)| == m - 1 by { RemoveLength(free, k); }
    var i := if j < k then j else j + 1;
    assert Linked(ext, free, i);
    RemoveNeighbours(free, k, j);
    UnlinkAt(ext, low, n, free[p], id, free[q], free[i]);
    Distinct(free, i, k);
    Distinct(free, i, p);
    Distinct(free, i, q);
  }

  lemma RemoveLength<T>(s: seq<T>, k: nat)
    requires k < |s|
    ensures |Remove(s, k)| == |s| - 1
  {
  }

  /** Reserving a free id unlinks exactly it and keeps the whole invariant. */
  lemma UnlinkKeeps(ext: Extras, n: nat, low: nat, head: nat, free: seq<nat>, k: nat)
    requires ListOK(ext, n, low, head, free) && k < |free|
    ensures ListOK(Unlink(ext, free[k]), n, low, HeadAfter(ext, head, free[k], n), Remove(free, k))
    ensures forall id: nat :: low <= id < n ==> Ex(Unlink(ext, free[k]), id).used == Ex(ext, id).used
  {
    hide Unlink, Ex;
    var id, m := free[k], |free|;
    var e', r := Unlink(ext, id), Remove(free, k);
    assert Linked(ext, free, k);
    var p, q := free[Pred(k, m)], free[Succ(k, m)];
    forall x: nat | low <= x < n
      ensures Ex(e', x).used == Ex(ext, x).used
      ensures Ex(e', x).fixed <==> x !in r
    {
      UnlinkAt(ext, low, n, p, id, q, x);
      RemoveMembers(free, k, x);
    }
    forall j | 0 <= j < |r|
      ensures Linked(e', r, j)
    {
      UnlinkLinked(ext, n, low, free, k, j);
    }
    Distinct(free, 0, k);
  }

  // ---- growth by one block ----

  // The links inside a fresh block, as the loop of expand_units leaves them.
  ghost predicate Chained(ext: Extras, n: nat, end: nat) {
    && (forall x: nat :: n <= x < end - 1 ==> Ex(ext, x).next == x + 1)
    && (forall x: nat :: n < x < end ==> Ex(ext, x).prev == x - 1)
  }

  ghost predicate Clear(ext: Extras, n: nat, end: nat) {
    forall x: nat :: n <= x < end ==> !Ex(ext, x).fixed && !Ex(ext, x).used
  }

  // The six writes that close the new block into a ring and merge the two rings.
  function Splice(ext: Extras, n: nat, head: nat): Extras {
    var e1 := SetPrev(ext, n, n + 255);
    var e2 := SetNext(e1, n + 255, n);
    var e3 := SetPrev(e2, n, Ex(e2, head).prev);
    var e4 := SetNext(e3, n + 255, head);
    var e5 := SetNext(e4, Ex(e4, head).prev, n);
    SetPrev(e5, head, n + 255)
  }

  // Merging when the old ring is empty: the head is the first new id.
  lemma SpliceEmptyAt(ext: Extras, low: nat, n: nat, x: nat)
    requires low <= n && n + 256 <= low + 4096 && low <= x < low + 4096
    ensures var e, e' := Ex(ext, x), Ex(Splice(ext, n, n), x);
            e' == e.(next := if x == n + 255 then n else e.next,
                     prev := if x == n then n + 255 else e.prev)
  {
    SlotsIn(low, low + 4096, n, n + 255);
    SlotsIn(low, low + 4096, n, x);
    SlotsIn(low, low + 4096, n + 255, x);
  }

  lemma SpliceAt(ext: Extras, low: nat, n: nat, head: nat, last: nat, x: nat)
    requires low <= head < n && low <= last < n && n + 256 <= low + 4096 && low <= x < low + 4096
    requires Ex(ext, head).prev == last
    ensures var e, e' := Ex(ext, x), Ex(Splice(ext, n, head), x);
            e' == e.(next := if x == n + 255 then head else if x == last then n else e.next,
                     prev := if x == n then last else if x == head then n + 255 else e.prev)
  {
    SlotsIn(low, low + 4096, n, n + 255);
    SlotsIn(low, low + 4096, n, x);
    SlotsIn(low, low + 4096, n + 255, x);
    SlotsIn(low, low + 4096, head, x);
    SlotsIn(low, low + 4096, last, x);
    SlotsIn(low, low + 4096, head, n);
    SlotsIn(low, low + 4096, head, n + 255);
    SlotsIn(low, low + 4096, last, n);
    SlotsIn(low, low + 4096, last, n + 255);
    SlotsIn(low, low + 4096, last, head);
  }

  function Fresh(n: nat): (r: seq<nat>)
    ensures |r| == 256 && forall i :: 0 <= i < 256 ==> r[i] == n + i
  {
    seq(256, i requires 0 <= i < 256 => n + i)
  }

  lemma SplicedLinked(ext: Extras, n: nat, low: nat, head: nat, free: seq<nat>, k: nat)
    requires low <= n && n + 256 <= low + 4096 && Within(free, low, n) && Ascending(free)
    requires Ring(ext, free) && Chained(ext, n, n + 256)
    requires head == (if free == [] then n else free[0])
    requires k < |free| + 256
    ensures Linked(Splice(ext, n, head), free + Fresh(n), k)
  {
    hide Splice, Ex, Ascending;
    var r, m := free + Fresh(n), |free|;
    var x := r[k];
    assert r[m] == n && r[m + 255] == n + 255;
    if free == [] {
      SpliceEmptyAt(ext, low, n, x);
    } else {
      assert Linked(ext, free, 0);
      SpliceAt(ext, low, n, head, free[m - 1], x);
      if k < m {
        assert Linked(ext, free, k);
        Distinct(free, k, 0);
        Distinct(free, k, m - 1);
      }
    }
  }

  /** Adding a block appends its 256 ids to the free list. */
  lemma SpliceKeeps(ext: Extras, n: nat, low: nat, head: nat, free: seq<nat>)
    requires ListOK(ext, n, low, head, free) && n + 256 <= low + 4096
    requires Chained(ext, n, n + 256) && Clear(ext, n, n + 256)
    ensures ListOK(Splice(ext, n, head), n + 256, low, head, free + Fresh(n))
    ensures forall x: nat :: low <= x < n + 256 ==> Ex(Splice(ext, n, head), x).used == Ex(ext, x).used
  {
    hide Splice, Ex, Linked;
    var e', r := Splice(ext, n, head), free + Fresh(n);
    forall x: nat | low <= x < n + 256
      ensures Ex(e', x).used == Ex(ext, x).used
      ensures Ex(e', x).fixed <==> x !in r
    {
      if free == [] {
        SpliceEmptyAt(ext, low, n, x);
      } else {
        RingEnds(ext, free);
        SpliceAt(ext, low, n, head, free[|free| - 1], x);
      }
      if x >= n { assert r[|free| + (x - n)] == x; }
      assert x in r <==> x in free || x >= n;
    }
    forall k | 0 <= k < |r| ensures Linked(e', r, k) {
      SplicedLinked(ext, n, low, head, free, k);
    }
  }

  lemma RingEnds(ext: Extras, free: seq<nat>)
    requires Ring(ext, free) && free != []
    ensures Ex(ext, free[0]).prev == free[|free| - 1]
  {
    assert Linked(ext, free, 0);
  }

  // ---- the loops of expand_units ----

  ghost predicate SameBelow(ext: Extras, ext': Extras, low: nat, n: nat) {
    forall x: nat :: low <= x < n ==> Ex(ext', x) == Ex(ext, x)
  }

  ghost predicate SameFlags(ext: Extras, ext': Extras, low: nat) {
    forall x: nat :: low <= x < low + 4096 ==>
        Ex(ext', x).fixed == Ex(ext, x).fixed && Ex(ext', x).used == Ex(ext, x).used
  }

  lemma PutAt(ext: Extras, low: nat, id: nat, e: Extra, x: nat)
    requires low <= id < low + 4096 && low <= x < low + 4096
    ensures Ex(Put(ext, id, e), x) == if x == id then e else Ex(ext, x)
  {
    SlotsIn(low, low + 4096, id, x);
  }

  lemma ClearStep(ext: Extras, low: nat, n: nat, id: nat)
    requires low <= n <= id && id < low + 4096 && Clear(ext, n, id)
    ensures var ext' := SetFixed(SetUsed(ext, id, false), id, false);
            SameBelow(ext, ext', low, n) && Clear(ext', n, id + 1)
  {
    hide Ex, Put;
    var e1 := SetUsed(ext, id, false);
    var e2 := SetFixed(e1, id, false);
    forall x: nat | low <= x < low + 4096
      ensures Ex(e2, x) == if x == id then Ex(ext, id).(used := false, fixed := false) else Ex(ext, x)
    {
      PutAt(ext, low, id, Ex(ext, id).(used := false), x);
      PutAt(ext, low, id, Ex(ext, id).(used := false), id);
      PutAt(e1, low, id, Ex(e1, id).(fixed := false), x);
    }
  }

  lemma ChainStep(ext: Extras, low: nat, n: nat, i: nat)
    requires low <= n < i && i < low + 4096 && Chained(ext, n, i)
    ensures var ext' := SetPrev(SetNext(ext, i - 1, i), i, i - 1);
            SameBelow(ext, ext', low, n) && SameFlags(ext, ext', low) && Chained(ext', n, i + 1)
  {
    hide Ex, Put;
    var e1 := SetNext(ext, i - 1, i);
    var e2 := SetPrev(e1, i, i - 1);
    forall x: nat | low <= x < low + 4096
      ensures Ex(e2, x) == if x == i - 1 then Ex(ext, x).(next := i)
                           else if x == i then Ex(ext, x).(prev := i - 1) else Ex(ext, x)
    {
      PutAt(ext, low, i - 1, Ex(ext, i - 1).(next := i), x);
      PutAt(ext, low, i - 1, Ex(ext, i - 1).(next := i), i);
      PutAt(e1, low, i, Ex(e1, i).(prev := i - 1), x);
    }
  }

  lemma SameBelowKeeps(ext: Extras, ext': Extras, n: nat, low: nat, head: nat, free: seq<nat>)
    requires ListOK(ext, n, low, head, free) && SameBelow(ext, ext', low, n)
    ensures ListOK(ext', n, low, head, free)
  {
    hide Ex;
    forall k | 0 <= k < |free| ensures Linked(ext', free, k) {
      assert Linked(ext, free, k);
    }
  }

  // The lowest id leaves the window.
  lemma RaiseLow(ext: Extras, n: nat, low: nat, head: nat, free: seq<nat>)
    requires ListOK(ext, n, low, head, free) && low < n && low !in free
    ensures ListOK(ext, n, low + 1, head, free)
  {
    hide Ex, Linked;
  }
}
