/** The JSON value tree (src/jsoncpp/json_value.cpp) as the reader and the writers see it.
    A `char` of a string stands for one byte. */
module JsonValue {

  const MinLargestInt: int := -0x8000_0000_0000_0000
  const MaxLargestInt: int := 0x7FFF_FFFF_FFFF_FFFF
  const MaxLargestUInt: int := 0xFFFF_FFFF_FFFF_FFFF
  const MaxInt: int := 0x7FFF_FFFF

  datatype Member = Member(name: string, value: Value)

  /** `NullString` is a string value whose pointer is NULL; a real is carried as the
      text the C library prints for it. */
  datatype Value =
    | Null
    | Int(i: int)
    | UInt(u: int)
    | Real(shown: string)
    | String(s: string)
    | NullString
    | Bool(b: bool)
    | Array(items: seq<Value>)
    | Object(members: seq<Member>)

  // ---------------------------------------------------------------- C strings

  predicate NulFree(s: string) {
    forall k :: 0 <= k < |s| ==> s[k] != '\0'
  }

  /** What is visible through a `const char *`: everything before the first NUL. */
  function CString(s: string): (r: string)
    ensures NulFree(r) && r <= s
    ensures r == s <==> NulFree(s)
  {
    if s == [] || s[0] == '\0' then [] else [s[0]] + CString(s[1..])
  }

  // ---------------------------------------------------- the order of the members

  /** strcmp(a, b) < 0 */
  predicate Less(a: string, b: string) {
    b != [] && (a == [] || a[0] < b[0] || (a[0] == b[0] && Less(a[1..], b[1..])))
  }

  /** The first difference decides: the byte there is smaller, or the string ends there. */
  lemma {:induction false} LessIff(a: string, b: string)
    ensures Less(a, b) <==>
      exists k :: 0 <= k <= |a| && k < |b| && a[..k] == b[..k] && (k == |a| || a[k] < b[k])
    decreases a
  {
    if a != [] && b != [] && a[0] == b[0] {
      LessIff(a[1..], b[1..]);
      if Less(a, b) {
        var k :| 0 <= k <= |a[1..]| && k < |b[1..]| && a[1..][..k] == b[1..][..k]
          && (k == |a[1..]| || a[1..][k] < b[1..][k]);
        assert a[..k + 1] == [a[0]] + a[1..][..k] && b[..k + 1] == [b[0]] + b[1..][..k];
      } else {
        forall k | 0 <= k <= |a| && k < |b| && a[..k] == b[..k] ensures k < |a| && a[k] >= b[k] {
          if k > 0 {
            assert a[1..][..k - 1] == a[..k][1..] && b[1..][..k - 1] == b[..k][1..];
          }
        }
      }
    } else if b != [] {
      assert a[..0] == b[..0];
      forall k | 0 < k <= |a| && k < |b| ensures a[..k] != b[..k] {
        assert a[..k][0] == a[0] && b[..k][0] == b[0];
      }
    }
  }

  lemma {:induction false} LessIrreflexive(a: string)
    ensures !Less(a, a)
  {
    if a != [] {
      LessIrreflexive(a[1..]);
    }
  }

  lemma {:induction false} LessTransitive(a: string, b: string, c: string)
    requires Less(a, b) && Less(b, c)
    ensures Less(a, c)
  {
    if a != [] && a[0] == b[0] && b[0] == c[0] {
      LessTransitive(a[1..], b[1..], c[1..]);
    }
  }

  lemma {:induction false} LessTotal(a: string, b: string)
    ensures a == b || Less(a, b) || Less(b, a)
  {
    if a != [] && b != [] && a[0] == b[0] {
      LessTotal(a[1..], b[1..]);
      assert a[1..] == b[1..] ==> a == [a[0]] + a[1..] == [b[0]] + b[1..] == b;
    }
  }

  predicate Ascending(members: seq<Member>) {
    forall k, l :: 0 <= k < l < |members| ==> Less(members[k].name, members[l].name)
  }

  // -------------------------------------------------------------- sorted maps

  /** The value under a name, `Null` where there is none. */
  function Find(members: seq<Member>, name: string): Value {
    if members == [] then Null
    else if members[0].name == name then members[0].value
    else Find(members[1..], name)
  }

  /** Replace the value under a name, or insert it at its place. */
  function Put(members: seq<Member>, name: string, value: Value): seq<Member> {
    if members == [] || Less(name, members[0].name) then [Member(name, value)] + members
    else if members[0].name == name then [Member(name, value)] + members[1..]
    else [members[0]] + Put(members[1..], name, value)
  }

  /** After `Put`, the members are still sorted, and only the one under `name` changed. */
  lemma {:induction false} PutKeeps(members: seq<Member>, name: string, value: Value)
    requires Ascending(members)
    ensures var after := Put(members, name, value);
      && Ascending(after)
      && (forall m :: m in after <==> m == Member(name, value) || (m in members && m.name != name))
  {
    var after := Put(members, name, value);
    if members == [] {
    } else if Less(name, members[0].name) {
      forall l | 0 <= l < |members|
        ensures Less(name, members[l].name)
      {
        if l > 0 {
          LessTransitive(name, members[0].name, members[l].name);
        }
      }
      NotAmong(members, name);
    } else {
      var rest := members[1..];
      assert members == [members[0]] + rest;
      forall l | 0 <= l < |rest|
        ensures Less(members[0].name, rest[l].name)
      {
        assert rest[l] == members[l + 1];
      }
      NotAmong(rest, members[0].name);
      if members[0].name != name {
        PutKeeps(rest, name, value);
        LessTotal(name, members[0].name);
        var tail := Put(rest, name, value);
        forall l | 0 <= l < |tail|
          ensures Less(members[0].name, tail[l].name)
        {
          assert tail[l] in tail;
        }
      }
    }
  }

  lemma NotAmong(members: seq<Member>, name: string)
    requires forall l :: 0 <= l < |members| ==> Less(name, members[l].name)
    ensures forall m :: m in members ==> m.name != name
  {
    LessIrreflexive(name);
  }

  /** A name beyond every other one goes to the end. */
  lemma {:induction false} PutLast(members: seq<Member>, name: string, value: Value)
    requires forall k :: 0 <= k < |members| ==> Less(members[k].name, name)
    ensures Put(members, name, value) == members + [Member(name, value)]
    ensures Find(members, name) == Null
  {
    if members != [] {
      assert Less(members[0].name, name);
      LessIrreflexive(name);
      if Less(name, members[0].name) {
        LessTransitive(name, members[0].name, name);
        assert false;
      }
      PutLast(members[1..], name, value);
    }
  }

  // -------------------------------------------------------------- whole trees

  /** What the value classes guarantee: integers in range, members sorted and named by C strings. */
  ghost predicate WellFormed(v: Value) {
    match v
    case Int(i) => MinLargestInt <= i <= MaxLargestInt
    case UInt(u) => 0 <= u <= MaxLargestUInt
    case Array(items) => forall k :: 0 <= k < |items| ==> WellFormed(items[k])
    case Object(members) =>
      && Ascending(members)
      && (forall k :: 0 <= k < |members| ==> NulFree(members[k].name) && WellFormed(members[k].value))
    case _ => true
  }

  /** No real anywhere in the tree. */
  ghost predicate RealFree(v: Value) {
    match v
    case Real(_) => false
    case Array(items) => forall k :: 0 <= k < |items| ==> RealFree(items[k])
    case Object(members) => forall k :: 0 <= k < |members| ==> RealFree(members[k].value)
    case _ => true
  }

  /** No null string anywhere in the tree. */
  ghost predicate NullFree(v: Value) {
    match v
    case NullString => false
    case Array(items) => forall k :: 0 <= k < |items| ==> NullFree(items[k])
    case Object(members) => forall k :: 0 <= k < |members| ==> NullFree(members[k].value)
    case _ => true
  }

  ghost predicate Exact(v: Value) {
    RealFree(v) && NullFree(v)
  }

  /** No string of the tree holds a NUL. */
  ghost predicate StringsNulFree(v: Value) {
    match v
    case String(s) => NulFree(s)
    case Array(items) => forall k :: 0 <= k < |items| ==> StringsNulFree(items[k])
    case Object(members) => forall k :: 0 <= k < |members| ==> StringsNulFree(members[k].value)
    case _ => true
  }

  /** The type an integer gets when it is read back. */
  function Integer(n: int): Value {
    if n <= MaxInt then Int(n) else UInt(n)
  }

  /** The tree as it is read back: integers re-typed, strings cut at a NUL. */
  function Stored(v: Value): Value {
    match v
    case Int(i) => Integer(i)
    case UInt(u) => Integer(u)
    case String(s) => String(CString(s))
    case Array(items) => Array(StoredItems(items))
    case Object(members) => Object(StoredMembers(members))
    case _ => v
  }

  function StoredItems(items: seq<Value>): (r: seq<Value>)
    ensures |r| == |items|
    ensures forall k :: 0 <= k < |items| ==> r[k] == Stored(items[k])
  {
    if items == [] then [] else [Stored(items[0])] + StoredItems(items[1..])
  }

  function StoredMembers(members: seq<Member>): (r: seq<Member>)
    ensures |r| == |members|
    ensures forall k :: 0 <= k < |members| ==> r[k] == Member(members[k].name, Stored(members[k].value))
  {
    if members == [] then []
    else [Member(members[0].name, Stored(members[0].value))] + StoredMembers(members[1..])
  }

  /** The same tree, integers compared by their numeric value only. */
  ghost predicate SameTree(v: Value, w: Value) {
    match v
    case Int(i) => (w.Int? && w.i == i) || (w.UInt? && w.u == i)
    case UInt(u) => (w.Int? && w.i == u) || (w.UInt? && w.u == u)
    case Array(items) =>
      && w.Array? && |w.items| == |items|
      && (forall k :: 0 <= k < |items| ==> SameTree(items[k], w.items[k]))
    case Object(members) =>
      && w.Object? && |w.members| == |members|
      && (forall k :: 0 <= k < |members| ==>
            members[k].name == w.members[k].name && SameTree(members[k].value, w.members[k].value))
    case _ => v == w
  }

  /** What is read back is the same tree exactly when no string was cut. */
  lemma {:induction false} StoredIsSame(v: Value)
    ensures SameTree(v, Stored(v)) <==> StringsNulFree(v)
    decreases v
  {
    match v
    case Array(items) =>
      forall k | 0 <= k < |items|
        ensures SameTree(items[k], Stored(items[k])) <==> StringsNulFree(items[k])
      {
        StoredIsSame(items[k]);
      }
    case Object(members) =>
      forall k | 0 <= k < |members|
        ensures SameTree(members[k].value, Stored(members[k].value)) <==> StringsNulFree(members[k].value)
      {
        StoredIsSame(members[k].value);
      }
    case _ =>
  }

  /** A tree with a null string is the same only as a tree with one. */
  lemma {:induction false} SameNullFree(v: Value, w: Value)
    requires SameTree(v, w) && NullFree(w)
    ensures NullFree(v)
    decreases v
  {
    match v
    case Array(items) =>
      forall k | 0 <= k < |items| ensures NullFree(items[k]) {
        SameNullFree(items[k], w.items[k]);
      }
    case Object(members) =>
      forall k | 0 <= k < |members| ensures NullFree(members[k].value) {
        SameNullFree(members[k].value, w.members[k].value);
      }
    case _ =>
  }
}
