// The edit distance between two word lists (src/Similarity/editDist/EditDist.cpp):
// insertions and deletions cost 1, a substitution costs 2.
module EditDistance {

  type Word = string

  function Min(i: int, j: int): int { if i > j then j else i }

  function Init<T>(s: seq<T>): (r: seq<T>)
    requires s != []
    ensures |r| == |s| - 1
  {
    s[..|s| - 1]
  }

  function Last<T>(s: seq<T>): T
    requires s != []
  {
    s[|s| - 1]
  }

  // ------------------------------------------------------------ the recurrence

  /** The recurrence the table satisfies, on whole lists rather than cells. */
  function Distance(a: seq<Word>, b: seq<Word>): nat
    decreases |a| + |b|
  {
    if a == [] then |b|
    else if b == [] then |a|
    else
      Min(Min(Distance(a, Init(b)) + 1, Distance(Init(a), b) + 1),
          Distance(Init(a), Init(b)) + if Last(a) == Last(b) then 0 else 2)
  }

  /** The table is filled row by row; its last cell is the distance. */
  method Edit(a: seq<Word>, b: seq<Word>) returns (distance: int)
    ensures distance == Distance(a, b)
  {
    hide Distance;
    var n, m := |a|, |b|;
    var table := new int[n + 1, m + 1];
    for i := 0 to n + 1
      invariant forall k :: 0 <= k < i ==> table[k, 0] == k
    {
      table[i, 0] := i;
    }
    for j := 0 to m + 1
      invariant forall k :: 0 <= k <= n ==> table[k, 0] == k
      invariant forall k :: 0 <= k < j ==> table[0, k] == k
    {
      table[0, j] := j;
    }
    Edges(a, b);
    for i := 1 to n + 1
      invariant forall k :: 0 <= k <= n ==> table[k, 0] == k
      invariant forall k, l :: 0 <= k < i && 0 <= l <= m ==> table[k, l] == Distance(a[..k], b[..l])
    {
      for j := 1 to m + 1
        invariant forall k :: 0 <= k <= n ==> table[k, 0] == k
        invariant forall k, l :: 0 <= k < i && 0 <= l <= m ==> table[k, l] == Distance(a[..k], b[..l])
        invariant forall l :: 0 <= l < j ==> table[i, l] == Distance(a[..i], b[..l])
      {
        Cell(a, b, i, j);
        var d := if a[i - 1] == b[j - 1] then 0 else 2;
        var best := Min(table[i, j - 1] + 1, table[i - 1, j] + 1);
        table[i, j] := Min(best, table[i - 1, j - 1] + d);
      }
    }
    assert a[..n] == a && b[..m] == b;
    distance := table[n, m];
  }

  lemma {:induction false} Edges(a: seq<Word>, b: seq<Word>)
    ensures forall k :: 0 <= k <= |a| ==> Distance(a[..k], b[..0]) == k
    ensures forall l :: 0 <= l <= |b| ==> Distance(a[..0], b[..l]) == l
  {
  }

  lemma {:induction false} DistanceStep(p: seq<Word>, q: seq<Word>)
    requires p != [] && q != []
    ensures Distance(p, q)
         == Min(Min(Distance(p, Init(q)) + 1, Distance(Init(p), q) + 1),
                Distance(Init(p), Init(q)) + if Last(p) == Last(q) then 0 else 2)
  {
  }

  lemma {:induction false} Cell(a: seq<Word>, b: seq<Word>, i: nat, j: nat)
    requires 1 <= i <= |a| && 1 <= j <= |b|
    ensures Distance(a[..i], b[..j])
         == Min(Min(Distance(a[..i], b[..j - 1]) + 1, Distance(a[..i - 1], b[..j]) + 1),
                Distance(a[..i - 1], b[..j - 1]) + if a[i - 1] == b[j - 1] then 0 else 2)
  {
    hide Distance;
    var p, q := a[..i], b[..j];
    DistanceStep(p, q);
    assert Init(p) == a[..i - 1] && Init(q) == b[..j - 1];
  }

  // ------------------------------------------------- longest common subsequence

  /** `s` appears in `a` at the strictly increasing positions `at`. */
  predicate Embeds(s: seq<Word>, a: seq<Word>, at: seq<nat>) {
    && |at| == |s|
    && (forall k :: 0 <= k < |s| ==> at[k] < |a| && a[at[k]] == s[k])
    && (forall k, l :: 0 <= k < l < |s| ==> at[k] < at[l])
  }

  ghost predicate CommonSubsequence(s: seq<Word>, a: seq<Word>, b: seq<Word>) {
    (exists at :: Embeds(s, a, at)) && (exists at :: Embeds(s, b, at))
  }

  function Lcs(a: seq<Word>, b: seq<Word>): nat
    decreases |a| + |b|
  {
    if a == [] || b == [] then 0
    else if Last(a) == Last(b) then Lcs(Init(a), Init(b)) + 1
    else
      var l, r := Lcs(Init(a), b), Lcs(a, Init(b));
      if l > r then l else r
  }

  lemma EmbedsMore(s: seq<Word>, a: seq<Word>, at: seq<nat>)
    requires a != [] && Embeds(s, Init(a), at)
    ensures Embeds(s, a, at)
    ensures Embeds(s + [Last(a)], a, at + [|a| - 1])
  {
  }

  /** Some common subsequence is as long as `Lcs` says. */
  lemma {:induction false} LcsAttained(a: seq<Word>, b: seq<Word>) returns (s: seq<Word>, at: seq<nat>, bt: seq<nat>)
    ensures Embeds(s, a, at) && Embeds(s, b, bt) && |s| == Lcs(a, b)
    decreases |a| + |b|
  {
    if a == [] || b == [] {
      s, at, bt := [], [], [];
    } else if Last(a) == Last(b) {
      s, at, bt := LcsAttained(Init(a), Init(b));
      EmbedsMore(s, a, at);
      EmbedsMore(s, b, bt);
      s, at, bt := s + [Last(a)], at + [|a| - 1], bt + [|b| - 1];
    } else if Lcs(Init(a), b) > Lcs(a, Init(b)) {
      s, at, bt := LcsAttained(Init(a), b);
      EmbedsMore(s, a, at);
    } else {
      s, at, bt := LcsAttained(a, Init(b));
      EmbedsMore(s, b, bt);
    }
  }

  /** Dropping a last word costs at most one common word, and never gains any. */
  lemma {:induction false} LcsStep(a: seq<Word>, b: seq<Word>)
    ensures Lcs(a, b) == Lcs(b, a)
    ensures Lcs(a, b) <= |a| && Lcs(a, b) <= |b|
    ensures a != [] ==> Lcs(Init(a), b) <= Lcs(a, b) <= Lcs(Init(a), b) + 1
    ensures b != [] ==> Lcs(a, Init(b)) <= Lcs(a, b) <= Lcs(a, Init(b)) + 1
    decreases |a| + |b|
  {
    if a != [] && b != [] {
      LcsStep(Init(a), b);
      LcsStep(a, Init(b));
      LcsStep(Init(a), Init(b));
    }
  }

  lemma EmbedsLess(s: seq<Word>, a: seq<Word>, at: seq<nat>)
    requires s != [] && Embeds(s, a, at)
    ensures |at| == |s| && at[|s| - 1] < |a|
    ensures at[|s| - 1] == |a| - 1 ==> Embeds(Init(s), Init(a), Init(at)) && Last(a) == Last(s)
    ensures at[|s| - 1] < |a| - 1 ==> Embeds(s, Init(a), at)
  {
  }

  /** No common subsequence is longer. */
  lemma {:induction false} LcsBounds(s: seq<Word>, a: seq<Word>, at: seq<nat>, b: seq<Word>, bt: seq<nat>)
    requires Embeds(s, a, at) && Embeds(s, b, bt)
    ensures |s| <= Lcs(a, b)
    decreases |a| + |b|
  {
    hide Embeds;
    if s != [] {
      EmbedsLess(s, a, at);
      EmbedsLess(s, b, bt);
      var k := |s| - 1;
      LcsStep(a, b);
      if at[k] < |a| - 1 {
        LcsBounds(s, Init(a), at, b, bt);
      } else if bt[k] < |b| - 1 {
        LcsBounds(s, a, at, Init(b), bt);
      } else {
        LcsBounds(Init(s), Init(a), Init(at), Init(b), Init(bt));
      }
    }
  }

  lemma {:induction false} LcsIsLongest(a: seq<Word>, b: seq<Word>)
    ensures exists s :: CommonSubsequence(s, a, b) && |s| == Lcs(a, b)
    ensures forall s :: CommonSubsequence(s, a, b) ==> |s| <= Lcs(a, b)
  {
    var s, at, bt := LcsAttained(a, b);
    assert CommonSubsequence(s, a, b);
    forall s | CommonSubsequence(s, a, b)
      ensures |s| <= Lcs(a, b)
    {
      var at :| Embeds(s, a, at);
      var bt :| Embeds(s, b, bt);
      LcsBounds(s, a, at, b, bt);
    }
  }

  /** With substitutions at 2 the distance counts the words outside a longest common subsequence. */
  lemma {:induction false} DistanceByLcs(a: seq<Word>, b: seq<Word>)
    ensures Distance(a, b) == |a| + |b| - 2 * Lcs(a, b)
    decreases |a| + |b|
  {
    if a != [] && b != [] {
      DistanceByLcs(a, Init(b));
      DistanceByLcs(Init(a), b);
      DistanceByLcs(Init(a), Init(b));
      LcsStep(a, b);
      LcsStep(a, Init(b));
      LcsStep(Init(a), b);
    }
  }

  // ------------------------------------------------------------- edit scripts

  datatype Operation = Keep(word: Word) | Insert(added: Word) | Delete(removed: Word) | Substitute(from: Word,
      to: Word) {
    function Price(): nat {
      match this case Keep(_) => 0 case Substitute(_, _) => 2 case _ => 1
    }

    /** The words of the first list this operation consumes. */
    function Takes(): seq<Word> {
      match this case Keep(w) => [w] case Insert(_) => [] case Delete(w) => [w] case Substitute(w, _) => [w]
    }

    /** The words of the second list this operation produces. */
    function Gives(): seq<Word> {
      match this case Keep(w) => [w] case Insert(w) => [w] case Delete(_) => [] case Substitute(_, w) => [w]
    }
  }

  function Cost(script: seq<Operation>): nat {
    if script == [] then 0 else Cost(Init(script)) + Last(script).Price()
  }

  /** The list a script starts from. */
  function Before(script: seq<Operation>): seq<Word> {
    if script == [] then [] else Before(Init(script)) + Last(script).Takes()
  }

  /** The list a script ends with. */
  function After(script: seq<Operation>): seq<Word> {
    if script == [] then [] else After(Init(script)) + Last(script).Gives()
  }

  /** No script between the two lists is cheaper than the distance. */
  lemma {:induction false} NoCheaperScript(script: seq<Operation>)
    ensures Distance(Before(script), After(script)) <= Cost(script)
  {
    if script != [] {
      var rest := Init(script);
      NoCheaperScript(rest);
      DistanceGrows(Before(rest), After(rest), Last(script));
    }
  }

  lemma {:induction false} DistanceGrows(p: seq<Word>, q: seq<Word>, e: Operation)
    ensures Distance(p + e.Takes(), q + e.Gives()) <= Distance(p, q) + e.Price()
  {
    match e
    case Keep(w) =>
      assert Init(p + [w]) == p && Init(q + [w]) == q;
    case Substitute(v, w) =>
      assert Init(p + [v]) == p && Init(q + [w]) == q;
    case Insert(w) =>
      assert p + [] == p && Init(q + [w]) == q;
    case Delete(w) =>
      assert q + [] == q && Init(p + [w]) == p;
  }

  lemma EmptyScript()
    ensures Before([]) == [] && After([]) == [] && Cost([]) == 0
  {
  }

  lemma {:induction false} ScriptGrows(rest: seq<Operation>, e: Operation)
    ensures Before(rest + [e]) == Before(rest) + e.Takes()
    ensures After(rest + [e]) == After(rest) + e.Gives()
    ensures Cost(rest + [e]) == Cost(rest) + e.Price()
  {
    assert Init(rest + [e]) == rest && Last(rest + [e]) == e;
  }

  /** Some script between the two lists costs exactly the distance. */
  lemma {:induction false} CheapestScript(a: seq<Word>, b: seq<Word>) returns (script: seq<Operation>)
    ensures Before(script) == a && After(script) == b && Cost(script) == Distance(a, b)
    decreases |a| + |b|
  {
    hide Before, After, Cost;
    assert a != [] ==> Init(a) + [Last(a)] == a;
    assert b != [] ==> Init(b) + [Last(b)] == b;
    if a == [] && b == [] {
      script := [];
      EmptyScript();
    } else if b == [] || (a != [] && Distance(a, b) == Distance(Init(a), b) + 1) {
      script := CheapestScript(Init(a), b);
      ScriptGrows(script, Delete(Last(a)));
      script := script + [Delete(Last(a))];
    } else if a == [] || Distance(a, b) == Distance(a, Init(b)) + 1 {
      script := CheapestScript(a, Init(b));
      ScriptGrows(script, Insert(Last(b)));
      script := script + [Insert(Last(b))];
    } else {
      script := CheapestScript(Init(a), Init(b));
      var e := if Last(a) == Last(b) then Keep(Last(a)) else Substitute(Last(a), Last(b));
      ScriptGrows(script, e);
      script := script + [e];
    }
  }

  // ------------------------------------------------------------ a metric

  lemma {:induction false} DistanceSymmetric(a: seq<Word>, b: seq<Word>)
    ensures Distance(a, b) == Distance(b, a)
  {
    DistanceByLcs(a, b);
    DistanceByLcs(b, a);
    LcsStep(a, b);
  }

  lemma {:induction false} LcsSelf(a: seq<Word>)
    ensures Lcs(a, a) == |a|
  {
    if a != [] {
      LcsSelf(Init(a));
    }
  }

  lemma {:induction false} LcsFull(a: seq<Word>, b: seq<Word>)
    requires |a| == |b| == Lcs(a, b)
    ensures a == b
    decreases |a|
  {
    if a != [] {
      LcsStep(Init(a), b);
      LcsStep(a, Init(b));
      LcsFull(Init(a), Init(b));
    }
  }

  lemma {:induction false} DistanceZeroIffEqual(a: seq<Word>, b: seq<Word>)
    ensures Distance(a, b) == 0 <==> a == b
  {
    DistanceByLcs(a, b);
    LcsStep(a, b);
    LcsSelf(a);
    if Distance(a, b) == 0 {
      LcsFull(a, b);
    }
  }

  /** What `b` shares with `a` and what it shares with `c` overlap in something `a` and `c` share. */
  lemma {:induction false} LcsThrough(a: seq<Word>, b: seq<Word>, c: seq<Word>)
    ensures Lcs(a, b) + Lcs(b, c) <= |b| + Lcs(a, c)
    decreases |a| + |b| + |c|
  {
    LcsStep(a, b);
    LcsStep(b, c);
    LcsStep(a, c);
    if a == [] || b == [] || c == [] {
    } else if Last(a) == Last(b) == Last(c) {
      LcsThrough(Init(a), Init(b), Init(c));
    } else {
      LcsThrough(a, Init(b), c);
      LcsThrough(Init(a), b, c);
      LcsThrough(a, b, Init(c));
    }
  }

  lemma {:induction false} TriangleInequality(a: seq<Word>, b: seq<Word>, c: seq<Word>)
    ensures Distance(a, c) <= Distance(a, b) + Distance(b, c)
  {
    DistanceByLcs(a, b);
    DistanceByLcs(b, c);
    DistanceByLcs(a, c);
    LcsThrough(a, b, c);
  }
}
