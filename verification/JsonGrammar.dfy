/** JSON texts after RFC 8259, without reals: what may be written (section 7 for strings, section 6
    for integers, sections 4 and 5 for objects and arrays) and what it means to the reader. */
module JsonGrammar {
  import opened JsonValue
  import opened JsonText
  import opened JsonStrings

  // ------------------------------------------------------------------- strings

  /** A character of a string, as it is, by a one-letter escape, or by its code unit. */
  datatype Piece = Plain(c: char) | Short(c: char) | Hex(a: char, b: char, c: char, d: char)

  predicate PieceOK(p: Piece) {
    match p
    case Plain(c) => c >= ' ' && c != '\"' && c != '\\'
    case Short(c) => c in ShortLetters
    case Hex(a, b, c, d) => FourDigits([a, b, c, d])
  }

  function UnitOf(p: Piece): (u: nat)
    requires p.Hex? && PieceOK(p)
    ensures u <= 0xFFFF
  {
    Spelled([p.a, p.b, p.c, p.d])
  }

  function PieceText(p: Piece): string {
    match p
    case Plain(c) => [c]
    case Short(c) => ['\\', c]
    case Hex(a, b, c, d) => ['\\', 'u', a, b, c, d]
  }

  function Text(ps: seq<Piece>): string {
    if ps == [] then [] else PieceText(ps[0]) + Text(ps[1..])
  }

  /** The first two pieces are the units of a surrogate pair. */
  predicate StartsPair(ps: seq<Piece>) {
    && |ps| >= 2 && ps[0].Hex? && PieceOK(ps[0]) && ps[1].Hex? && PieceOK(ps[1])
    && IsHighSurrogate(UnitOf(ps[0])) && IsLowSurrogate(UnitOf(ps[1]))
  }

  predicate IsSurrogate(p: Piece) {
    p.Hex? && PieceOK(p) && (IsHighSurrogate(UnitOf(p)) || IsLowSurrogate(UnitOf(p)))
  }

  /** Surrogates come in pairs. */
  predicate PiecesOK(ps: seq<Piece>) {
    if ps == [] then true
    else if StartsPair(ps) then PiecesOK(ps[2..])
    else PieceOK(ps[0]) && !IsSurrogate(ps[0]) && PiecesOK(ps[1..])
  }

  function PieceMeans(p: Piece): string
    requires PieceOK(p)
  {
    match p
    case Plain(c) => [c]
    case Short(c) => [ShortMeaning(c)]
    case Hex(_, _, _, _) => Utf8(UnitOf(p))
  }

  function Means(ps: seq<Piece>): string
    requires PiecesOK(ps)
  {
    if ps == [] then []
    else if StartsPair(ps) then Utf8(Combine(UnitOf(ps[0]), UnitOf(ps[1]))) + Means(ps[2..])
    else PieceMeans(ps[0]) + Means(ps[1..])
  }

  function Lexeme(ps: seq<Piece>): string { "\"" + Text(ps) + "\"" }

  // ------------------------------------------------------------------ integers

  /** An optional minus, then 0 or digits that do not begin with 0. */
  predicate IsInteger(s: string) {
    var digits := if s != [] && s[0] == '-' then s[1..] else s;
    digits != [] && AllDigits(digits) && (digits[0] == '0' ==> |digits| == 1)
  }

  function IntegerOf(s: string): int
    requires IsInteger(s)
  {
    if s[0] == '-' then -(Numeral(s[1..]) as int) else Numeral(s)
  }

  // --------------------------------------------------------------------- trees

  datatype Syntax =
    | SNull
    | SBool(b: bool)
    | SNumber(text: string)
    | SString(pieces: seq<Piece>)
    | SArray(items: seq<Syntax>)
    | SObject(members: seq<SMember>)

  datatype SMember = SMember(name: seq<Piece>, value: Syntax)

  /** A text of the grammar whose integers fit 64 bits. */
  predicate Grammatical(t: Syntax)
    decreases t
  {
    match t
    case SNumber(text) => IsInteger(text) && MinLargestInt <= IntegerOf(text) <= MaxLargestUInt
    case SString(ps) => PiecesOK(ps)
    case SArray(items) => GrammaticalItems(items)
    case SObject(members) => GrammaticalMembers(members)
    case _ => true
  }

  predicate GrammaticalItems(items: seq<Syntax>)
    decreases items
  {
    items == [] || (Grammatical(items[0]) && GrammaticalItems(items[1..]))
  }

  predicate GrammaticalMembers(members: seq<SMember>)
    decreases members
  {
    members == [] || (PiecesOK(members[0].name) && Grammatical(members[0].value) && GrammaticalMembers(members[1..]))
  }

  /** The lexemes of a text, in order. */
  function Spelling(t: Syntax): seq<string>
    decreases t
  {
    match t
    case SNull => ["null"]
    case SBool(b) => [if b then "true" else "false"]
    case SNumber(text) => [text]
    case SString(ps) => [Lexeme(ps)]
    case SArray(items) => ["["] + ItemSpelling(items, true) + ["]"]
    case SObject(members) => ["{"] + MemberSpelling(members, true) + ["}"]
  }

  function ItemSpelling(items: seq<Syntax>, first: bool): seq<string>
    decreases items
  {
    if items == [] then [] else Separator(first) + Spelling(items[0]) + ItemSpelling(items[1..], false)
  }

  function NameSpelling(name: seq<Piece>): seq<string> { [Lexeme(name), ":"] }

  function MemberSpelling(members: seq<SMember>, first: bool): seq<string>
    decreases members
  {
    if members == [] then []
    else
      Separator(first) + NameSpelling(members[0].name) + Spelling(members[0].value) + MemberSpelling(members[1..],
          false)
  }

  /** The tree a text means: of repeated names the last one counts, members in any order. */
  function Denotes(t: Syntax): Value
    requires Grammatical(t)
    decreases t
  {
    match t
    case SNull => Null
    case SBool(b) => Bool(b)
    case SNumber(text) => Integer(IntegerOf(text))
    case SString(ps) => String(CString(Means(ps)))
    case SArray(items) => Array(DenotesItems(items))
    case SObject(members) => Object(Gather([], members))
  }

  function DenotesItems(items: seq<Syntax>): seq<Value>
    requires GrammaticalItems(items)
    decreases items
  {
    if items == [] then [] else [Denotes(items[0])] + DenotesItems(items[1..])
  }

  function Gather(done: seq<Member>, members: seq<SMember>): seq<Member>
    requires GrammaticalMembers(members)
    decreases members
  {
    if members == [] then done
    else Gather(Put(done, CString(Means(members[0].name)), Denotes(members[0].value)), members[1..])
  }

  // --------------------------------------------------- the writers' own spelling

  function OwnPiece(c: char): Piece {
    if c == '\"' || c == '\\' then Short(c)
    else if c == '\U{08}' then Short('b')
    else if c == '\U{0C}' then Short('f')
    else if c == '\n' then Short('n')
    else if c == '\r' then Short('r')
    else if c == '\t' then Short('t')
    else if IsControl(c) then Hex('0', '0', HexChar(c as int / 16), HexChar(c as int % 16))
    else Plain(c)
  }

  function OwnPieces(s: string): seq<Piece> {
    if s == [] then [] else [OwnPiece(s[0])] + OwnPieces(s[1..])
  }

  lemma OwnPieceIs(c: char)
    requires c != '\0'
    ensures PieceText(OwnPiece(c)) == EscapeChar(c)
    ensures PieceOK(OwnPiece(c)) && !IsSurrogate(OwnPiece(c)) && PieceMeans(OwnPiece(c)) == [c]
  {
    hide ShortMeaning, FourDigits, Spelled;
    ShortTable();
    ShortOwn();
    if OwnPiece(c).Hex? {
      OwnHex(c);
    }
  }

  lemma ShortOwn()
    ensures forall k :: 0 <= k < 8 ==> ShortLetters[k] in ShortLetters
    ensures '\"' in ShortLetters && '\\' in ShortLetters && 'b' in ShortLetters && 'f' in ShortLetters
    ensures 'n' in ShortLetters && 'r' in ShortLetters && 't' in ShortLetters
  {
    assert ShortLetters[0] == '\"' && ShortLetters[1] == '\\' && ShortLetters[3] == 'b';
    assert ShortLetters[4] == 'f' && ShortLetters[5] == 'n' && ShortLetters[6] == 'r' && ShortLetters[7] == 't';
  }

  lemma OwnHex(c: char)
    requires c as int < 256
    ensures var digits := ['0', '0', HexChar(c as int / 16), HexChar(c as int % 16)];
      FourDigits(digits) && Spelled(digits) == c as int
  {
    hide Place, DigitOf, IsHexDigit;
    HexTables();
  }

  /** The writers escape what section 7 of RFC 8259 does not allow unescaped and nothing else, by a
      letter where there is one and by upper-case digits elsewhere. */
  lemma EscapedLeast(c: char)
    requires c != '\0'
    ensures EscapeChar(c) == [c] <==> c >= ' ' && c != '\"' && c != '\\'
    ensures EscapeChar(c) != [c] && c in ShortMeanings ==> |EscapeChar(c)| == 2
    ensures EscapeChar(c) != [c] && c !in ShortMeanings ==>
      EscapeChar(c) == ['\\', 'u', '0', '0', UpperHex[c as int / 16], UpperHex[c as int % 16]]
  {
    forall d | 0 <= d < 16 ensures HexChar(d) == UpperHex[d] {
      UpperDigit(d);
    }
    forall k | 0 <= k < 8 ensures ShortMeanings[k] in ShortMeanings {
    }
  }

  lemma UpperDigit(d: nat)
    requires d < 16
    ensures HexChar(d) == UpperHex[d]
  {
  }

  lemma {:induction false} OwnPiecesAre(s: string)
    requires NulFree(s)
    ensures PiecesOK(OwnPieces(s)) && Text(OwnPieces(s)) == Escaped(s) && Means(OwnPieces(s)) == s
  {
    hide PieceOK, PieceText, PieceMeans, EscapeChar, IsSurrogate, OwnPiece;
    if s != [] {
      OwnPiecesAre(s[1..]);
      OwnPieceIs(s[0]);
      var ps := OwnPieces(s);
      assert ps[0] == OwnPiece(s[0]) && ps[1..] == OwnPieces(s[1..]);
      NotPair(ps);
      assert s == [s[0]] + s[1..];
    }
  }

  lemma NotPair(ps: seq<Piece>)
    requires ps != [] && !IsSurrogate(ps[0])
    ensures !StartsPair(ps)
  {
  }

  /** The text the writers choose for a tree. */
  function Own(v: Value): Syntax
    decreases v
  {
    match v
    case Int(i) => SNumber(IntText(i))
    case UInt(u) => SNumber(IntText(u))
    case String(s) => SString(OwnPieces(CString(s)))
    case Bool(b) => SBool(b)
    case Array(items) => SArray(OwnItems(items))
    case Object(members) => SObject(OwnMembers(members))
    case _ => SNull
  }

  function OwnItems(items: seq<Value>): seq<Syntax>
    decreases items
  {
    if items == [] then [] else [Own(items[0])] + OwnItems(items[1..])
  }

  function OwnMembers(members: seq<Member>): seq<SMember>
    decreases members
  {
    if members == [] then []
    else [SMember(OwnPieces(CString(members[0].name)), Own(members[0].value))] + OwnMembers(members[1..])
  }

  /** It is grammatical, its lexemes are those the writers write, and it means the tree as stored. */
  lemma {:induction false} OwnIs(v: Value)
    requires WellFormed(v) && Exact(v)
    ensures Grammatical(Own(v)) && Spelling(Own(v)) == Tokens(v) && Denotes(Own(v)) == Stored(v)
    decreases v
  {
    match v
    case Int(i) => OwnInteger(i);
    case UInt(u) => OwnInteger(u);
    case String(s) => OwnString(CString(s));
    case Array(items) => OwnItemsAre(items, true);
    case Object(members) =>
      OwnMembersSpelled(members, true);
      OwnMembersMean([], members);
      assert [] + StoredMembers(members) == StoredMembers(members);
    case _ =>
  }

  lemma OwnString(s: string)
    requires NulFree(s)
    ensures PiecesOK(OwnPieces(s)) && Lexeme(OwnPieces(s)) == Quoted(s) && CString(Means(OwnPieces(s))) == s
  {
    hide Text, Means, Escaped, OwnPieces, PiecesOK;
    OwnPiecesAre(s);
  }

  lemma OwnInteger(n: int)
    ensures IsInteger(IntText(n)) && IntegerOf(IntText(n)) == n
  {
    var m := if n < 0 then -n else n;
    NumeralOfDigits(m);
    DigitsLead(m);
    if n < 0 {
      assert IntText(n)[1..] == Digits(m);
    }
  }

  lemma {:induction false} DigitsLead(n: nat)
    ensures n > 0 ==> Digits(n)[0] != '0'
    ensures n == 0 ==> |Digits(n)| == 1
  {
    if n >= 10 {
      DigitsLead(n / 10);
    }
  }

  lemma {:induction false} OwnItemsAre(items: seq<Value>, first: bool)
    requires forall k :: 0 <= k < |items| ==> WellFormed(items[k]) && Exact(items[k])
    ensures GrammaticalItems(OwnItems(items)) && ItemSpelling(OwnItems(items), first) == ItemTokens(items, first)
    ensures DenotesItems(OwnItems(items)) == StoredItems(items)
    decreases items
  {
    hide WellFormed, Exact;
    if items != [] {
      OwnIs(items[0]);
      OwnItemsAre(items[1..], false);
      var all := OwnItems(items);
      assert all[0] == Own(items[0]) && all[1..] == OwnItems(items[1..]);
    }
  }

  /** Members that can be written and read back. */
  ghost predicate Sound(members: seq<Member>) {
    && Ascending(members)
    && forall k :: 0 <= k < |members| ==>
        NulFree(members[k].name) && WellFormed(members[k].value) && Exact(members[k].value)
  }

  lemma {:induction false} OwnMembersSpelled(members: seq<Member>, first: bool)
    requires Sound(members)
    ensures GrammaticalMembers(OwnMembers(members))
    ensures MemberSpelling(OwnMembers(members), first) == MemberTokens(members, first)
    decreases members
  {
    hide WellFormed, Exact, Less, Means, OwnPieces, PiecesOK, Lexeme, Quoted, Own, Spelling, Denotes, Tokens, Stored;
    hide CString;
    if members != [] {
      var m := members[0];
      OwnIs(m.value);
      CStringOf(m.name);
      OwnString(m.name);
      OwnMembersSpelled(members[1..], false);
      OwnHead(members);
    }
  }

  lemma {:induction false} OwnMembersMean(done: seq<Member>, members: seq<Member>)
    requires Sound(members) && GrammaticalMembers(OwnMembers(members)) && AllLess(done, members)
    ensures Gather(done, OwnMembers(members)) == done + StoredMembers(members)
    decreases members
  {
    hide *;
    if members == [] {
      GatherNone(done);
    } else {
      var m, rest := members[0], members[1..];
      var stored := Member(m.name, Stored(m.value));
      SoundHead(done, members, stored.value);
      OwnIs(m.value);
      CStringOf(m.name);
      OwnString(m.name);
      PutLast(done, m.name, stored.value);
      OwnHead(members);
      GatherStep(done, OwnMembers(members));
      OwnMembersMean(done + [stored], rest);
      StoredHead(members);
      Regroup(done, [stored], StoredMembers(rest));
    }
  }

  lemma GatherNone(done: seq<Member>)
    ensures OwnMembers([]) == [] && GrammaticalMembers([]) && Gather(done, []) == done + StoredMembers([])
  {
  }

  lemma GatherStep(done: seq<Member>, all: seq<SMember>)
    requires all != [] && GrammaticalMembers(all)
    ensures PiecesOK(all[0].name) && Grammatical(all[0].value) && GrammaticalMembers(all[1..])
    ensures Gather(done, all) == Gather(Put(done, CString(Means(all[0].name)), Denotes(all[0].value)), all[1..])
  {
  }

  lemma StoredHead(members: seq<Member>)
    requires members != []
    ensures StoredMembers(members) == [Member(members[0].name, Stored(members[0].value))] + StoredMembers(members[1..])
  {
  }

  /** Every name of the one list is before every name of the other. */
  ghost predicate AllLess(done: seq<Member>, members: seq<Member>) {
    forall k, l :: 0 <= k < |done| && 0 <= l < |members| ==> Less(done[k].name, members[l].name)
  }

  lemma SoundHead(done: seq<Member>, members: seq<Member>, value: Value)
    requires Sound(members) && members != [] && AllLess(done, members)
    ensures NulFree(members[0].name) && WellFormed(members[0].value) && Exact(members[0].value)
    ensures Sound(members[1..]) && AllLess(done + [Member(members[0].name, value)], members[1..])
    ensures forall k :: 0 <= k < |done| ==> Less(done[k].name, members[0].name)
  {
    hide WellFormed, Exact, Less;
  }

  lemma CStringOf(s: string)
    requires NulFree(s)
    ensures CString(s) == s
  {
  }

  lemma OwnHead(members: seq<Member>)
    requires members != []
    ensures var all := OwnMembers(members);
      all != [] && all[0] == SMember(OwnPieces(CString(members[0].name)), Own(members[0].value))
          && all[1..] == OwnMembers(members[1..])
  {
  }
}
