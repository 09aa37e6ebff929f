/** Every layout of a text of the grammar is read as the tree it means; in particular every layout of
    the tokens of a tree is read back as that tree. */
module JsonRoundTrip {
  import opened JsonValue
  import opened JsonText
  import opened JsonLexer
  import opened JsonStrings
  import opened JsonParser
  import opened JsonGrammar

  // ------------------------------------------------------------- single lexemes

  /** A lexeme that white space cannot be mistaken for. */
  predicate Visible(token: string) {
    token != "" && !IsSpace(token[0])
  }

  lemma {:induction false} SpacesSkipped(doc: string, pos: nat, token: string, more: seq<string>)
    requires pos <= |doc| && Visible(token) && Laid(doc, pos, [token] + more)
    ensures var p := AfterSpaces(doc, pos);
      && StandsAt(doc, p, token)
      && doc[p] == token[0]
      && Laid(doc, p + |token|, more)
    decreases |doc| - pos
  {
    var tokens := [token] + more;
    assert tokens[1..] == more;
    if StandsAt(doc, pos, token) && Laid(doc, pos + |token|, more) {
      assert doc[pos] == doc[pos..pos + |token|][0];
    } else {
      SpacesSkipped(doc, pos + 1, token, more);
    }
  }

  /** What may follow a value: nothing that a number could go on with. */
  predicate Follow(more: seq<string>) {
    more == [] || (more[0] != "" && !IsNumberChar(more[0][0]))
  }

  lemma NumberStops(doc: string, pos: nat, more: seq<string>)
    requires pos <= |doc| && Follow(more) && Laid(doc, pos, more)
    ensures pos < |doc| ==> !IsNumberChar(doc[pos])
  {
    if more != [] && StandsAt(doc, pos, more[0]) {
      assert doc[pos] == doc[pos..pos + |more[0]|][0];
    }
  }

  lemma {:induction false} NumberExtent(doc: string, pos: nat, end: nat)
    requires pos <= end <= |doc|
    requires forall k :: pos <= k < end ==> IsNumberChar(doc[k])
    requires end < |doc| ==> !IsNumberChar(doc[end])
    ensures NumberEnd(doc, pos) == end
    decreases end - pos
  {
    if pos < end {
      NumberExtent(doc, pos + 1, end);
    }
  }

  /** The token that stands at the next visible position, whole and of its own kind. */
  ghost predicate ReadsAs(doc: string, pos: nat, token: string, kind: Kind, more: seq<string>)
    requires pos <= |doc|
  {
    var t := ReadToken(doc, pos);
    && t.kind == kind
    && t.end == t.start + |token|
    && doc[t.start..t.end] == token
    && Laid(doc, t.end, more)
  }

  lemma PunctuationReads(doc: string, pos: nat, c: char, more: seq<string>)
    requires pos <= |doc| && Laid(doc, pos, [[c]] + more)
    requires c == '{' || c == '}' || c == '[' || c == ']' || c == ',' || c == ':'
    ensures ReadsAs(doc, pos, [c], ScanFrom(doc, c, 0).0, more)
  {
    hide Laid;
    SpacesSkipped(doc, pos, [c], more);
  }

  lemma WordReads(doc: string, pos: nat, word: string, more: seq<string>)
    requires pos <= |doc| && Laid(doc, pos, [word] + more)
    requires word == "true" || word == "false" || word == "null"
    ensures ReadsAs(doc, pos, word, if word == "true" then True else if word == "false" then False else Kind.Null, more)
  {
    hide Laid;
    SpacesSkipped(doc, pos, word, more);
    var p := AfterSpaces(doc, pos);
    assert doc[p + 1..p + |word|] == doc[p..p + |word|][1..] == word[1..];
    assert word[1..] == if word == "true" then "rue" else if word == "false" then "alse" else "ull";
  }

  lemma NumberReads(doc: string, pos: nat, text: string, more: seq<string>)
    requires pos <= |doc| && Laid(doc, pos, [text] + more) && Follow(more)
    requires IsNumberText(text)
    ensures ReadsAs(doc, pos, text, Number, more)
  {
    SpacesSkipped(doc, pos, text, more);
    var p := AfterSpaces(doc, pos);
    var end := p + |text|;
    NumberStops(doc, end, more);
    forall k | p <= k < end
      ensures IsNumberChar(doc[k])
    {
      assert doc[k] == doc[p..end][k - p] == text[k - p];
    }
    NumberExtent(doc, p + 1, end);
  }

  // --------------------------------------------------------------------- strings

  /** A piece of a document that stands somewhere stands there part by part. */
  lemma StandsApart(doc: string, pos: nat, a: string, b: string)
    requires StandsAt(doc, pos, a + b)
    ensures StandsAt(doc, pos, a) && StandsAt(doc, pos + |a|, b)
    ensures forall k :: 0 <= k < |a| ==> doc[pos + k] == a[k]
  {
    var ab := a + b;
    assert doc[pos..pos + |ab|] == ab;
    forall k | 0 <= k < |ab|
      ensures doc[pos + k] == ab[k]
    {
      assert doc[pos..pos + |ab|][k] == doc[pos + k];
    }
    forall k | 0 <= k < |a|
      ensures doc[pos + k] == a[k]
    {
      assert ab[k] == a[k];
    }
    assert doc[pos..pos + |a|] == a;
    forall k | 0 <= k < |b|
      ensures doc[pos + |a| + k] == b[k]
    {
      assert ab[|a| + k] == b[k] && doc[pos + (|a| + k)] == ab[|a| + k];
    }
    assert doc[pos + |a|..pos + |a| + |b|] == b;
  }

  // The four digits behind a backslash and a u.
  ghost predicate HexAt(doc: string, pos: nat, p: Piece) {
    && p.Hex? && PieceOK(p) && pos + 6 <= |doc|
    && doc[pos] == '\\' && doc[pos + 1] == 'u'
    && doc[pos + 2] == p.a && doc[pos + 3] == p.b && doc[pos + 4] == p.c && doc[pos + 5] == p.d
  }

  lemma HexScanned(doc: string, pos: nat, p: Piece)
    requires HexAt(doc, pos, p)
    ensures ScanString(doc, pos) == ScanString(doc, pos + 6)
  {
    hide HexAt, IsHexDigit, FourDigits;
    DigitsPlain(doc, pos, p);
    assert ScanString(doc, pos) == ScanString(doc, pos + 2);
    assert ScanString(doc, pos + 2) == ScanString(doc, pos + 3) == ScanString(doc, pos + 4);
    assert ScanString(doc, pos + 4) == ScanString(doc, pos + 5) == ScanString(doc, pos + 6);
  }

  // A digit is neither a quote nor a backslash.
  lemma DigitsPlain(doc: string, pos: nat, p: Piece)
    requires HexAt(doc, pos, p)
    ensures pos + 6 <= |doc| && doc[pos] == '\\' && doc[pos + 1] == 'u'
    ensures forall k :: pos + 2 <= k < pos + 6 ==> doc[k] != '\"' && doc[k] != '\\'
  {
    hide IsHexDigit;
    DigitPlain(p.a);
    DigitPlain(p.b);
    DigitPlain(p.c);
    DigitPlain(p.d);
  }

  lemma DigitPlain(c: char)
    requires IsHexDigit(c)
    ensures c != '\"' && c != '\\'
  {
    hide IsHexDigit, DigitOf;
    HexTables();
    assert HexValue(c) >= 0;
  }

  lemma HexDecoded(doc: string, pos: nat, end: nat, p: Piece)
    requires HexAt(doc, pos, p) && pos + 6 <= end <= |doc|
    ensures EscapeSequence(doc, pos + 2, end) == Good(UnitOf(p))
  {
    hide EscapeSequence, FourDigits, Spelled;
    assert doc[pos + 2..pos + 6] == [p.a, p.b, p.c, p.d];
    HexIff(doc, pos + 2, end);
  }

  /** One piece that is no surrogate is scanned over and decoded. */
  lemma PieceReads(doc: string, pos: nat, end: nat, p: Piece)
    requires PieceOK(p) && !IsSurrogate(p) && pos + |PieceText(p)| <= end <= |doc|
    requires forall k :: 0 <= k < |PieceText(p)| ==> doc[pos + k] == PieceText(p)[k]
    ensures ScanString(doc, pos) == ScanString(doc, pos + |PieceText(p)|)
    ensures DecodeFrom(doc, pos, end) == Prepend(PieceMeans(p), DecodeFrom(doc, pos + |PieceText(p)|, end))
  {
    hide Utf8, FourDigits, Spelled, ShortMeaning, EscapeSequence;
    var e := PieceText(p);
    assert doc[pos] == e[0];
    if p.Short? {
      ShortTable();
      assert doc[pos + 1] == e[1];
    } else if p.Hex? {
      assert doc[pos + 1] == e[1] && doc[pos + 2] == e[2] && doc[pos + 3] == e[3];
      assert doc[pos + 4] == e[4] && doc[pos + 5] == e[5];
      HexScanned(doc, pos, p);
      HexDecoded(doc, pos, end, p);
    }
  }

  /** A surrogate pair is scanned over and combined. */
  lemma PairReads(doc: string, pos: nat, end: nat, ps: seq<Piece>)
    requires StartsPair(ps) && pos + 12 <= end <= |doc|
    requires HexAt(doc, pos, ps[0]) && HexAt(doc, pos + 6, ps[1])
    ensures ScanString(doc, pos) == ScanString(doc, pos + 12)
    ensures DecodeFrom(doc, pos, end)
         == Prepend(Utf8(Combine(UnitOf(ps[0]), UnitOf(ps[1]))), DecodeFrom(doc, pos + 12, end))
  {
    hide EscapeSequence, Utf8, Combine, UnitOf, PieceOK, ScanString;
    HexScanned(doc, pos, ps[0]);
    HexScanned(doc, pos + 6, ps[1]);
    HexDecoded(doc, pos, end, ps[0]);
    HexDecoded(doc, pos + 6, end, ps[1]);
  }

  lemma HexStands(doc: string, pos: nat, p: Piece)
    requires p.Hex? && PieceOK(p) && StandsAt(doc, pos, PieceText(p))
    requires forall k :: 0 <= k < 6 ==> doc[pos + k] == PieceText(p)[k]
    ensures HexAt(doc, pos, p)
  {
    var e := PieceText(p);
    assert doc[pos + 0] == e[0] && doc[pos + 1] == e[1] && doc[pos + 2] == e[2] && doc[pos + 3] == e[3];
    assert doc[pos + 4] == e[4] && doc[pos + 5] == e[5];
  }

  /** The scan stops behind the closing quote, and decoding gives what the pieces mean. */
  lemma {:induction false} PiecesRead(doc: string, pos: nat, ps: seq<Piece>)
    requires PiecesOK(ps) && StandsAt(doc, pos, Text(ps) + "\"")
    ensures var end := pos + |Text(ps)|;
      && end < |doc|
      && ScanString(doc, pos) == Scan(true, end + 1)
      && DecodeFrom(doc, pos, end) == Good(Means(ps))
    decreases |ps|
  {
    hide PieceOK, PieceText, PieceMeans, UnitOf, Combine, Utf8, IsSurrogate, ScanString, DecodeFrom, StandsAt, HexAt;
    if ps == [] {
      assert Text(ps) + "\"" == "\"" == "\"" + "";
      StandsApart(doc, pos, "\"", "");
      QuoteEnds(doc, pos);
    } else if StartsPair(ps) {
      PairRest(doc, pos, ps);
      PiecesRead(doc, pos + 12, ps[2..]);
      PairReads(doc, pos, pos + |Text(ps)|, ps);
    } else {
      var e, rest := PieceText(ps[0]), Text(ps[1..]) + "\"";
      assert Text(ps) + "\"" == e + rest;
      StandsApart(doc, pos, e, rest);
      PiecesRead(doc, pos + |e|, ps[1..]);
      PieceReads(doc, pos, pos + |Text(ps)|, ps[0]);
    }
  }

  lemma PairRest(doc: string, pos: nat, ps: seq<Piece>)
    requires StartsPair(ps) && StandsAt(doc, pos, Text(ps) + "\"")
    ensures HexAt(doc, pos, ps[0]) && HexAt(doc, pos + 6, ps[1])
    ensures |Text(ps)| == 12 + |Text(ps[2..])| && StandsAt(doc, pos + 12, Text(ps[2..]) + "\"")
  {
    hide UnitOf, PieceOK, StandsAt, HexAt, PieceText, IsHighSurrogate, IsLowSurrogate;
    var a, b, rest := PieceText(ps[0]), PieceText(ps[1]), Text(ps[2..]) + "\"";
    PairText(ps);
    assert Text(ps) + "\"" == a + (b + rest);
    StandsApart(doc, pos, a, b + rest);
    StandsApart(doc, pos + 6, b, rest);
    HexStands(doc, pos, ps[0]);
    HexStands(doc, pos + 6, ps[1]);
  }

  lemma PairText(ps: seq<Piece>)
    requires StartsPair(ps)
    ensures Text(ps) == PieceText(ps[0]) + (PieceText(ps[1]) + Text(ps[2..]))
    ensures |PieceText(ps[0])| == |PieceText(ps[1])| == 6
  {
    hide UnitOf, PieceOK;
    assert ps[1..][1..] == ps[2..] && ps[1..][0] == ps[1];
  }

  lemma QuoteEnds(doc: string, pos: nat)
    requires pos < |doc| && doc[pos] == '\"'
    ensures ScanString(doc, pos) == Scan(true, pos + 1)
    ensures DecodeFrom(doc, pos, pos) == Good("")
  {
  }

  lemma StringReads(doc: string, pos: nat, ps: seq<Piece>, more: seq<string>)
    requires PiecesOK(ps) && pos <= |doc| && Laid(doc, pos, [Lexeme(ps)] + more)
    ensures ReadsAs(doc, pos, Lexeme(ps), Str, more) && |Lexeme(ps)| >= 2
    ensures DecodeString(doc, ReadToken(doc, pos)) == Good(Means(ps))
  {
    hide Laid, Text, Means, PiecesOK, DecodeFrom, ScanString;
    SpacesSkipped(doc, pos, Lexeme(ps), more);
    var p := AfterSpaces(doc, pos);
    assert Lexeme(ps) == "\"" + (Text(ps) + "\"");
    StandsApart(doc, p, "\"", Text(ps) + "\"");
    PiecesRead(doc, p + 1, ps);
  }

  // --------------------------------------------------------------------- numbers

  lemma IntegerReads(cfg: Config, s: string)
    requires IsInteger(s) && MinLargestInt <= IntegerOf(s) <= MaxLargestUInt
    ensures IsNumberText(s)
    ensures DecodeNumber(cfg.scan, s) == Good(Integer(IntegerOf(s)))
  {
    forall k | 0 <= k < |s|
      ensures IsNumberChar(s[k]) && (IsDigit(s[k]) || (k == 0 && s[k] == '-'))
    {
      if s[0] == '-' && k > 0 {
        assert s[k] == s[1..][k - 1];
      }
    }
    assert Unsigned(s) == if s[0] == '-' then s[1..] else s;
  }

  // ----------------------------------------------------------------------- trees

  lemma FirstReads(cfg: Config, doc: string, pos: nat, token: string, kind: Kind, more: seq<string>)
    requires pos <= |doc| && ReadsAs(doc, pos, token, kind, more) && !kind.Comment?
    ensures FirstToken(cfg.allowComments, doc, pos) == SkipComments(doc, pos) == ReadToken(doc, pos)
  {
    hide ReadToken;
  }

  /** The text from `pos` on is this one, followed by these tokens. */
  ghost predicate Shown(doc: string, pos: nat, t: Syntax, more: seq<string>) {
    pos <= |doc| && Laid(doc, pos, Spelling(t) + more) && Follow(more) && Grammatical(t)
  }

  /** Reading succeeded with this value and stopped before these tokens. */
  ghost predicate Arrives(doc: string, r: Parsed, v: Value, more: seq<string>)
    requires r.end <= |doc|
  {
    r.ok && r.value == v && Laid(doc, r.end, more)
  }

  lemma {:induction false} ReadBack(cfg: Config, doc: string, pos: nat, was: Value, t: Syntax, more: seq<string>)
    requires Shown(doc, pos, t, more)
    ensures Arrives(doc, ReadValue(cfg, doc, pos, was), Denotes(t), more)
    decreases t, 1
  {
    match t
    case SArray(_) => ArrayBack(cfg, doc, pos, was, t, more);
    case SObject(_) => ObjectBack(cfg, doc, pos, was, t, more);
    case _ => ScalarBack(cfg, doc, pos, was, t, more);
  }

  lemma ScalarBack(cfg: Config, doc: string, pos: nat, was: Value, t: Syntax, more: seq<string>)
    requires Shown(doc, pos, t, more) && !t.SArray? && !t.SObject?
    ensures Arrives(doc, ReadValue(cfg, doc, pos, was), Denotes(t), more)
  {
    hide Laid, ReadToken, FirstToken, SkipComments, DecodeNumber, DecodeString, Lexeme, IsNumberText, IsInteger;
    hide PiecesOK, Means;
    var text := Spelling(t)[0];
    assert Spelling(t) == [text];
    match t
    case SNumber(_) =>
      IntegerReads(cfg, text);
      NumberReads(doc, pos, text, more);
      FirstReads(cfg, doc, pos, text, Number, more);
    case SString(ps) =>
      StringReads(doc, pos, ps, more);
      FirstReads(cfg, doc, pos, text, Str, more);
    case SNull =>
      WordReads(doc, pos, text, more);
      FirstReads(cfg, doc, pos, text, Kind.Null, more);
    case SBool(b) =>
      WordReads(doc, pos, text, more);
      FirstReads(cfg, doc, pos, text, if b then True else False, more);
  }

  lemma {:induction false} ArrayBack(cfg: Config, doc: string, pos: nat, was: Value, t: Syntax, more: seq<string>)
    requires Shown(doc, pos, t, more) && t.SArray?
    ensures Arrives(doc, ReadValue(cfg, doc, pos, was), Denotes(t), more)
    decreases t, 0
  {
    hide Laid, ReadToken, FirstToken, SkipComments, ReadItems, ItemSpelling, GrammaticalItems, DenotesItems;
    var items := t.items;
    var after := ItemSpelling(items, true) + (["]"] + more);
    assert Spelling(t) + more == ["["] + after;
    PunctuationReads(doc, pos, '[', after);
    FirstReads(cfg, doc, pos, "[", ArrayBegin, after);
    var token := ReadToken(doc, pos);
    var p := AfterSpaces(doc, token.end);
    if items == [] {
      NoItems();
      assert after == ["]"] + more;
      SpacesSkipped(doc, token.end, "]", more);
      AtVisible(doc, token.end, "]", more);
      PunctuationReads(doc, p, ']', more);
    } else {
      FirstItemBack(cfg, doc, token.end, items, more);
    }
  }

  lemma {:induction false} FirstItemBack(cfg: Config, doc: string, pos: nat, items: seq<Syntax>, more: seq<string>)
    requires items != [] && GrammaticalItems(items)
    requires pos <= |doc| && Laid(doc, pos, ItemSpelling(items, true) + (["]"] + more))
    ensures var p := AfterSpaces(doc, pos);
      Peek(doc, cfg.behind, p) != ']' && Arrives(doc, ReadItems(cfg, doc, p, []), Array(DenotesItems(items)), more)
    decreases items, 1
  {
    hide Laid, ReadItems, ItemSpelling, Grammatical, GrammaticalItems, Spelling, DenotesItems;
    ItemsHead(items);
    Regroup(Spelling(items[0]), ItemSpelling(items[1..], false), ["]"] + more);
    ValueBegins(items[0]);
    var head, tail := Spelling(items[0]), ItemSpelling(items[1..], false) + (["]"] + more);
    var rest := head[1..] + tail;
    assert head + tail == [head[0]] + rest;
    SpacesSkipped(doc, pos, head[0], rest);
    AtVisible(doc, pos, head[0], rest);
    ItemsBack(cfg, doc, AfterSpaces(doc, pos), [], items, more);
    assert [] + DenotesItems(items) == DenotesItems(items);
  }

  lemma NoItems()
    ensures ItemSpelling([], true) == [] && GrammaticalItems([]) && DenotesItems([]) == []
  {
  }

  lemma {:induction false} ItemsHead(items: seq<Syntax>)
    requires items != [] && GrammaticalItems(items)
    ensures Grammatical(items[0]) && GrammaticalItems(items[1..])
    ensures ItemSpelling(items, true) == Spelling(items[0]) + ItemSpelling(items[1..], false)
    ensures ItemSpelling(items, false) == [","] + (Spelling(items[0]) + ItemSpelling(items[1..], false))
    ensures DenotesItems(items) == [Denotes(items[0])] + DenotesItems(items[1..])
  {
    hide Spelling, Denotes, Grammatical;
  }

  /** Skipping white space once more changes nothing. */
  lemma AtVisible(doc: string, pos: nat, token: string, more: seq<string>)
    requires pos <= |doc| && Visible(token)
    requires var p := AfterSpaces(doc, pos); StandsAt(doc, p, token) && Laid(doc, p + |token|, more)
    ensures Laid(doc, AfterSpaces(doc, pos), [token] + more)
  {
    assert ([token] + more)[1..] == more;
  }

  /** Every value begins with a visible character that closes nothing. */
  lemma {:induction false} ValueBegins(t: Syntax)
    requires Grammatical(t)
    ensures Spelling(t) != [] && Visible(Spelling(t)[0]) && Spelling(t)[0][0] != ']'
  {
    if t.SNumber? {
      NumberBegins(t.text);
    }
  }

  lemma NumberBegins(s: string)
    requires IsInteger(s)
    ensures s != [] && (IsDigit(s[0]) || s[0] == '-')
  {
  }

  lemma {:induction false} ItemsBack(cfg: Config, doc: string, pos: nat, done: seq<Value>, items: seq<Syntax>,
      more: seq<string>)
    requires items != [] && GrammaticalItems(items)
    requires pos <= |doc| && Laid(doc, pos, Spelling(items[0]) + (ItemSpelling(items[1..], false) + (["]"] + more)))
    ensures Arrives(doc, ReadItems(cfg, doc, pos, done), Array(done + DenotesItems(items)), more)
    decreases items, 0
  {
    hide Laid, ReadToken, FirstToken, SkipComments, ReadValue, Grammatical, GrammaticalItems, Spelling, ItemSpelling;
    hide Denotes, DenotesItems;
    var rest := items[1..];
    var after := ItemSpelling(rest, false) + (["]"] + more);
    ItemsHead(items);
    ItemsFollow(rest, more);
    ReadBack(cfg, doc, pos, Value.Null, items[0], after);
    var child := ReadValue(cfg, doc, pos, Value.Null);
    var all := done + [child.value];
    Regroup(done, [child.value], DenotesItems(rest));
    if rest == [] {
      assert after == ["]"] + more;
      PunctuationReads(doc, child.end, ']', more);
      FirstReads(cfg, doc, child.end, "]", ArrayEnd, more);
      NoItems();
      assert all + DenotesItems(rest) == all;
    } else {
      ItemsHead(rest);
      var next := Spelling(rest[0]) + (ItemSpelling(rest[1..], false) + (["]"] + more));
      assert after == [","] + next;
      PunctuationReads(doc, child.end, ',', next);
      FirstReads(cfg, doc, child.end, ",", Comma, next);
      ItemsBack(cfg, doc, SkipComments(doc, child.end).end, all, rest, more);
    }
  }

  lemma ItemsFollow(rest: seq<Syntax>, more: seq<string>)
    ensures Follow(ItemSpelling(rest, false) + (["]"] + more))
    ensures rest == [] ==> ItemSpelling(rest, false) == []
  {
  }

  lemma {:induction false} ObjectBack(cfg: Config, doc: string, pos: nat, was: Value, t: Syntax, more: seq<string>)
    requires Shown(doc, pos, t, more) && t.SObject?
    ensures Arrives(doc, ReadValue(cfg, doc, pos, was), Denotes(t), more)
    decreases t, 0
  {
    hide Laid, ReadToken, FirstToken, SkipComments, ReadMembers, MemberSpelling, GrammaticalMembers, NameSpelling;
    hide Gather;
    var members := t.members;
    var after := MemberSpelling(members, true) + (["}"] + more);
    assert Spelling(t) + more == ["{"] + after;
    PunctuationReads(doc, pos, '{', after);
    FirstReads(cfg, doc, pos, "{", ObjectBegin, after);
    var token := ReadToken(doc, pos);
    if members == [] {
      EmptyObjectBack(cfg, doc, token.end, more);
    } else {
      MembersHead([], members);
      Regroup(NameSpelling(members[0].name) + Spelling(members[0].value), MemberSpelling(members[1..], false),
          ["}"] + more);
      MembersBack(cfg, doc, token.end, [], true, members, more);
    }
  }

  lemma {:induction false} EmptyObjectBack(cfg: Config, doc: string, pos: nat, more: seq<string>)
    requires pos <= |doc| && Laid(doc, pos, MemberSpelling([], true) + (["}"] + more))
    ensures Gather([], []) == []
    ensures Arrives(doc, ReadMembers(cfg, doc, pos, [], true), Object([]), more)
  {
    hide Laid, ReadToken, SkipComments;
    assert MemberSpelling([], true) + (["}"] + more) == ["}"] + more;
    PunctuationReads(doc, pos, '}', more);
    FirstReads(cfg, doc, pos, "}", ObjectEnd, more);
  }

  lemma {:induction false} MembersHead(done: seq<Member>, members: seq<SMember>)
    requires members != [] && GrammaticalMembers(members)
    ensures var m := members[0];
      && PiecesOK(m.name) && Grammatical(m.value) && GrammaticalMembers(members[1..])
      && MemberSpelling(members, true) == NameSpelling(m.name) + Spelling(m.value) + MemberSpelling(members[1..], false)
      && MemberSpelling(members, false)
         == [","] + (NameSpelling(m.name) + Spelling(m.value) + MemberSpelling(members[1..], false))
      && Gather(done, members) == Gather(Put(done, CString(Means(m.name)), Denotes(m.value)), members[1..])
  {
    hide Spelling, NameSpelling, Denotes, Grammatical, PiecesOK, Means, CString, Put;
  }

  lemma {:induction false} MembersBack(cfg: Config, doc: string, pos: nat, done: seq<Member>, unnamed: bool,
                                       members: seq<SMember>, more: seq<string>)
    requires members != [] && GrammaticalMembers(members) && pos <= |doc|
    requires Laid(doc, pos, NameSpelling(members[0].name) + Spelling(members[0].value)
                            + (MemberSpelling(members[1..], false) + (["}"] + more)))
    ensures Arrives(doc, ReadMembers(cfg, doc, pos, done, unnamed), Object(Gather(done, members)), more)
    decreases members, 1
  {
    hide Laid, ReadToken, FirstToken, SkipComments, ReadValue, Grammatical, GrammaticalMembers, Spelling;
    hide MemberSpelling;
    hide AfterMember, Put, Find, DecodeString, Lexeme, NameSpelling, CString, Denotes, Gather, Means, PiecesOK;
    var m, rest := members[0], members[1..];
    var after := MemberSpelling(rest, false) + (["}"] + more);
    MembersHead(done, members);
    NameReads(cfg, doc, pos, m, after);
    var t := ReadToken(doc, pos);
    var colon := ReadToken(doc, t.end);
    MembersFollow(rest, more);
    var key := CString(Means(m.name));
    ReadBack(cfg, doc, colon.end, Find(done, key), m.value, after);
    var child := ReadValue(cfg, doc, colon.end, Find(done, key));
    AfterBack(cfg, doc, pos, Put(done, key, child.value), Means(m.name) == "", child, rest, more);
  }

  lemma MembersFollow(rest: seq<SMember>, more: seq<string>)
    ensures Follow(MemberSpelling(rest, false) + (["}"] + more))
    ensures rest == [] ==> MemberSpelling(rest, false) == []
  {
  }

  /** A name and its colon. */
  lemma {:induction false} NameReads(cfg: Config, doc: string, pos: nat, m: SMember, after: seq<string>)
    requires pos <= |doc| && PiecesOK(m.name)
    requires Laid(doc, pos, NameSpelling(m.name) + Spelling(m.value) + after)
    ensures var t := ReadToken(doc, pos);
      && t.kind.Str? && SkipComments(doc, pos) == t
      && t.start + 2 <= t.end && DecodeString(doc, t) == Good(Means(m.name))
      && var colon := ReadToken(doc, t.end);
      && colon.kind.Colon? && Laid(doc, colon.end, Spelling(m.value) + after)
  {
    hide Laid, ReadToken, SkipComments, DecodeString, Lexeme, Spelling, PiecesOK, Means;
    var value := Spelling(m.value) + after;
    assert NameSpelling(m.name) + Spelling(m.value) + after == [Lexeme(m.name)] + ([":"] + value);
    StringReads(doc, pos, m.name, [":"] + value);
    FirstReads(cfg, doc, pos, Lexeme(m.name), Str, [":"] + value);
    PunctuationReads(doc, ReadToken(doc, pos).end, ':', value);
  }

  lemma {:induction false} AfterBack(cfg: Config, doc: string, pos: nat, all: seq<Member>, unnamed: bool, child: Parsed,
                                     rest: seq<SMember>, more: seq<string>)
    requires pos < child.end <= |doc| && child.ok && child.errors == [] && GrammaticalMembers(rest)
    requires Laid(doc, child.end, MemberSpelling(rest, false) + (["}"] + more))
    ensures Arrives(doc, AfterMember(cfg, doc, pos, all, unnamed, child), Object(Gather(all, rest)), more)
    decreases rest, 2
  {
    hide Laid, ReadToken, FirstToken, SkipComments, ReadMembers, Grammatical, GrammaticalMembers, Spelling;
    hide MemberSpelling;
    hide NameSpelling, Denotes, Gather, Means, PiecesOK, Put, CString;
    var after := MemberSpelling(rest, false) + (["}"] + more);
    MembersFollow(rest, more);
    if rest == [] {
      assert after == ["}"] + more;
      PunctuationReads(doc, child.end, '}', more);
      GatherNone(all);
    } else {
      MembersHead(all, rest);
      var next := NameSpelling(rest[0].name) + Spelling(rest[0].value) + (MemberSpelling(rest[1..],
          false) + (["}"] + more));
      assert after == [","] + next;
      PunctuationReads(doc, child.end, ',', next);
      MembersBack(cfg, doc, ReadToken(doc, child.end).end, all, unnamed, rest, more);
    }
  }

  // ------------------------------------------------------------- whole documents

  predicate RootAllowed(cfg: Config, v: Value) {
    cfg.strictRoot ==> v.Array? || v.Object?
  }

  /** However a text of the grammar is laid out, with any escapes, members in any order and names
      repeated, parsing reads the whole document and yields the tree the text means; it fails only
      where the strict mode refuses the root. */
  lemma {:induction false} GrammarParses(cfg: Config, doc: string, was: Value, t: Syntax)
    requires Grammatical(t) && Laid(doc, 0, Spelling(t))
    ensures var r := Parse(cfg, doc, was);
      r.value == Denotes(t) && r.end == |doc| && (r.ok <==> RootAllowed(cfg, Denotes(t)))
  {
    hide Laid, ReadValue, Spelling, ReadToken, Grammatical, Denotes;
    assert Spelling(t) + [] == Spelling(t);
    ReadBack(cfg, doc, 0, was, t, []);
    NothingLeft(cfg, doc, ReadValue(cfg, doc, 0, was).end);
  }

  /** In particular the tokens of a tree, however laid out, yield the tree with its integers re-typed
      and its strings cut at a NUL. */
  lemma {:induction false} LayoutParses(cfg: Config, doc: string, was: Value, v: Value)
    requires WellFormed(v) && Exact(v) && Laid(doc, 0, Tokens(v))
    ensures var r := Parse(cfg, doc, was);
      r.value == Stored(v) && r.end == |doc| && (r.ok <==> RootAllowed(cfg, v))
  {
    hide Laid, Parse, Tokens, Spelling, WellFormed, Exact, Own, Denotes, Grammatical;
    OwnIs(v);
    GrammarParses(cfg, doc, was, Own(v));
    SameRoot(v);
  }

  lemma SameRoot(v: Value)
    ensures (Stored(v).Array? <==> v.Array?) && (Stored(v).Object? <==> v.Object?)
  {
  }

  lemma NothingLeft(cfg: Config, doc: string, pos: nat)
    requires pos <= |doc| && Laid(doc, pos, [])
    ensures FirstToken(cfg.allowComments, doc, pos).end == |doc|
  {
    OnlySpaces(doc, pos);
  }

  lemma {:induction false} OnlySpaces(doc: string, pos: nat)
    requires pos <= |doc| && Laid(doc, pos, [])
    ensures AfterSpaces(doc, pos) == |doc|
    decreases |doc| - pos
  {
    if pos < |doc| {
      OnlySpaces(doc, pos + 1);
    }
  }

  /** Parsing a layout gives back the same tree, integers by value, exactly when no string of the
      tree is null and none holds a NUL. */
  lemma {:induction false} RoundTrip(cfg: Config, doc: string, was: Value, v: Value)
    requires WellFormed(v) && RealFree(v) && NullFree(was) && Laid(doc, 0, Tokens(v))
    ensures SameTree(v, Parse(cfg, doc, was).value) <==> StringsNulFree(v) && NullFree(v)
  {
    hide Parse, Laid, Tokens, SameTree, StringsNulFree, WellFormed, RealFree, NullFree;
    if NullFree(v) {
      LayoutParses(cfg, doc, was, v);
      StoredIsSame(v);
    } else {
      ParseNullFree(cfg, doc, was);
      if SameTree(v, Parse(cfg, doc, was).value) {
        SameNullFree(v, Parse(cfg, doc, was).value);
      }
    }
  }

  /** Whatever document a tree was read from, with or without errors, any layout of the tree is
      read back as exactly that tree. */
  lemma {:induction false} Reparse(cfg: Config, source: string, was: Value, doc: string)
    requires Readable(was)
    requires var v := Parse(cfg, source, was).value; Exact(v) && Laid(doc, 0, Tokens(v))
    ensures Parse(cfg, doc, was).value == Parse(cfg, source, was).value
  {
    hide Parse, Exact, Laid, Tokens;
    var v := Parse(cfg, source, was).value;
    ParseReadable(cfg, source, was);
    LayoutParses(cfg, doc, was, v);
  }

  /** A null string prints as nothing: an array of one is read back as the empty array. */
  lemma {:induction false} NullStringLost(cfg: Config, was: Value)
    ensures Concat(Tokens(Array([NullString]))) == "[]"
    ensures Parse(cfg, "[]", was).value == Array([])
  {
    hide Parse, Tokens, Concat, Laid;
    NullStringText();
    EmptyArrayLaid();
    LayoutParses(cfg, "[]", was, Array([]));
  }

  lemma NullStringText()
    ensures Concat(Tokens(Array([NullString]))) == "[]"
  {
    var items: seq<Value> := [NullString];
    assert items[1..] == [] && ItemTokens(items[1..], false) == [];
    assert ItemTokens(items, true) == [""];
    assert Tokens(Array(items)) == (["["] + [""]) + ["]"];
    ConcatAppend(["["] + [""], ["]"]);
    ConcatAppend(["["], [""]);
  }

  lemma EmptyArrayLaid()
    ensures WellFormed(Array([])) && Exact(Array([])) && Stored(Array([])) == Array([])
    ensures Laid("[]", 0, Tokens(Array([])))
  {
    assert Laid("", 0, []);
    LaidMore("", 0, [], "[");
    LaidMore("[", 0, ["["], "]");
    assert "" + "[" == "[" && "[" + "]" == "[]" && [] + ["["] == ["["];
    assert ["["] + ["]"] == Tokens(Array([]));
  }
}
