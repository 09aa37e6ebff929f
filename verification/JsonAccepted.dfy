/** A document parses exactly when it begins with a text of the language, and to what the text means. */
module JsonAccepted {
  import opened JsonValue
  import opened JsonText
  import opened JsonLexer
  import opened JsonStrings
  import opened JsonParser
  import opened JsonGrammar
  import opened JsonRoundTrip
  import opened JsonComments
  import opened JsonBeyond
  import opened JsonLanguage

  // ------------------------------------------------ what is read is in the language

  /** A value that is read was written as a text of the language, and is what it means. */
  lemma {:induction false} ReadSound(cfg: Config, doc: string, pos: nat, was: Value) returns (t: Phrase)
    requires pos <= |doc| && ReadValue(cfg, doc, pos, was).ok
    ensures var r := ReadValue(cfg, doc, pos, was);
      Admitted(cfg, t) && Scanned(doc, pos, Yield(t), r.end) && ValueOf(cfg, t) == r.value
    decreases |doc| - pos, 0
  {
    hide FirstToken, ReadToken, ReadMembers, ReadItems, DecodeNumber, DecodeString, AfterSpaces, Scanned, Comments;
    hide LeadOK, AdmittedItems, AdmittedMembers, ItemValues, Collect, YieldItems, YieldMembers, IsNumberText;
    hide IsLexeme, LooseOK, LooseMeans, NumberValue;
    var first := FirstToken(cfg.allowComments, doc, pos);
    var cs, l := LeadSound(cfg, doc, pos);
    LexemeTexts(l);
    var end := ReadValue(cfg, doc, pos, was).end;
    if first.kind.ObjectBegin? {
      var members, tail := MembersSound(cfg, doc, first.end, [], true);
      t := Record(cs, members, tail);
      JoinLead(doc, pos, cs, OpenBrace, first.end, YieldMembers(members, tail), end);
    } else if first.kind.ArrayBegin? {
      t := ListSound(cfg, doc, pos, first, cs);
    } else {
      t := ScalarSound(cfg, doc, pos, was, cs, l);
    }
  }

  lemma {:induction false} ScalarSound(cfg: Config, doc: string, pos: nat, was: Value, cs: seq<string>, l: Lex)
    returns (t: Phrase)
    requires pos <= |doc| && ReadValue(cfg, doc, pos, was).ok && LeadOK(cfg, cs) && IsLexeme(l)
    requires var first := FirstToken(cfg.allowComments, doc, pos);
      && !first.kind.ObjectBegin? && !first.kind.ArrayBegin?
      && TokenOf(doc, first, l) && Scanned(doc, pos, Comments(cs) + [l], first.end)
    ensures var r := ReadValue(cfg, doc, pos, was);
      Admitted(cfg, t) && Scanned(doc, pos, Yield(t), r.end) && ValueOf(cfg, t) == r.value
  {
    hide FirstToken, ReadToken, ReadMembers, ReadItems, DecodeNumber, DecodeString, Scanned, Comments, AfterSpaces;
    hide LeadOK, AdmittedItems, AdmittedMembers, IsLexeme, LooseOK, LooseMeans, NumberValue, IsNumberText, Lexeme;
    LexemeTexts(l);
    if l.kind.Number? {
      t := Phrase.Digits(cs, l.text);
      NumberIs(cfg.scan, l.text);
    } else if l.kind.Str? {
      var p := FirstFrom(cfg, doc, pos);
      var ps := QuoteSound(doc, p);
      t := Quote(cs, ps);
    } else {
      t := Phrase.Word(cs, l.kind);
    }
  }

  // The position from which a token is read that comments were skipped before.
  lemma {:induction false} SkipFrom(doc: string, pos: nat) returns (p: nat)
    requires pos <= |doc|
    ensures p <= |doc| && SkipComments(doc, pos) == ReadToken(doc, p)
    decreases |doc| - pos
  {
    hide ReadToken;
    p := pos;
    if ReadToken(doc, pos).kind.Comment? {
      p := SkipFrom(doc, ReadToken(doc, pos).end);
    }
  }

  lemma {:induction false} FirstFrom(cfg: Config, doc: string, pos: nat) returns (p: nat)
    requires pos <= |doc|
    ensures p <= |doc| && FirstToken(cfg.allowComments, doc, pos) == ReadToken(doc, p)
  {
    hide ReadToken, SkipComments;
    p := pos;
    if cfg.allowComments {
      p := SkipFrom(doc, pos);
    }
  }

  lemma {:induction false} QuoteSound(doc: string, p: nat) returns (ps: seq<Piece>)
    requires p <= |doc| && ReadToken(doc, p).kind.Str?
    requires ReadToken(doc, p).start + 2 <= ReadToken(doc, p).end && DecodeString(doc, ReadToken(doc, p)).Good?
    ensures var t := ReadToken(doc, p);
      LooseOK(ps) && doc[t.start..t.end] == Lexeme(ps) && DecodeString(doc, t) == Good(LooseMeans(ps))
  {
    hide DecodeFrom, LooseOK, LooseMeans, Text;
    var t := ReadToken(doc, p);
    StringStands(doc, p);
    ps := DecodeSound(doc, t.start + 1, t.end - 1);
    assert doc[t.start..t.end] == "\"" + doc[t.start + 1..t.end - 1] + "\"";
  }

  lemma {:induction false} StringStands(doc: string, p: nat)
    requires p <= |doc| && ReadToken(doc, p).kind.Str?
    ensures var t := ReadToken(doc, p);
      && t.start + 2 <= t.end && doc[t.start] == '\"' && doc[t.end - 1] == '\"'
      && ScanString(doc, t.start + 1) == Scan(true, t.end)
  {
    hide AfterSpaces, ScanString, ScanComment, NumberEnd, ScanWord;
    var t := ReadToken(doc, p);
    StringIs(doc, t.start + 1);
  }

  lemma {:induction false} ListSound(cfg: Config, doc: string, pos: nat, first: Token,
      cs: seq<string>) returns (t: Phrase)
    requires pos < first.end <= |doc| && LeadOK(cfg, cs) && Scanned(doc, pos, Comments(cs) + [OpenBracket], first.end)
    requires var p := AfterSpaces(doc, first.end);
      Peek(doc, cfg.behind, p) == ']' || ReadItems(cfg, doc, p, []).ok
    ensures var p := AfterSpaces(doc, first.end);
      var r := if Peek(doc, cfg.behind, p) == ']' then Parsed(true, Array([]), ReadToken(doc, p).end, [])
               else ReadItems(cfg, doc, p, []);
      Admitted(cfg, t) && Scanned(doc, pos, Yield(t), r.end) && ValueOf(cfg, t) == r.value
    decreases |doc| - first.end, 2
  {
    hide ReadToken, ReadItems, AfterSpaces, Scanned, Comments, LeadOK, AdmittedItems, ItemValues;
    var p := AfterSpaces(doc, first.end);
    if Peek(doc, cfg.behind, p) == ']' {
      BracketNext(cfg, doc, first.end);
      var close := if p < |doc| then CloseBracket else Lex(EndOfStream, "");
      JoinLead(doc, pos, cs, OpenBracket, first.end, [close], ReadToken(doc, p).end);
      NoListItems(cfg);
      assert [OpenBracket] + [close] == [OpenBracket, close];
      t := if p < |doc| then List(cs, []) else Open(cs);
    } else {
      var items := ItemsSound(cfg, doc, p, []);
      var end := ReadItems(cfg, doc, p, []).end;
      YieldsSome(items);
      ScannedSpaces(doc, first.end, YieldItems(items), end);
      JoinLead(doc, pos, cs, OpenBracket, first.end, YieldItems(items), end);
      assert [] + ItemValues(cfg, items) == ItemValues(cfg, items);
      t := List(cs, items);
    }
  }

  lemma {:induction false} NoListItems(cfg: Config)
    ensures AdmittedItems(cfg, []) && ItemValues(cfg, []) == [] && YieldItems([]) == [CloseBracket]
  {
  }

  lemma {:induction false} YieldsSome(items: seq<Item>)
    ensures YieldItems(items) != []
  {
    hide Comments, Yield;
    if items != [] {
      YieldHead(items[0].value);
      assert |YieldItems(items)| >= |Yield(items[0].value)|;
    }
  }

  lemma {:induction false} YieldHead(t: Phrase)
    ensures Yield(t) != [] && (!t.Word? || t.kind.True? || t.kind.False? || t.kind.Null? ==>
                                 !Yield(t)[0].kind.ArrayEnd? && !Yield(t)[0].kind.EndOfStream?)
  {
    hide YieldItems, YieldMembers, Lexeme;
    assert Body(t) != [];
    if t.lead != [] {
      assert Comments(t.lead)[0] == Lex(Comment, t.lead[0]);
    } else {
      assert Yield(t) == Body(t);
    }
  }

  // A bracket, in the document or behind it.
  lemma {:induction false} BracketNext(cfg: Config, doc: string, pos: nat)
    requires pos <= |doc| && Peek(doc, cfg.behind, AfterSpaces(doc, pos)) == ']'
    ensures var p := AfterSpaces(doc, pos);
      && ReadToken(doc, p).end <= |doc|
      && Scanned(doc, pos, [if p < |doc| then CloseBracket else Lex(EndOfStream, "")], ReadToken(doc, p).end)
  {
    hide AfterSpaces;
    var p := AfterSpaces(doc, pos);
    var close := if p < |doc| then CloseBracket else Lex(EndOfStream, "");
    SpacesTwice(doc, pos);
    var t := ReadToken(doc, pos);
    assert t == ReadToken(doc, p) && t.start == p;
    assert doc[t.start..t.end] == close.text;
    ScannedOne(doc, pos, close, [], t.end);
    assert [close] + [] == [close];
  }

  lemma {:induction false} ItemsSound(cfg: Config, doc: string, pos: nat, done: seq<Value>) returns (items: seq<Item>)
    requires pos <= |doc| && ReadItems(cfg, doc, pos, done).ok
    ensures var r := ReadItems(cfg, doc, pos, done);
      && items != [] && AdmittedItems(cfg, items) && Scanned(doc, pos, YieldItems(items), r.end)
      && r.value == Array(done + ItemValues(cfg, items))
    decreases |doc| - pos, 1
  {
    hide ReadValue, SkipComments, Scanned, Comments, Admitted, ValueOf, Yield, CommentText, IsLexeme, IsNumberText;
    var child := ReadValue(cfg, doc, pos, Value.Null);
    var value := ReadSound(cfg, doc, pos, Value.Null);
    var gap, l := SkipSound(doc, child.end);
    LexemeTexts(l);
    var t := SkipComments(doc, child.end);
    var end := ReadItems(cfg, doc, pos, done).end;
    if t.kind.Comma? {
      var rest := ItemsSound(cfg, doc, t.end, done + [child.value]);
      items := [Item(value, gap)] + rest;
      assert items[1..] == rest;
      JoinLead(doc, child.end, gap, ItemComma, t.end, YieldItems(rest), end);
      ScannedJoin(doc, pos, Yield(value), child.end, Comments(gap) + ([ItemComma] + YieldItems(rest)), end);
      Regroup(done, [child.value], ItemValues(cfg, rest));
    } else {
      items := [Item(value, gap)];
      assert items[1..] == [];
      NoListItems(cfg);
      ScannedJoin(doc, pos, Yield(value), child.end, Comments(gap) + [CloseBracket], end);
      assert [child.value] + [] == [child.value];
    }
  }

  lemma {:induction false} LexemeTexts(l: Lex)
    requires IsLexeme(l)
    ensures l.kind.Comma? ==> l == ItemComma
    ensures l.kind.Colon? ==> l == NameColon
    ensures l.kind.ObjectEnd? ==> l == CloseBrace
    ensures l.kind.ArrayEnd? ==> l == CloseBracket
    ensures l.kind.ObjectBegin? ==> l == OpenBrace
    ensures l.kind.ArrayBegin? ==> l == OpenBracket
    ensures l.kind.True? ==> l.text == "true"
    ensures l.kind.False? ==> l.text == "false"
    ensures l.kind.Null? ==> l.text == "null"
  {
  }

  /** The rest of an object, from behind its brace or a separator. */
  lemma {:induction false} MembersSound(cfg: Config, doc: string, pos: nat, done: seq<Member>, unnamed: bool)
    returns (members: seq<Entry>, tail: seq<string>)
    requires pos <= |doc| && ReadMembers(cfg, doc, pos, done, unnamed).ok
    ensures var r := ReadMembers(cfg, doc, pos, done, unnamed);
      && AdmittedMembers(cfg, members, tail, unnamed) && Scanned(doc, pos, YieldMembers(members, tail), r.end)
      && r.value == Object(Collect(cfg, done, members, tail, unnamed))
    decreases |doc| - pos, 1
  {
    hide ReadValue, SkipComments, ReadToken, Scanned, Comments, Admitted, ValueOf, Yield, CommentText, IsLexeme;
    hide IsNumberText, AfterMember, DecodeFrom, LooseOK, LooseMeans, Put, Find, CString, Lexeme;
    var lead, l := SkipSound(doc, pos);
    LexemeTexts(l);
    var t := SkipComments(doc, pos);
    if t.kind.ObjectEnd? {
      members, tail := [], lead;
      return;
    }
    var name, p := QuoteHere(doc, pos);
    var colon := ReadToken(doc, t.end);
    ColonSound(doc, t.end);
    var key := CString(LooseMeans(name));
    var child := ReadValue(cfg, doc, colon.end, Find(done, key));
    var all := Put(done, key, child.value);
    var end := ReadMembers(cfg, doc, pos, done, unnamed).end;
    ChildOK(cfg, doc, pos, all, LooseMeans(name) == "", child);
    var value := ReadSound(cfg, doc, colon.end, Find(done, key));
    var gap, mark, mid, rest, last := AfterSound(cfg, doc, pos, all, LooseMeans(name) == "", child);
    members, tail := [Entry(lead, name, value, gap, mark)] + rest, last;
    assert members[1..] == rest;
    var after := if mark.kind.ObjectEnd? then [] else YieldMembers(rest, tail);
    ScannedSelf(doc, end);
    JoinLead(doc, child.end, gap, mark, mid, after, end);
    ScannedJoin(doc, colon.end, Yield(value), child.end, Comments(gap) + ([mark] + after), end);
    ScannedOne(doc, t.end, NameColon, Yield(value) + (Comments(gap) + ([mark] + after)), end);
    JoinLead(doc, pos, lead, Lex(Str, Lexeme(name)), t.end,
        [NameColon] + (Yield(value) + (Comments(gap) + ([mark] + after))), end);
  }

  lemma {:induction false} ScannedSelf(doc: string, pos: nat)
    requires pos <= |doc|
    ensures Scanned(doc, pos, [], pos)
  {
  }

  lemma {:induction false} QuoteHere(doc: string, pos: nat) returns (ps: seq<Piece>, p: nat)
    requires pos <= |doc| && SkipComments(doc, pos).kind.Str? && DecodeString(doc, SkipComments(doc, pos)).Good?
    ensures var t := SkipComments(doc, pos);
      LooseOK(ps) && doc[t.start..t.end] == Lexeme(ps) && DecodeString(doc, t) == Good(LooseMeans(ps))
  {
    hide ReadToken, SkipComments, DecodeString, LooseOK, LooseMeans, Lexeme;
    p := SkipFrom(doc, pos);
    ps := QuoteSound(doc, p);
  }

  lemma {:induction false} ColonSound(doc: string, pos: nat)
    requires pos <= |doc| && ReadToken(doc, pos).kind.Colon?
    ensures TokenOf(doc, ReadToken(doc, pos), NameColon)
  {
    hide ReadToken, IsNumberText, CommentText;
    TokenIs(doc, pos);
  }

  lemma {:induction false} ChildOK(cfg: Config, doc: string, pos: nat, all: seq<Member>, unnamed: bool, child: Parsed)
    requires pos < child.end <= |doc| && (child.ok <==> child.errors == [])
    requires AfterMember(cfg, doc, pos, all, unnamed, child).ok
    ensures child.ok
  {
    hide ReadMembers, ReadToken;
  }

  /** What stands behind a member, and the rest of its object. */
  lemma {:induction false} AfterSound(cfg: Config, doc: string, pos: nat, all: seq<Member>, unnamed: bool,
      child: Parsed)
    returns (gap: seq<string>, mark: Lex, mid: nat, rest: seq<Entry>, tail: seq<string>)
    requires pos < child.end <= |doc| && (child.ok <==> child.errors == [])
    requires AfterMember(cfg, doc, pos, all, unnamed, child).ok
    ensures CommentsOK(gap) && IsLexeme(mark) && !mark.kind.Comment?
    ensures gap == [] ==> mark == ItemComma || mark == CloseBrace
    ensures mid <= |doc| && Scanned(doc, child.end, Comments(gap) + [mark], mid)
    ensures var r := AfterMember(cfg, doc, pos, all, unnamed, child);
      if mark.kind.ObjectEnd? then mid == r.end && rest == [] && tail == [] && r.value == Object(all)
      else
        && AdmittedMembers(cfg, rest, tail, unnamed) && Scanned(doc, mid, YieldMembers(rest, tail), r.end)
        && r.value == Object(Collect(cfg, all, rest, tail, unnamed))
    decreases |doc| - pos, 0
  {
    hide ReadMembers, ReadToken, SkipComments, Scanned, Comments, AdmittedMembers, YieldMembers, Collect;
    hide IsLexeme, CommentText;
    rest, tail := [], [];
    var t := ReadToken(doc, child.end);
    gap, mark := GapSound(doc, child.end);
    LexemeTexts(mark);
    var last := if t.kind.Comment? then SkipComments(doc, t.end) else t;
    mid := last.end;
    if !last.kind.ObjectEnd? {
      rest, tail := MembersSound(cfg, doc, last.end, all, unnamed);
    }
  }

  lemma {:induction false} GapSound(doc: string, pos: nat) returns (gap: seq<string>, mark: Lex)
    requires pos <= |doc|
    ensures var t := ReadToken(doc, pos);
      var last := if t.kind.Comment? then SkipComments(doc, t.end) else t;
      && TokenOf(doc, last, mark) && IsLexeme(mark) && CommentsOK(gap) && (gap == [] <==> !t.kind.Comment?)
      && Scanned(doc, pos, Comments(gap) + [mark], last.end)
  {
    hide ReadToken, IsLexeme, CommentText, Scanned, Comments;
    gap, mark := SkipSound(doc, pos);
    GapComments(doc, pos, gap, mark);
  }

  lemma {:induction false} GapComments(doc: string, pos: nat, gap: seq<string>, mark: Lex)
    requires pos <= |doc| && !mark.kind.Comment? && Scanned(doc, pos, Comments(gap) + [mark], SkipComments(doc,
        pos).end)
    ensures gap == [] <==> !ReadToken(doc, pos).kind.Comment?
  {
    hide ReadToken, SkipComments;
    if gap != [] {
      assert (Comments(gap) + [mark])[0] == Lex(Comment, gap[0]);
    } else {
      assert Comments(gap) + [mark] == [mark];
    }
  }

  // ------------------------------------------------ what is in the language is read

  /** Where the lexemes of a text of the language stand, its value is read. */
  lemma {:induction false} ReadComplete(cfg: Config, doc: string, pos: nat, was: Value, t: Phrase, end: nat)
    requires pos <= |doc| && Admitted(cfg, t) && Scanned(doc, pos, Yield(t), end)
    ensures end <= |doc| && ReadValue(cfg, doc, pos, was) == Parsed(true, ValueOf(cfg, t), end, [])
    decreases t, 1
  {
    hide FirstToken, ReadToken, ReadMembers, ReadItems, DecodeNumber, DecodeString, AfterSpaces, Scanned, Comments;
    hide LeadOK, AdmittedItems, AdmittedMembers, ItemValues, Collect, YieldItems, YieldMembers, IsNumberText;
    hide IsLexeme, LooseOK, LooseMeans, NumberValue, Lexeme;
    ScannedBounds(doc, pos, Yield(t), end);
    match t
    case Record(cs, members, tail) =>
      var mid := SplitLead(doc, pos, cs, OpenBrace, YieldMembers(members, tail), end);
      LeadComplete(cfg, doc, pos, cs, OpenBrace, mid);
      MembersComplete(cfg, doc, mid, [], members, tail, true, end);
    case List(cs, items) => ListComplete(cfg, doc, pos, was, t, end);
    case Open(cs) => OpenComplete(cfg, doc, pos, was, t, end);
    case _ => ScalarComplete(cfg, doc, pos, was, t, end);
  }

  lemma {:induction false} ScalarComplete(cfg: Config, doc: string, pos: nat, was: Value, t: Phrase, end: nat)
    requires pos <= |doc| && Admitted(cfg, t) && Scanned(doc, pos, Yield(t), end)
    requires t.Word? || t.Digits? || t.Quote?
    ensures end <= |doc| && ReadValue(cfg, doc, pos, was) == Parsed(true, ValueOf(cfg, t), end, [])
  {
    hide FirstToken, ReadToken, ReadMembers, ReadItems, DecodeNumber, Scanned, Comments, AfterSpaces, DecodeFrom;
    hide LeadOK, IsLexeme, LooseOK, LooseMeans, NumberValue, IsNumberText, Text;
    var l := Body(t)[0];
    assert Body(t) == [l];
    LeadComplete(cfg, doc, pos, t.lead, l, end);
    var first := FirstToken(cfg.allowComments, doc, pos);
    match t
    case Digits(_, text) => NumberIs(cfg.scan, text);
    case Quote(_, ps) =>
      Unquoted(doc, first.start, first.end, Text(ps));
      DecodeComplete(doc, first.start + 1, first.end - 1, ps);
    case _ =>
  }

  lemma {:induction false} Unquoted(doc: string, start: nat, end: nat, s: string)
    requires start <= end <= |doc| && doc[start..end] == "\"" + s + "\""
    ensures start + 2 <= end && doc[start + 1..end - 1] == s
  {
    var all := doc[start..end];
    assert |all| == |s| + 2;
    forall k | 0 <= k < |s| ensures doc[start + 1..end - 1][k] == s[k] {
      assert doc[start + 1 + k] == all[1 + k];
    }
  }

  lemma {:induction false} ListComplete(cfg: Config, doc: string, pos: nat, was: Value, t: Phrase, end: nat)
    requires pos <= |doc| && t.List? && Admitted(cfg, t) && Scanned(doc, pos, Yield(t), end)
    ensures end <= |doc| && ReadValue(cfg, doc, pos, was) == Parsed(true, ValueOf(cfg, t), end, [])
    decreases t, 0
  {
    hide FirstToken, ReadToken, ReadMembers, ReadItems, AfterSpaces, Scanned, Comments, LeadOK, AdmittedItems;
    hide ItemValues, YieldItems;
    var cs, items := t.lead, t.items;
    var mid := SplitLead(doc, pos, cs, OpenBracket, YieldItems(items), end);
    LeadComplete(cfg, doc, pos, cs, OpenBracket, mid);
    var p := AfterSpaces(doc, mid);
    YieldsSome(items);
    ScannedSpaces(doc, mid, YieldItems(items), end);
    ScannedBounds(doc, p, YieldItems(items), end);
    if items == [] {
      NoListItems(cfg);
      assert [CloseBracket] == [CloseBracket] + [];
      ScannedOne(doc, p, CloseBracket, [], end);
      ScannedNothing(doc, ReadToken(doc, p).end, end);
      BracketStands(doc, mid);
    } else {
      ItemsBegin(cfg, doc, mid, items, end);
      ItemsComplete(cfg, doc, p, [], items, end);
      assert [] + ItemValues(cfg, items) == ItemValues(cfg, items);
    }
  }

  lemma {:induction false} ScannedNothing(doc: string, pos: nat, end: nat)
    requires pos <= |doc| && Scanned(doc, pos, [], end)
    ensures end == pos
  {
  }

  lemma {:induction false} BracketStands(doc: string, pos: nat)
    requires pos <= |doc| && ReadToken(doc, AfterSpaces(doc, pos)).kind.ArrayEnd?
    ensures var p := AfterSpaces(doc, pos); p < |doc| && doc[p] == ']'
  {
    SpacesTwice(doc, pos);
  }

  // The first lexeme of an item is no closing bracket.
  lemma {:induction false} ItemsBegin(cfg: Config, doc: string, pos: nat, items: seq<Item>, end: nat)
    requires pos <= |doc| && items != [] && AdmittedItems(cfg, items) && Scanned(doc, pos, YieldItems(items), end)
    ensures Peek(doc, cfg.behind, AfterSpaces(doc, pos)) != ']' || AfterSpaces(doc, pos) == |doc|
    ensures AfterSpaces(doc, pos) < |doc|
  {
    hide AfterSpaces, Yield, Comments, LeadOK, AdmittedMembers;
    var ls := YieldItems(items);
    YieldHead(items[0].value);
    assert ls[0] == Yield(items[0].value)[0];
    assert ls == [ls[0]] + ls[1..];
    ScannedOne(doc, pos, ls[0], ls[1..], end);
    HeadStands(doc, pos);
  }

  lemma {:induction false} HeadStands(doc: string, pos: nat)
    requires pos <= |doc|
    ensures AfterSpaces(doc, pos) == |doc| ==> ReadToken(doc, pos).kind.EndOfStream?
    ensures AfterSpaces(doc, pos) < |doc| && doc[AfterSpaces(doc, pos)] == ']' ==> ReadToken(doc, pos).kind.ArrayEnd?
  {
    hide AfterSpaces;
  }

  lemma {:induction false} OpenComplete(cfg: Config, doc: string, pos: nat, was: Value, t: Phrase, end: nat)
    requires pos <= |doc| && t.Open? && Admitted(cfg, t) && Scanned(doc, pos, Yield(t), end)
    ensures end <= |doc| && ReadValue(cfg, doc, pos, was) == Parsed(true, ValueOf(cfg, t), end, [])
  {
    hide FirstToken, ReadToken, ReadMembers, ReadItems, AfterSpaces, Scanned, Comments, LeadOK;
    var cs, eos := t.lead, Lex(EndOfStream, "");
    assert [OpenBracket, eos] == [OpenBracket] + [eos] && [eos] == [eos] + [];
    var mid := SplitLead(doc, pos, cs, OpenBracket, [eos], end);
    LeadComplete(cfg, doc, pos, cs, OpenBracket, mid);
    ScannedOne(doc, mid, eos, [], end);
    ScannedNothing(doc, ReadToken(doc, mid).end, end);
    EndStands(doc, mid);
  }

  lemma {:induction false} EndStands(doc: string, pos: nat)
    requires pos <= |doc| && TokenOf(doc, ReadToken(doc, pos), Lex(EndOfStream, ""))
    ensures AfterSpaces(doc, pos) == |doc| && ReadToken(doc, pos).end == ReadToken(doc, |doc|).end == |doc|
  {
    var t := ReadToken(doc, pos);
    assert |doc[t.start..t.end]| == t.end - t.start;
    assert AfterSpaces(doc, |doc|) == |doc|;
  }

  lemma {:induction false} ItemsComplete(cfg: Config, doc: string, pos: nat, done: seq<Value>, items: seq<Item>,
      end: nat)
    requires pos <= |doc| && items != [] && AdmittedItems(cfg, items) && Scanned(doc, pos, YieldItems(items), end)
    ensures end <= |doc|
    ensures ReadItems(cfg, doc, pos, done) == Parsed(true, Array(done + ItemValues(cfg, items)), end, [])
    decreases items
  {
    hide ReadValue, SkipComments, ReadToken, Scanned, Comments, Admitted, ValueOf, Yield, CommentText;
    var item, rest := items[0], items[1..];
    var close := if rest == [] then [CloseBracket] else [ItemComma] + YieldItems(rest);
    assert YieldItems(items) == Yield(item.value) + (Comments(item.gap) + close);
    var mid := ScannedSplit(doc, pos, Yield(item.value), Comments(item.gap) + close, end);
    ReadComplete(cfg, doc, pos, Value.Null, item.value, mid);
    var value := ValueOf(cfg, item.value);
    ItemHead(cfg, items);
    if rest == [] {
      ScannedBounds(doc, mid, Comments(item.gap) + [CloseBracket], end);
      SkipComplete(doc, mid, item.gap, CloseBracket, end);
      assert [value] + ItemValues(cfg, rest) == [value];
    } else {
      var last := SplitLead(doc, mid, item.gap, ItemComma, YieldItems(rest), end);
      SkipComplete(doc, mid, item.gap, ItemComma, last);
      ItemsComplete(cfg, doc, last, done + [value], rest, end);
      Regroup(done, [value], ItemValues(cfg, rest));
    }
  }

  lemma {:induction false} ItemHead(cfg: Config, items: seq<Item>)
    requires items != [] && AdmittedItems(cfg, items)
    ensures AdmittedItems(cfg, items[1..])
    ensures ItemValues(cfg, items) == [ValueOf(cfg, items[0].value)] + ItemValues(cfg, items[1..])
    ensures items[1..] == [] ==> ItemValues(cfg, items[1..]) == []
  {
    hide Admitted, ValueOf;
  }

  lemma {:induction false} MembersComplete(cfg: Config, doc: string, pos: nat, done: seq<Member>, members: seq<Entry>,
      tail: seq<string>, unnamed: bool, end: nat)
    requires pos <= |doc| && AdmittedMembers(cfg, members, tail, unnamed)
    requires Scanned(doc, pos, YieldMembers(members, tail), end)
    ensures end <= |doc|
    ensures ReadMembers(cfg, doc, pos, done, unnamed)
         == Parsed(true, Object(Collect(cfg, done, members, tail, unnamed)), end, [])
    decreases members, 0
  {
    hide ReadValue, SkipComments, ReadToken, Scanned, Comments, Admitted, ValueOf, Yield, CommentText, AfterMember;
    hide DecodeFrom, LooseOK, LooseMeans, Put, Find, CString, Lexeme, IsLexeme;
    ScannedBounds(doc, pos, YieldMembers(members, tail), end);
    if members == [] {
      SkipComplete(doc, pos, tail, CloseBrace, end);
      return;
    }
    var m, rest := members[0], members[1..];
    var after := if m.mark.kind.ObjectEnd? then [] else YieldMembers(rest, tail);
    var behind := Comments(m.gap) + ([m.mark] + after);
    var quoted := Lex(Str, Lexeme(m.name));
    var p := SplitLead(doc, pos, m.lead, quoted, [NameColon] + (Yield(m.value) + behind), end);
    NameComplete(doc, pos, m.lead, m.name, p);
    ScannedOne(doc, p, NameColon, Yield(m.value) + behind, end);
    var colon := ReadToken(doc, p);
    var mid := ScannedSplit(doc, colon.end, Yield(m.value), behind, end);
    var key := CString(LooseMeans(m.name));
    ReadComplete(cfg, doc, colon.end, Find(done, key), m.value, mid);
    var child := Parsed(true, ValueOf(cfg, m.value), mid, []);
    var all := Put(done, key, child.value);
    AfterComplete(cfg, doc, pos, all, m, LooseMeans(m.name) == "", child, rest, tail, end);
  }

  lemma {:induction false} NameComplete(doc: string, pos: nat, lead: seq<string>, name: seq<Piece>, end: nat)
    requires pos <= |doc| && LooseOK(name) && Scanned(doc, pos, Comments(lead) + [Lex(Str, Lexeme(name))], end)
    ensures var t := SkipComments(doc, pos);
      t.kind.Str? && t.end == end && DecodeString(doc, t) == Good(LooseMeans(name))
  {
    hide SkipComments, Scanned, Comments, LooseOK, LooseMeans, Text, DecodeFrom;
    SkipComplete(doc, pos, lead, Lex(Str, Lexeme(name)), end);
    var t := SkipComments(doc, pos);
    Unquoted(doc, t.start, t.end, Text(name));
    DecodeComplete(doc, t.start + 1, t.end - 1, name);
  }

  lemma {:induction false} AfterComplete(cfg: Config, doc: string, pos: nat, all: seq<Member>, m: Entry, unnamed: bool,
      child: Parsed, rest: seq<Entry>, tail: seq<string>, end: nat)
    requires pos < child.end <= |doc| && child.ok && child.errors == []
    requires IsLexeme(m.mark) && !m.mark.kind.Comment?
    requires m.gap == [] ==> m.mark == ItemComma || m.mark == CloseBrace
    requires !m.mark.kind.ObjectEnd? ==> AdmittedMembers(cfg, rest, tail, unnamed)
    requires var after := if m.mark.kind.ObjectEnd? then [] else YieldMembers(rest, tail);
      Scanned(doc, child.end, Comments(m.gap) + ([m.mark] + after), end)
    ensures end <= |doc|
    ensures AfterMember(cfg, doc, pos, all, unnamed, child)
         == Parsed(true, Object(if m.mark.kind.ObjectEnd? then all else Collect(cfg, all, rest, tail, unnamed)), end,
                   [])
    decreases rest, 1
  {
    hide ReadMembers, SkipComments, ReadToken, Scanned, Comments, AdmittedMembers, YieldMembers, Collect, IsLexeme;
    var after := if m.mark.kind.ObjectEnd? then [] else YieldMembers(rest, tail);
    ScannedBounds(doc, child.end, Comments(m.gap) + ([m.mark] + after), end);
    var mid := SplitLead(doc, child.end, m.gap, m.mark, after, end);
    GapComplete(doc, child.end, m.gap, m.mark, mid);
    if m.mark.kind.ObjectEnd? {
      ScannedNothing(doc, mid, end);
    } else {
      MembersComplete(cfg, doc, mid, all, rest, tail, unnamed, end);
    }
  }

  lemma {:induction false} GapComplete(doc: string, pos: nat, gap: seq<string>, mark: Lex, end: nat)
    requires pos <= |doc| && !mark.kind.Comment? && Scanned(doc, pos, Comments(gap) + [mark], end)
    ensures var t := ReadToken(doc, pos);
      var last := if t.kind.Comment? then SkipComments(doc, t.end) else t;
      TokenOf(doc, last, mark) && last.end == end && (gap == [] <==> !t.kind.Comment?)
  {
    hide ReadToken, Scanned, Comments, SkipComments;
    SkipComplete(doc, pos, gap, mark, end);
    GapComments(doc, pos, gap, mark);
    SkipStep(doc, pos);
  }

  lemma {:induction false} SkipStep(doc: string, pos: nat)
    requires pos <= |doc|
    ensures var t := ReadToken(doc, pos);
      SkipComments(doc, pos) == if t.kind.Comment? then SkipComments(doc, t.end) else t
  {
    hide ReadToken;
  }

  // -------------------------------------------------------------------- documents

  /** The document begins with a text of the language whose value the strict mode admits. */
  ghost predicate InLanguage(cfg: Config, doc: string) {
    exists t, end :: Begins(cfg, doc, t, end) && RootAllowed(cfg, ValueOf(cfg, t))
  }

  /** A document parses exactly when it begins with a text of the language, and to what any such text
      means. */
  lemma {:induction false} AcceptedIff(cfg: Config, doc: string, was: Value)
    ensures Parse(cfg, doc, was).ok <==> InLanguage(cfg, doc)
    ensures forall t, end :: Begins(cfg, doc, t, end) ==>
      Parse(cfg, doc, was).value == ValueOf(cfg, t) && ReadValue(cfg, doc, 0, was).end == end
  {
    hide ReadValue, Parse, Scanned, Admitted, Yield, ValueOf;
    ParseOf(cfg, doc, was);
    forall t, end | Begins(cfg, doc, t, end)
      ensures ReadValue(cfg, doc, 0, was) == Parsed(true, ValueOf(cfg, t), end, [])
    {
      ReadComplete(cfg, doc, 0, was, t, end);
    }
    if Parse(cfg, doc, was).ok {
      var t := ReadSound(cfg, doc, 0, was);
      assert Begins(cfg, doc, t, ReadValue(cfg, doc, 0, was).end);
    }
  }

  /** For instance `[,]` does not parse: no text of the language begins with a comma. */
  lemma {:induction false} CommaRefused(cfg: Config, was: Value)
    ensures !Parse(cfg, "[,]", was).ok
  {
    hide ReadValue, ReadToken, InLanguage, Yield, Scanned, Admitted, ValueOf;
    var doc := "[,]";
    AcceptedIff(cfg, doc, was);
    CommaTokens(doc);
    forall t, end ensures !Begins(cfg, doc, t, end) {
      if Begins(cfg, doc, t, end) {
        SecondLexeme(cfg, doc, t, end);
      }
    }
    NotInLanguage(cfg, doc);
  }

  lemma {:induction false} NotInLanguage(cfg: Config, doc: string)
    requires forall t, end :: !Begins(cfg, doc, t, end)
    ensures !InLanguage(cfg, doc)
  {
    hide Begins, ValueOf;
  }

  lemma {:induction false} CommaTokens(doc: string)
    requires doc == "[,]"
    ensures ReadToken(doc, 0) == Token(ArrayBegin, 0, 1) && ReadToken(doc, 1) == Token(Comma, 1, 2)
  {
    assert AfterSpaces(doc, 0) == 0 && AfterSpaces(doc, 1) == 1;
  }

  lemma {:induction false} SecondLexeme(cfg: Config, doc: string, t: Phrase, end: nat)
    requires Begins(cfg, doc, t, end) && ReadToken(doc, 0).kind.ArrayBegin?
    ensures !ReadToken(doc, ReadToken(doc, 0).end).kind.Comma?
  {
    hide ReadToken, LeadOK, AdmittedMembers, YieldMembers, Lexeme, IsNumberText, NumberValue, LooseOK, Scanned;
    var ls := Yield(t);
    YieldHead(t);
    assert ls == [ls[0]] + ls[1..];
    ScannedOne(doc, 0, ls[0], ls[1..], end);
    YieldFront(t);
    assert t.lead == [] && ls == Body(t);
    if t.List? && t.items != [] {
      ListTail(cfg, t.items);
    }
    assert ls[1..] != [] && !ls[1].kind.Comma?;
    assert ls[1..] == [ls[1]] + ls[2..];
    ScannedOne(doc, ReadToken(doc, 0).end, ls[1], ls[2..], end);
  }

  lemma {:induction false} YieldFront(t: Phrase)
    ensures Yield(t) != []
    ensures if t.lead == [] then Yield(t) == Body(t) else Yield(t)[0].kind.Comment?
  {
    hide YieldItems, YieldMembers, Lexeme;
    assert Body(t) != [];
    if t.lead != [] {
      assert Comments(t.lead)[0].kind.Comment?;
    }
  }

  lemma {:induction false} ListTail(cfg: Config, items: seq<Item>)
    requires items != [] && AdmittedItems(cfg, items)
    ensures YieldItems(items) != [] && !YieldItems(items)[0].kind.Comma?
  {
    hide LeadOK, AdmittedMembers, YieldMembers, Lexeme, IsNumberText, NumberValue, LooseOK, Yield, Comments;
    var value := items[0].value;
    YieldHead(value);
    HeadKind(cfg, value);
    assert YieldItems(items)[0] == Yield(value)[0];
  }

  lemma {:induction false} HeadKind(cfg: Config, t: Phrase)
    requires Admitted(cfg, t)
    ensures Yield(t) != [] && !Yield(t)[0].kind.Comma?
  {
    hide LeadOK, AdmittedItems, AdmittedMembers, YieldItems, YieldMembers, Lexeme, IsNumberText, NumberValue, LooseOK;
    assert Body(t) != [];
    if t.lead != [] {
      assert Comments(t.lead)[0].kind.Comment?;
    } else {
      assert Yield(t) == Body(t);
    }
  }

  /** The lexemes of such a text are laid out at the beginning of the document, and look like lexemes. */
  lemma {:induction false} ScannedLaid(doc: string, pos: nat, ls: seq<Lex>, end: nat)
    requires pos <= |doc| && Scanned(doc, pos, ls, end)
    ensures pos <= end <= |doc| && Laid(doc[..end], pos, Texts(ls))
    ensures forall k :: 0 <= k < |ls| ==> IsLexeme(ls[k])
    decreases |ls|
  {
    hide ReadToken, IsLexeme, Laid;
    ScannedBounds(doc, pos, ls, end);
    if ls == [] {
      NothingLaid(doc[..end], pos);
    } else {
      var t := ReadToken(doc, pos);
      TokenIs(doc, pos);
      ScannedBounds(doc, t.end, ls[1..], end);
      ScannedLaid(doc, t.end, ls[1..], end);
      var front := doc[..end];
      assert front[t.start..t.end] == doc[t.start..t.end];
      assert front[pos..t.start] == doc[pos..t.start];
      TokenLaid(front, pos, t.start, ls[0].text, Texts(ls[1..]));
    }
  }

  lemma {:induction false} NothingLaid(doc: string, pos: nat)
    requires pos == |doc|
    ensures Laid(doc, pos, [])
  {
  }

  lemma {:induction false} TokenLaid(doc: string, pos: nat, start: nat, token: string, more: seq<string>)
    requires pos <= start <= |doc| && AllSpace(doc[pos..start]) && StandsAt(doc, start, token)
    requires Laid(doc, start + |token|, more)
    ensures Laid(doc, pos, [token] + more)
    decreases start - pos
  {
    if pos == start {
      assert ([token] + more)[1..] == more;
    } else {
      assert doc[pos..start][0] == doc[pos];
      assert doc[pos + 1..start] == doc[pos..start][1..];
      TokenLaid(doc, pos + 1, start, token, more);
    }
  }

  // ------------------------------------------- without the liberties it is RFC 8259

  /** None of the liberties is taken: no comments, strings and integers of the grammar, and commas
      between members only. */
  predicate Strict(t: Phrase)
    decreases t
  {
    && t.lead == []
    && match t
       case Word(_, _) => true
       case Digits(_, text) => IsInteger(text) && MinLargestInt <= IntegerOf(text) <= MaxLargestUInt
       case Quote(_, ps) => PiecesOK(ps)
       case List(_, items) => StrictItems(items)
       case Open(_) => false
       case Record(_, members, tail) => StrictMembers(members) && tail == []
  }

  predicate StrictItems(items: seq<Item>)
    decreases items
  {
    items == [] || (Strict(items[0].value) && items[0].gap == [] && StrictItems(items[1..]))
  }

  predicate StrictMembers(members: seq<Entry>)
    decreases members
  {
    members == []
    || (var m := members[0];
        && m.lead == m.gap == [] && PiecesOK(m.name) && Strict(m.value)
        && m.mark == (if |members| == 1 then CloseBrace else ItemComma) && StrictMembers(members[1..]))
  }

  function SyntaxOf(t: Phrase): Syntax
    decreases t
  {
    match t
    case Word(_, kind) => if kind.Null? then SNull else SBool(kind.True?)
    case Digits(_, text) => SNumber(text)
    case Quote(_, ps) => SString(ps)
    case List(_, items) => SArray(SyntaxItems(items))
    case Open(_) => SNull
    case Record(_, members, _) => SObject(SyntaxMembers(members))
  }

  function SyntaxItems(items: seq<Item>): (r: seq<Syntax>)
    ensures |r| == |items|
    decreases items
  {
    if items == [] then [] else [SyntaxOf(items[0].value)] + SyntaxItems(items[1..])
  }

  function SyntaxMembers(members: seq<Entry>): (r: seq<SMember>)
    ensures |r| == |members|
    decreases members
  {
    if members == [] then []
    else [SMember(members[0].name, SyntaxOf(members[0].value))] + SyntaxMembers(members[1..])
  }

  lemma {:induction false} TextsJoin(a: seq<Lex>, b: seq<Lex>)
    ensures Texts(a + b) == Texts(a) + Texts(b)
  {
    if a == [] {
      assert a + b == b;
    } else {
      assert (a + b)[1..] == a[1..] + b;
      TextsJoin(a[1..], b);
    }
  }

  lemma {:induction false} TextsOne(l: Lex)
    ensures Texts([l]) == [l.text] && Texts([]) == [] && Comments([]) == []
  {
    assert [l][1..] == [];
  }

  lemma {:induction false} PiecesLoose(ps: seq<Piece>)
    requires PiecesOK(ps)
    ensures LooseOK(ps) && LooseMeans(ps) == Means(ps)
  {
    hide Utf8, Combine, UnitOf, FourDigits, ShortMeaning;
    if ps != [] {
      PiecesLoose(if StartsPair(ps) then ps[2..] else ps[1..]);
    }
  }

  /** A text without liberties is a text of the grammar, with the same lexemes and the same meaning. */
  lemma {:induction false} StrictIs(cfg: Config, t: Phrase)
    requires Admitted(cfg, t) && Strict(t)
    ensures var s := SyntaxOf(t);
      Grammatical(s) && Spelling(s) == Texts(Yield(t)) && Denotes(s) == ValueOf(cfg, t)
    decreases t, 1
  {
    hide LeadOK, AdmittedItems, AdmittedMembers, Collect, ItemValues, YieldItems, YieldMembers, IsInteger, IsNumberText;
    hide NumberValue, PiecesOK, LooseOK, Means, LooseMeans, Lexeme, StrictItems, StrictMembers, Texts;
    hide ItemSpelling, MemberSpelling, GrammaticalItems, GrammaticalMembers, Gather, DenotesItems, Comments;
    TextsOne(Lex(Str, ""));
    assert Yield(t) == Body(t);
    match t
    case Word(_, kind) => TextsOne(Body(t)[0]);
    case Digits(_, text) =>
      TextsOne(Lex(Number, text));
      NumberIs(cfg.scan, text);
      IntegerReads(cfg, text);
    case Quote(_, ps) =>
      TextsOne(Lex(Str, Lexeme(ps)));
      PiecesLoose(ps);
    case List(_, items) =>
      StrictItemsAre(cfg, items);
      TextsOne(OpenBracket);
      TextsJoin([OpenBracket], YieldItems(items));
      Regroup(["["], ItemSpelling(SyntaxItems(items), true), ["]"]);
    case Record(_, members, tail) =>
      StrictMembersAre(cfg, [], members, true);
      TextsOne(OpenBrace);
      TextsJoin([OpenBrace], YieldMembers(members, tail));
      Regroup(["{"], MemberSpelling(SyntaxMembers(members), true), ["}"]);
  }

  lemma {:induction false} StrictItemsAre(cfg: Config, items: seq<Item>)
    requires AdmittedItems(cfg, items) && StrictItems(items)
    ensures var ss := SyntaxItems(items);
      && GrammaticalItems(ss) && DenotesItems(ss) == ItemValues(cfg, items)
      && ItemSpelling(ss, true) + ["]"] == Texts(YieldItems(items))
    decreases items
  {
    hide Admitted, Strict, Yield, ValueOf, Denotes, Grammatical, Spelling, Texts, Comments, ItemSpelling, DenotesItems;
    hide GrammaticalItems, CommentsOK;
    var ss := SyntaxItems(items);
    TextsOne(CloseBracket);
    NoItems();
    if items == [] {
      assert [] + ["]"] == ["]"];
    } else {
      var value, rest := items[0].value, items[1..];
      StrictIs(cfg, value);
      assert ss[1..] == SyntaxItems(rest) && ss[0] == SyntaxOf(value);
      ItemTexts(items);
      if rest == [] {
        ItemsCons(ss);
        ItemsHead(ss);
      } else {
        StrictItemsAre(cfg, rest);
        ItemsCons(ss);
        ItemsHead(ss);
        ItemsHead(ss[1..]);
      }
      Regroup(Spelling(ss[0]), ItemSpelling(ss[1..], false), ["]"]);
      Regroup([","], ItemSpelling(ss[1..], true), ["]"]);
    }
  }

  lemma {:induction false} ItemTexts(items: seq<Item>)
    requires items != [] && items[0].gap == []
    ensures |items| == 1 ==> Texts(YieldItems(items)) == Texts(Yield(items[0].value)) + ["]"]
    ensures |items| > 1 ==>
      Texts(YieldItems(items)) == Texts(Yield(items[0].value)) + ([","] + Texts(YieldItems(items[1..])))
  {
    hide Texts, Yield, Comments;
    var value, more := Yield(items[0].value), YieldItems(items[1..]);
    TextsOne(CloseBracket);
    TextsOne(ItemComma);
    TextsJoin(value, [CloseBracket]);
    TextsJoin([ItemComma], more);
    TextsJoin(value, [ItemComma] + more);
    assert [] + [CloseBracket] == [CloseBracket] && [] + ([ItemComma] + more) == [ItemComma] + more;
  }

  lemma {:induction false} ItemsCons(ss: seq<Syntax>)
    requires ss != [] && Grammatical(ss[0]) && GrammaticalItems(ss[1..])
    ensures GrammaticalItems(ss) && (ss[1..] == [] ==> ItemSpelling(ss[1..], false) == [])
  {
    hide Grammatical;
  }

  lemma {:induction false} StrictMembersAre(cfg: Config, done: seq<Member>, members: seq<Entry>, unnamed: bool)
    requires AdmittedMembers(cfg, members, [], unnamed) && StrictMembers(members)
    ensures var ss := SyntaxMembers(members);
      && GrammaticalMembers(ss) && Gather(done, ss) == Collect(cfg, done, members, [], unnamed)
      && MemberSpelling(ss, true) + ["}"] == Texts(YieldMembers(members, []))
    decreases members
  {
    hide Admitted, Strict, Yield, ValueOf, Denotes, Grammatical, Spelling, Texts, Comments, PiecesOK, LooseOK, Means;
    hide LooseMeans, Put, CString, Lexeme, IsLexeme, CommentsOK, MemberSpelling, GrammaticalMembers, Gather;
    hide NameSpelling;
    var ss := SyntaxMembers(members);
    TextsOne(CloseBrace);
    if members == [] {
      NoSyntax(done);
      assert [] + [CloseBrace] == [CloseBrace] && [] + ["}"] == ["}"];
    } else {
      var m, rest := members[0], members[1..];
      PiecesLoose(m.name);
      StrictIs(cfg, m.value);
      assert ss[1..] == SyntaxMembers(rest) && ss[0] == SMember(m.name, SyntaxOf(m.value));
      var after := if m.mark.kind.ObjectEnd? then [] else YieldMembers(rest, []);
      MemberTexts(m, after);
      var all := Put(done, CString(Means(m.name)), ValueOf(cfg, m.value));
      if rest == [] {
        NoSyntax(all);
        GrammaticalCons(ss);
        MembersHead(done, ss);
      } else {
        StrictMembersAre(cfg, all, rest, LooseMeans(m.name) == "");
        GrammaticalCons(ss);
        MembersHead(done, ss);
        MembersHead(all, ss[1..]);
      }
      Regroup(NameSpelling(m.name) + Spelling(SyntaxOf(m.value)), MemberSpelling(ss[1..], false), ["}"]);
      Regroup([","], MemberSpelling(ss[1..], true), ["}"]);
    }
  }

  lemma {:induction false} NoSyntax(done: seq<Member>)
    ensures MemberSpelling([], true) == MemberSpelling([], false) == []
    ensures GrammaticalMembers([]) && Gather(done, []) == done
  {
  }

  lemma {:induction false} GrammaticalCons(ss: seq<SMember>)
    requires ss != [] && PiecesOK(ss[0].name) && Grammatical(ss[0].value) && GrammaticalMembers(ss[1..])
    ensures GrammaticalMembers(ss)
  {
    hide PiecesOK, Grammatical;
  }

  lemma {:induction false} MemberTexts(m: Entry, after: seq<Lex>)
    requires m.lead == m.gap == []
    ensures var ls := Comments(m.lead) + ([Lex(Str, Lexeme(m.name))] + ([NameColon] + (Yield(m.value) + (Comments(m.gap)
        + ([m.mark] + after)))));
      Texts(ls) == NameSpelling(m.name) + Texts(Yield(m.value)) + ([m.mark.text] + Texts(after))
  {
    hide Texts, Comments, Yield, Lexeme;
    var quoted := Lex(Str, Lexeme(m.name));
    TextsOne(quoted);
    TextsOne(NameColon);
    TextsOne(m.mark);
    var tail := [m.mark] + after;
    assert Comments(m.gap) + tail == tail;
    TextsJoin([m.mark], after);
    TextsJoin(Yield(m.value), tail);
    TextsJoin([NameColon], Yield(m.value) + tail);
    TextsJoin([quoted], [NameColon] + (Yield(m.value) + tail));
    var ls := [quoted] + ([NameColon] + (Yield(m.value) + tail));
    assert Comments(m.lead) + ls == ls;
    assert Texts(ls) == [quoted.text] + ([":"] + (Texts(Yield(m.value)) + Texts(tail)));
    assert NameSpelling(m.name) + Texts(Yield(m.value)) + Texts(tail)
        == [quoted.text] + ([":"] + (Texts(Yield(m.value)) + Texts(tail)));
  }
}
