/** What the reader has read does not depend on what follows it. */
module JsonStable {
  import opened JsonValue
  import opened JsonText
  import opened JsonLexer
  import opened JsonStrings
  import opened JsonParser

  // -------------------------------------------------------------------- lexemes

  lemma {:induction false} SpacesMore(doc: string, tail: string, pos: nat)
    requires pos <= |doc| && AfterSpaces(doc, pos) < |doc|
    ensures AfterSpaces(doc + tail, pos) == AfterSpaces(doc, pos)
    decreases |doc| - pos
  {
    if IsSpace(doc[pos]) {
      SpacesMore(doc, tail, pos + 1);
    }
  }

  /** A number ends where it ended exactly when it ended before the end, or no number character follows. */
  lemma {:induction false} NumberMore(doc: string, tail: string, pos: nat)
    requires pos <= |doc|
    ensures NumberEnd(doc + tail, pos) == NumberEnd(doc, pos)
       <==> NumberEnd(doc, pos) < |doc| || tail == [] || !IsNumberChar(tail[0])
    decreases |doc| - pos
  {
    if pos < |doc| && IsNumberChar(doc[pos]) {
      NumberMore(doc, tail, pos + 1);
    } else if pos == |doc| && tail != [] {
      assert (doc + tail)[pos] == tail[0];
    }
  }

  lemma {:induction false} StringMore(doc: string, tail: string, pos: nat)
    requires pos <= |doc| && ScanString(doc, pos).ok
    ensures ScanString(doc + tail, pos) == ScanString(doc, pos)
    decreases |doc| - pos
  {
    if doc[pos] == '\\' {
      StringMore(doc, tail, Next(doc, pos + 1));
    } else if doc[pos] != '\"' {
      StringMore(doc, tail, pos + 1);
    }
  }

  lemma {:induction false} BlockMore(doc: string, tail: string, pos: nat)
    requires pos <= |doc| && BlockEnd(doc, pos) < |doc|
    ensures BlockEnd(doc + tail, pos) == BlockEnd(doc, pos)
    decreases |doc| - pos
  {
    if !(doc[pos] == '*' && CharAt(doc, pos + 1) == '/') {
      BlockMore(doc, tail, pos + 1);
    }
  }

  // A block comment that stopped before the end stopped at its slash.
  lemma {:induction false} BlockStops(doc: string, pos: nat)
    requires pos <= |doc|
    ensures BlockEnd(doc, pos) < |doc| ==> doc[BlockEnd(doc, pos)] == '/'
    decreases |doc| - pos
  {
    if pos < |doc| {
      BlockStops(doc, pos + 1);
    }
  }

  lemma {:induction false} LineMore(doc: string, tail: string, pos: nat)
    requires pos <= |doc| && LineEnd(doc, pos) < |doc|
    ensures LineEnd(doc + tail, pos) == LineEnd(doc, pos)
    decreases |doc| - pos
  {
    if doc[pos] != '\r' && doc[pos] != '\n' {
      LineMore(doc, tail, pos + 1);
    }
  }

  lemma CommentMore(doc: string, tail: string, pos: nat)
    requires pos <= |doc| && ScanComment(doc, pos).end < |doc|
    ensures ScanComment(doc + tail, pos) == ScanComment(doc, pos)
  {
    hide BlockEnd, LineEnd;
    var body := Next(doc, pos);
    if CharAt(doc, pos) == '*' {
      BlockStops(doc, body);
      BlockMore(doc, tail, body);
    } else if CharAt(doc, pos) == '/' {
      LineMore(doc, tail, body);
    }
  }

  // A word stands on, and one that does not stand cannot come to stand when its first letter is wrong.
  lemma WordMore(doc: string, tail: string, pos: nat, word: string)
    requires pos <= |doc| && word != "" && (StandsAt(doc, pos, word) || (pos < |doc| && doc[pos] != word[0]))
    ensures ScanWord(doc + tail, pos, word) == ScanWord(doc, pos, word)
  {
    var more := doc + tail;
    if StandsAt(doc, pos, word) {
      assert more[pos..pos + |word|] == doc[pos..pos + |word|];
    } else if pos + |word| <= |more| {
      assert more[pos..pos + |word|][0] == doc[pos];
    }
  }

  /** A token that what follows cannot change. */
  ghost predicate Firm(doc: string, t: Token) {
    && t.start < t.end <= |doc|
    && (t.kind.Number? || t.kind.Comment? ==> t.end < |doc|)
    && (t.kind.Error? ==> t.end < |doc| && doc[t.end] != 'r' && doc[t.end] != 'a' && doc[t.end] != 'u')
  }

  lemma TokenMore(doc: string, tail: string, pos: nat)
    requires pos <= |doc| && Firm(doc, ReadToken(doc, pos))
    ensures ReadToken(doc + tail, pos) == ReadToken(doc, pos)
  {
    hide AfterSpaces, ScanString, ScanComment, NumberEnd, ScanWord;
    var start := AfterSpaces(doc, pos);
    SpacesMore(doc, tail, pos);
    var c, p := doc[start], start + 1;
    if c == '\"' {
      StringOrEnd(doc, p);
      StringMore(doc, tail, p);
    } else if c == '/' {
      CommentMore(doc, tail, p);
    } else if IsDigit(c) || c == '-' {
      NumberMore(doc, tail, p);
    } else if c == 't' || c == 'f' || c == 'n' {
      var word := if c == 't' then "rue" else if c == 'f' then "alse" else "ull";
      WordOrNot(doc, p, word);
      WordMore(doc, tail, p, word);
    }
  }

  lemma {:induction false} StringOrEnd(doc: string, pos: nat)
    requires pos <= |doc|
    ensures ScanString(doc, pos).ok || ScanString(doc, pos).end == |doc|
    decreases |doc| - pos
  {
    if pos < |doc| {
      if doc[pos] == '\\' {
        StringOrEnd(doc, Next(doc, pos + 1));
      } else if doc[pos] != '\"' {
        StringOrEnd(doc, pos + 1);
      }
    }
  }

  lemma WordOrNot(doc: string, pos: nat, word: string)
    requires pos <= |doc|
    ensures ScanWord(doc, pos, word) == if StandsAt(doc, pos, word) then Scan(true, pos + |word|) else Scan(false, pos)
  {
  }

  lemma {:induction false} SkipMore(doc: string, tail: string, pos: nat)
    requires pos <= |doc| && Firm(doc, SkipComments(doc, pos))
    ensures SkipComments(doc + tail, pos) == SkipComments(doc, pos)
    decreases |doc| - pos
  {
    hide ReadToken;
    var t := ReadToken(doc, pos);
    if t.kind.Comment? {
      assert t.end <= SkipComments(doc, t.end).start < |doc|;
      TokenMore(doc, tail, pos);
      SkipMore(doc, tail, t.end);
    } else {
      TokenMore(doc, tail, pos);
    }
  }

  lemma FirstMore(cfg: Config, doc: string, tail: string, pos: nat)
    requires pos <= |doc| && Firm(doc, FirstToken(cfg.allowComments, doc, pos))
    ensures FirstToken(cfg.allowComments, doc + tail, pos) == FirstToken(cfg.allowComments, doc, pos)
  {
    hide ReadToken, SkipComments;
    if cfg.allowComments {
      SkipMore(doc, tail, pos);
    } else {
      TokenMore(doc, tail, pos);
    }
  }

  // What begins a member or ends an object is no letter of a word.
  lemma MemberNext(doc: string, pos: nat)
    requires pos <= |doc| && (SkipComments(doc, pos).kind.ObjectEnd? || SkipComments(doc, pos).kind.Str?)
    ensures pos < |doc| && doc[pos] != 'r' && doc[pos] != 'a' && doc[pos] != 'u'
  {
    if pos < |doc| && (doc[pos] == 'r' || doc[pos] == 'a' || doc[pos] == 'u') {
      LetterFails(doc, pos);
    }
  }

  lemma LetterFails(doc: string, pos: nat)
    requires pos < |doc| && (doc[pos] == 'r' || doc[pos] == 'a' || doc[pos] == 'u')
    ensures SkipComments(doc, pos).kind.Error?
  {
    assert AfterSpaces(doc, pos) == pos;
    assert ReadToken(doc, pos).kind.Error?;
  }

  // ------------------------------------------------------------------- decoding

  lemma {:induction false} HexMore(doc: string, tail: string, pos: nat, count: nat, high: nat)
    requires pos + count <= |doc|
    ensures HexNumber(doc + tail, pos, count, high) == HexNumber(doc, pos, count, high)
    decreases count
  {
    if count > 0 && HexValue(doc[pos]) >= 0 {
      HexMore(doc, tail, pos + 1, count - 1, high * 16 + HexValue(doc[pos]));
    }
  }

  lemma EscapeMore(doc: string, tail: string, pos: nat, end: nat)
    requires pos <= end <= |doc|
    ensures EscapeSequence(doc + tail, pos, end) == EscapeSequence(doc, pos, end)
  {
    hide HexNumber;
    if end - pos >= 4 {
      HexMore(doc, tail, pos, 4, 0);
    }
  }

  lemma CodePointMore(doc: string, tail: string, pos: nat, end: nat)
    requires pos <= end <= |doc|
    ensures DecodeCodePoint(doc + tail, pos, end) == DecodeCodePoint(doc, pos, end)
  {
    hide EscapeSequence, Combine;
    EscapeMore(doc, tail, pos, end);
    if end - pos >= 6 {
      EscapeMore(doc, tail, pos + 6, end);
    }
  }

  lemma {:induction false} DecodeMore(doc: string, tail: string, pos: nat, end: nat)
    requires pos <= end <= |doc|
    ensures DecodeFrom(doc + tail, pos, end) == DecodeFrom(doc, pos, end)
    decreases end - pos
  {
    hide DecodeCodePoint, Utf8, ShortEscape;
    if pos < end && doc[pos] != '\"' {
      if doc[pos] != '\\' {
        DecodeMore(doc, tail, pos + 1, end);
      } else if pos + 1 < end {
        CodePointMore(doc, tail, pos + 2, end);
        if doc[pos + 1] != 'u' {
          DecodeMore(doc, tail, pos + 2, end);
        } else if DecodeCodePoint(doc, pos + 2, end).Good? {
          DecodeMore(doc, tail, DecodeCodePoint(doc, pos + 2, end).value.next, end);
        }
      }
    }
  }

  // ---------------------------------------------------------------------- values

  /** The value is an open bracket with nothing but white space up to the end of the document. */
  ghost predicate OpenEnd(cfg: Config, doc: string, pos: nat)
    requires pos <= |doc|
  {
    var t := FirstToken(cfg.allowComments, doc, pos);
    t.kind.ArrayBegin? && AfterSpaces(doc, t.end) == |doc|
  }

  /** The value is that, or a number that ends with the document. */
  ghost predicate AtEdge(cfg: Config, doc: string, pos: nat)
    requires pos <= |doc|
  {
    var t := FirstToken(cfg.allowComments, doc, pos);
    (t.kind.Number? && t.end == |doc|) || OpenEnd(cfg, doc, pos)
  }

  /** The byte behind the document decides exactly there: read as an empty array before a bracket,
      refused otherwise. */
  lemma OpenReads(cfg: Config, doc: string, pos: nat, was: Value)
    requires pos <= |doc| && OpenEnd(cfg, doc, pos)
    ensures var r := ReadValue(cfg, doc, pos, was);
      && (r.ok <==> cfg.behind == ']') && (r.ok ==> r == Parsed(true, Array([]), |doc|, []))
  {
    hide FirstToken, ReadItems;
    ItemsEnd(cfg, doc);
  }

  lemma EdgeEnds(cfg: Config, doc: string, pos: nat, was: Value)
    requires pos <= |doc| && AtEdge(cfg, doc, pos)
    ensures ReadValue(cfg, doc, pos, was).end == |doc|
  {
    hide FirstToken, DecodeNumber, Recover, SkipComments;
    hide ReadItems;
    var t := FirstToken(cfg.allowComments, doc, pos);
    if t.kind.ArrayBegin? {
      var p := AfterSpaces(doc, t.end);
      ItemsEnd(cfg, doc);
    }
  }

  lemma ItemsEnd(cfg: Config, doc: string)
    ensures ReadItems(cfg, doc, |doc|, []).end == |doc| && !ReadItems(cfg, doc, |doc|, []).ok
    ensures ReadToken(doc, |doc|).end == |doc|
  {
    hide Recover;
    assert ReadToken(doc, |doc|) == Token(EndOfStream, |doc|, |doc|);
    assert FirstToken(cfg.allowComments, doc, |doc|) == ReadToken(doc, |doc|);
  }

  /** Away from the edge, a value that is read is read the same whatever follows. */
  lemma {:induction false} ReadMore(cfg: Config, doc: string, tail: string, pos: nat, was: Value)
    requires pos <= |doc| && ReadValue(cfg, doc, pos, was).ok && !AtEdge(cfg, doc, pos)
    ensures ReadValue(cfg, doc + tail, pos, was) == ReadValue(cfg, doc, pos, was)
    decreases |doc| - pos, 0
  {
    hide FirstToken, ReadToken, ReadMembers, ReadItems, DecodeNumber, CString, AfterSpaces, DecodeFrom;
    var more, t := doc + tail, FirstToken(cfg.allowComments, doc, pos);
    FirstMore(cfg, doc, tail, pos);
    match t.kind
    case ObjectBegin => MembersMore(cfg, doc, tail, t.end, [], true);
    case ArrayBegin =>
      var p := AfterSpaces(doc, t.end);
      SpacesMore(doc, tail, t.end);
      if doc[p] == ']' {
        CloseMore(doc, tail, p);
      } else {
        ItemsMore(cfg, doc, tail, p, []);
      }
    case Number => assert more[t.start..t.end] == doc[t.start..t.end];
    case Str => DecodeMore(doc, tail, t.start + 1, t.end - 1);
    case _ =>
  }

  lemma CloseMore(doc: string, tail: string, p: nat)
    requires p < |doc| && doc[p] == ']'
    ensures ReadToken(doc + tail, p) == ReadToken(doc, p)
  {
    assert AfterSpaces(doc, p) == p;
    TokenMore(doc, tail, p);
  }

  lemma {:induction false} ItemsMore(cfg: Config, doc: string, tail: string, pos: nat, items: seq<Value>)
    requires pos <= |doc| && ReadItems(cfg, doc, pos, items).ok
    ensures ReadItems(cfg, doc + tail, pos, items) == ReadItems(cfg, doc, pos, items)
    decreases |doc| - pos, 1
  {
    hide ReadValue, SkipComments, AtEdge;
    var child := ReadValue(cfg, doc, pos, Value.Null);
    var t := SkipComments(doc, child.end);
    if AtEdge(cfg, doc, pos) {
      EdgeEnds(cfg, doc, pos, Value.Null);
    }
    ReadMore(cfg, doc, tail, pos, Value.Null);
    SkipMore(doc, tail, child.end);
    if t.kind.Comma? {
      ItemsMore(cfg, doc, tail, t.end, items + [child.value]);
    }
  }

  lemma {:induction false} MembersMore(cfg: Config, doc: string, tail: string, pos: nat, members: seq<Member>,
      unnamed: bool)
    requires pos <= |doc| && ReadMembers(cfg, doc, pos, members, unnamed).ok
    ensures ReadMembers(cfg, doc + tail, pos, members, unnamed) == ReadMembers(cfg, doc, pos, members, unnamed)
    decreases |doc| - pos, 1
  {
    hide ReadValue, SkipComments, ReadToken, AtEdge, AfterMember, DecodeFrom, Put, Find, CString;
    var t := SkipComments(doc, pos);
    SkipMore(doc, tail, pos);
    if t.kind.Str? {
      DecodeMore(doc, tail, t.start + 1, t.end - 1);
      var full := DecodeString(doc, t).value;
      var colon := ReadToken(doc, t.end);
      TokenMore(doc, tail, t.end);
      var name := CString(full);
      var child := ReadValue(cfg, doc, colon.end, Find(members, name));
      var all := Put(members, name, child.value);
      AfterMore(cfg, doc, tail, pos, all, full == "", child);
      if AtEdge(cfg, doc, colon.end) {
        EdgeEnds(cfg, doc, colon.end, Find(members, name));
      }
      ReadMore(cfg, doc, tail, colon.end, Find(members, name));
    }
  }

  lemma {:induction false} AfterMore(cfg: Config, doc: string, tail: string, pos: nat, members: seq<Member>,
      unnamed: bool, child: Parsed)
    requires pos < child.end <= |doc| && (child.ok <==> child.errors == [])
    requires AfterMember(cfg, doc, pos, members, unnamed, child).ok
    ensures child.ok && child.end < |doc|
    ensures AfterMember(cfg, doc + tail, pos, members, unnamed, child)
         == AfterMember(cfg, doc, pos, members, unnamed, child)
    decreases |doc| - pos, 0
  {
    hide ReadToken, SkipComments, ReadMembers;
    var t := ReadToken(doc, child.end);
    var last := if t.kind.Comment? then SkipComments(doc, t.end) else t;
    if !last.kind.ObjectEnd? {
      MembersBegin(cfg, doc, last.end, members, unnamed);
      MemberNext(doc, last.end);
      MembersMore(cfg, doc, tail, last.end, members, unnamed);
    }
    TokenMore(doc, tail, child.end);
    if t.kind.Comment? {
      SkipMore(doc, tail, t.end);
    }
  }

  lemma MembersBegin(cfg: Config, doc: string, pos: nat, members: seq<Member>, unnamed: bool)
    requires pos <= |doc| && ReadMembers(cfg, doc, pos, members, unnamed).ok
    ensures SkipComments(doc, pos).kind.ObjectEnd? || SkipComments(doc, pos).kind.Str?
  {
    hide SkipComments;
  }

  /** A number that is read is read the same exactly when it ended before the end, or no number
      character follows. */
  lemma NumberReadMore(cfg: Config, doc: string, tail: string, pos: nat, was: Value)
    requires pos <= |doc| && ReadValue(cfg, doc, pos, was).ok && FirstToken(cfg.allowComments, doc, pos).kind.Number?
    ensures ReadValue(cfg, doc + tail, pos, was) == ReadValue(cfg, doc, pos, was)
       <==> ReadValue(cfg, doc, pos, was).end < |doc| || tail == [] || !IsNumberChar(tail[0])
  {
    hide FirstToken, DecodeNumber, DecodeString, AfterSpaces, ReadItems, ReadMembers, IsNumberText;
    var t, more := FirstToken(cfg.allowComments, doc, pos), doc + tail;
    NumberFirst(cfg, doc, tail, pos);
    assert more[t.start..t.end] == doc[t.start..t.end];
  }

  // The first token is still the number, with its end where its characters end.
  lemma {:induction false} NumberFirst(cfg: Config, doc: string, tail: string, pos: nat)
    requires pos <= |doc| && FirstToken(cfg.allowComments, doc, pos).kind.Number?
    ensures var t, u := FirstToken(cfg.allowComments, doc, pos), FirstToken(cfg.allowComments, doc + tail, pos);
      && u.kind.Number? && u.start == t.start
      && (u.end == t.end <==> t.end < |doc| || tail == [] || !IsNumberChar(tail[0]))
    decreases |doc| - pos
  {
    hide ReadToken;
    var t := ReadToken(doc, pos);
    if t.kind.Comment? {
      assert cfg.allowComments && t.end <= SkipComments(doc, t.end).start < |doc|;
      TokenMore(doc, tail, pos);
      NumberFirst(cfg, doc, tail, t.end);
    } else {
      NumberToken(doc, tail, pos);
    }
  }

  lemma NumberToken(doc: string, tail: string, pos: nat)
    requires pos <= |doc| && ReadToken(doc, pos).kind.Number?
    ensures var t, u := ReadToken(doc, pos), ReadToken(doc + tail, pos);
      && u.kind.Number? && u.start == t.start
      && (u.end == t.end <==> t.end < |doc| || tail == [] || !IsNumberChar(tail[0]))
  {
    hide AfterSpaces, ScanString, ScanComment, NumberEnd, ScanWord;
    var start := AfterSpaces(doc, pos);
    SpacesMore(doc, tail, pos);
    NumberMore(doc, tail, start + 1);
  }
}
