/** Where comments are read, where they are refused, and what they let pass. */
module JsonComments {
  import opened JsonValue
  import opened JsonText
  import opened JsonLexer
  import opened JsonStrings
  import opened JsonParser
  import opened JsonGrammar
  import opened JsonRoundTrip
  import opened JsonBeyond

  // ------------------------------------------------- comments where a value is due

  /** The reading of a value at `pos` meets no comment where a value is due. */
  ghost predicate NoneDue(cfg: Config, doc: string, pos: nat)
    requires pos <= |doc|
    decreases |doc| - pos, 0
  {
    var t := ReadToken(doc, pos);
    && !t.kind.Comment?
    && (t.kind.ObjectBegin? ==> NoneInMembers(cfg, doc, t.end))
    && (t.kind.ArrayBegin? ==>
          var p := AfterSpaces(doc, t.end);
          Peek(doc, cfg.behind, p) == ']' || NoneInItems(cfg, doc, p))
  }

  ghost predicate NoneInMembers(cfg: Config, doc: string, pos: nat)
    requires pos <= |doc|
    decreases |doc| - pos, 1
  {
    var t := SkipComments(doc, pos);
    t.kind.Str? ==>
      var colon := ReadToken(doc, t.end);
      colon.kind.Colon? ==>
        NoneDue(cfg, doc, colon.end) && NoneAfter(cfg, doc, pos, ReadValue(cfg, doc, colon.end, Value.Null).end)
  }

  ghost predicate NoneAfter(cfg: Config, doc: string, pos: nat, end: nat)
    requires pos < end <= |doc|
    decreases |doc| - pos, 0
  {
    var t := ReadToken(doc, end);
    var last := if t.kind.Comment? then SkipComments(doc, t.end) else t;
    last.kind.ObjectEnd? || NoneInMembers(cfg, doc, last.end)
  }

  ghost predicate NoneInItems(cfg: Config, doc: string, pos: nat)
    requires pos <= |doc|
    decreases |doc| - pos, 1
  {
    && NoneDue(cfg, doc, pos)
    && var t := SkipComments(doc, ReadValue(cfg, doc, pos, Value.Null).end);
       t.kind.Comma? ==> NoneInItems(cfg, doc, t.end)
  }

  /** Where reading ends does not depend on what the node held. */
  lemma EndSame(cfg: Config, doc: string, pos: nat, was: Value)
    requires pos <= |doc|
    ensures ReadValue(cfg, doc, pos, was).end == ReadValue(cfg, doc, pos, Value.Null).end
  {
    hide FirstToken, ReadToken, ReadMembers, ReadItems, DecodeNumber, DecodeString, AfterSpaces;
  }

  /** Without comments a value is read exactly when it is read with them and none stands where a
      value is due, and it is the same. */
  lemma {:induction false} ReadIff(no: Config, cfg: Config, doc: string, pos: nat, was: Value)
    requires pos <= |doc| && no == cfg.(allowComments := false) && cfg.allowComments
    ensures var r, s := ReadValue(no, doc, pos, was), ReadValue(cfg, doc, pos, was);
      && (r.ok <==> s.ok && NoneDue(cfg, doc, pos)) && (r.ok ==> r == s)
    decreases |doc| - pos, 0
  {
    hide ReadToken, ReadMembers, ReadItems, DecodeNumber, DecodeString, AfterSpaces, NoneInMembers, NoneInItems;
    var t := ReadToken(doc, pos);
    if t.kind.ObjectBegin? {
      MembersIff(no, cfg, doc, t.end, [], true);
    } else if t.kind.ArrayBegin? {
      ItemsIff(no, cfg, doc, AfterSpaces(doc, t.end), []);
    }
  }

  lemma {:induction false} ItemsIff(no: Config, cfg: Config, doc: string, pos: nat, items: seq<Value>)
    requires pos <= |doc| && no == cfg.(allowComments := false) && cfg.allowComments
    ensures var r, s := ReadItems(no, doc, pos, items), ReadItems(cfg, doc, pos, items);
      && (r.ok <==> s.ok && NoneInItems(cfg, doc, pos)) && (r.ok ==> r == s)
    decreases |doc| - pos, 1
  {
    hide ReadValue, SkipComments, NoneDue;
    ReadIff(no, cfg, doc, pos, Value.Null);
    var child := ReadValue(cfg, doc, pos, Value.Null);
    var t := SkipComments(doc, child.end);
    if t.kind.Comma? {
      ItemsIff(no, cfg, doc, t.end, items + [child.value]);
    }
  }

  lemma {:induction false} MembersIff(no: Config, cfg: Config, doc: string, pos: nat, members: seq<Member>,
      unnamed: bool)
    requires pos <= |doc| && no == cfg.(allowComments := false) && cfg.allowComments
    ensures var r, s := ReadMembers(no, doc, pos, members, unnamed), ReadMembers(cfg, doc, pos, members, unnamed);
      && (s.ok ==> (r.ok <==> NoneInMembers(cfg, doc, pos))) && (r.ok ==> r == s)
    decreases |doc| - pos, 1
  {
    hide ReadValue, SkipComments, ReadToken, AfterMember, DecodeString, Put, Find, CString, NoneDue, NoneAfter;
    var t := SkipComments(doc, pos);
    if t.kind.Str? && DecodeString(doc, t).Good? && ReadToken(doc, t.end).kind.Colon? {
      var full, colon := DecodeString(doc, t).value, ReadToken(doc, t.end);
      var name := CString(full);
      ReadIff(no, cfg, doc, colon.end, Find(members, name));
      EndSame(cfg, doc, colon.end, Find(members, name));
      var child := ReadValue(cfg, doc, colon.end, Find(members, name));
      AfterIff(no, cfg, doc, pos, Put(members, name, child.value), full == "", child);
      BadChild(no, doc, pos);
      BadChild(cfg, doc, pos);
    }
  }

  // A member whose value fails fails its object.
  lemma BadChild(cfg: Config, doc: string, pos: nat)
    ensures forall ms, u, child: Parsed | pos < child.end <= |doc| && (child.ok <==> child.errors == []) && !child.ok ::
      !AfterMember(cfg, doc, pos, ms, u, child).ok
  {
    hide ReadMembers;
  }

  lemma {:induction false} AfterIff(no: Config, cfg: Config, doc: string, pos: nat, members: seq<Member>,
      unnamed: bool, child: Parsed)
    requires pos < child.end <= |doc| && (child.ok <==> child.errors == [])
    requires no == cfg.(allowComments := false) && cfg.allowComments
    ensures var r, s := AfterMember(no, doc, pos, members, unnamed, child),
                        AfterMember(cfg, doc, pos, members, unnamed, child);
      && (s.ok ==> (r.ok <==> NoneAfter(cfg, doc, pos, child.end))) && (r.ok ==> r == s)
    decreases |doc| - pos, 0
  {
    hide ReadToken, SkipComments, ReadMembers, NoneInMembers;
    var t := ReadToken(doc, child.end);
    var last := if t.kind.Comment? then SkipComments(doc, t.end) else t;
    if !last.kind.ObjectEnd? {
      MembersIff(no, cfg, doc, last.end, members, unnamed);
    }
  }

  /** With comments disallowed a document parses exactly when it parses with them allowed and none
      stands where a value is due; comments elsewhere pass in either mode. */
  lemma CommentsRefused(cfg: Config, doc: string, was: Value)
    ensures var no, all := cfg.(allowComments := false), cfg.(allowComments := true);
      && (Parse(no, doc, was).ok <==> Parse(all, doc, was).ok && NoneDue(all, doc, 0))
      && (Parse(no, doc, was).ok ==> Parse(no, doc, was).value == Parse(all, doc, was).value)
  {
    hide ReadValue, Parse, NoneDue;
    var no, all := cfg.(allowComments := false), cfg.(allowComments := true);
    ReadIff(no, all, doc, 0, was);
    ParseOf(no, doc, was);
    ParseOf(all, doc, was);
  }

  // ------------------------------------------------------ comments behind a member

  /** A block comment, or a line comment with its line end. */
  predicate IsComment(s: string) {
    || (|s| >= 4 && s[0] == '/' && s[1] == '*' && s[|s| - 2] == '*' && s[|s| - 1] == '/'
        && forall k :: 2 <= k < |s| - 2 ==> s[k] != '*' || s[k + 1] != '/')
    || (|s| >= 3 && s[0] == '/' && s[1] == '/' && (s[|s| - 1] == '\r' || s[|s| - 1] == '\n')
        && forall k :: 2 <= k < |s| - 1 ==> s[k] != '\r' && s[k] != '\n')
  }

  lemma {:induction false} BlockExtent(doc: string, pos: nat, star: nat)
    requires pos <= star && star + 1 < |doc| && doc[star] == '*' && doc[star + 1] == '/'
    requires forall k :: pos <= k < star ==> doc[k] != '*' || doc[k + 1] != '/'
    ensures BlockEnd(doc, pos) == star + 1
    decreases star - pos
  {
    if pos < star {
      BlockExtent(doc, pos + 1, star);
    }
  }

  lemma {:induction false} LineExtent(doc: string, pos: nat, last: nat)
    requires pos <= last < |doc| && (doc[last] == '\r' || doc[last] == '\n')
    requires forall k :: pos <= k < last ==> doc[k] != '\r' && doc[k] != '\n'
    ensures LineEnd(doc, pos) == last + 1
    decreases last - pos
  {
    if pos < last {
      LineExtent(doc, pos + 1, last);
    }
  }

  lemma CommentReads(doc: string, pos: nat, s: string, more: seq<string>)
    requires pos <= |doc| && Laid(doc, pos, [s] + more) && IsComment(s)
    ensures ReadsAs(doc, pos, s, Comment, more)
  {
    hide Laid, BlockEnd, LineEnd;
    SpacesSkipped(doc, pos, s, more);
    var p := AfterSpaces(doc, pos);
    var end := p + |s|;
    forall k | 0 <= k < |s| ensures doc[p + k] == s[k] {
      assert doc[p + k] == doc[p..end][k];
    }
    if s[1] == '*' {
      forall k | p + 2 <= k < end - 2 ensures doc[k] != '*' || doc[k + 1] != '/' {
        assert s[k - p] != '*' || s[k - p + 1] != '/';
      }
      BlockExtent(doc, p + 2, end - 2);
    } else {
      forall k | p + 2 <= k < end - 1 ensures doc[k] != '\r' && doc[k] != '\n' {
        assert s[k - p] != '\r' && s[k - p] != '\n';
      }
      LineExtent(doc, p + 2, end - 1);
    }
  }

  /** Any token but a closing brace: a single character, a word, a number or a string. */
  datatype Mark = Single(c: char) | Word(text: string) | Digits(text: string) | Quoted(pieces: seq<Piece>)

  predicate MarkOK(m: Mark) {
    match m
    case Single(c) => !IsSpace(c) && !IsDigit(c) && c !in ['}', '\"', '/', '-', 't', 'f', 'n']
    case Word(text) => text == "true" || text == "false" || text == "null"
    case Digits(text) => IsNumberText(text)
    case Quoted(ps) => PiecesOK(ps)
  }

  function MarkText(m: Mark): string {
    match m
    case Single(c) => [c]
    case Word(text) => text
    case Digits(text) => text
    case Quoted(ps) => Lexeme(ps)
  }

  lemma MarkReads(doc: string, pos: nat, m: Mark, more: seq<string>)
    requires pos <= |doc| && MarkOK(m) && Laid(doc, pos, [MarkText(m)] + more) && Follow(more)
    ensures var t := ReadToken(doc, pos); !t.kind.Comment? && !t.kind.ObjectEnd? && Laid(doc, t.end, more)
  {
    hide Laid, Lexeme, PiecesOK, IsNumberText;
    match m
    case Single(c) => SpacesSkipped(doc, pos, [c], more);
    case Word(text) => WordReads(doc, pos, text, more);
    case Digits(text) => NumberReads(doc, pos, text, more);
    case Quoted(ps) => StringReads(doc, pos, ps, more);
  }

  /** A comment and the token that takes the place of a comma. */
  datatype Gap = Gap(comment: string, mark: Mark)

  predicate GapsOK(gaps: seq<Gap>) {
    forall k :: 0 <= k < |gaps| ==> IsComment(gaps[k].comment) && MarkOK(gaps[k].mark)
  }

  /** The lexemes of further members, with gaps instead of commas. */
  function GappedSpelling(members: seq<SMember>, gaps: seq<Gap>): seq<string>
    requires |gaps| == |members|
    decreases members
  {
    if members == [] then []
    else
      [gaps[0].comment] + ([MarkText(gaps[0].mark)]
      + (NameSpelling(members[0].name) + Spelling(members[0].value) + GappedSpelling(members[1..], gaps[1..])))
  }

  /** The closing brace, alone or behind a gap. */
  function Close(last: seq<Gap>): seq<string> {
    if last == [] then ["}"] else [last[0].comment] + ([MarkText(last[0].mark)] + ["}"])
  }

  /** The lexemes of an object from behind its opening brace. */
  function GappedRest(members: seq<SMember>, gaps: seq<Gap>, last: seq<Gap>): seq<string>
    requires |gaps| == |members| - 1
  {
    NameSpelling(members[0].name) + Spelling(members[0].value) + (GappedSpelling(members[1..], gaps) + Close(last))
  }

  /** Behind a comment any token separates two members: with such gaps in the place of its commas an
      object is read as with the commas, whether comments are allowed or not. One more gap before the
      closing brace passes exactly when the last name means the empty string. */
  lemma AnySeparates(cfg: Config, doc: string, was: Value, members: seq<SMember>, gaps: seq<Gap>, last: seq<Gap>)
    requires members != [] && GrammaticalMembers(members)
    requires |gaps| == |members| - 1 && |last| <= 1 && GapsOK(gaps) && GapsOK(last)
    requires Laid(doc, 0, ["{"] + GappedRest(members, gaps, last))
    ensures PiecesOK(members[|members| - 1].name)
    ensures Parse(cfg, doc, was).value == Object(Gather([], members))
    ensures Parse(cfg, doc, was).ok <==> last == [] || Means(members[|members| - 1].name) == ""
  {
    hide Laid, ReadToken, FirstToken, SkipComments, ReadMembers, GappedRest, GrammaticalMembers, GapsOK;
    hide Gather, Parse, Means, PiecesOK;
    var after := GappedRest(members, gaps, last);
    PunctuationReads(doc, 0, '{', after);
    FirstReads(cfg, doc, 0, "{", ObjectBegin, after);
    GappedBack(cfg, doc, ReadToken(doc, 0).end, [], true, members, gaps, last);
    ParseOf(cfg, doc, was);
  }

  lemma {:induction false} GappedBack(cfg: Config, doc: string, pos: nat, done: seq<Member>, unnamed: bool,
                                      members: seq<SMember>, gaps: seq<Gap>, last: seq<Gap>)
    requires members != [] && GrammaticalMembers(members) && pos <= |doc|
    requires |gaps| == |members| - 1 && |last| <= 1 && GapsOK(gaps) && GapsOK(last)
    requires Laid(doc, pos, GappedRest(members, gaps, last))
    ensures PiecesOK(members[|members| - 1].name)
    ensures var r := ReadMembers(cfg, doc, pos, done, unnamed);
      && r.value == Object(Gather(done, members))
      && (r.ok <==> last == [] || Means(members[|members| - 1].name) == "")
    decreases members
  {
    hide Laid, ReadToken, FirstToken, SkipComments, ReadValue, Grammatical, GrammaticalMembers, Spelling, Close;
    hide GappedSpelling, GapsOK;
    hide AfterMember, Put, Find, DecodeString, Lexeme, NameSpelling, CString, Denotes, Gather, Means, PiecesOK;
    var m, rest := members[0], members[1..];
    var after := GappedSpelling(rest, gaps) + Close(last);
    MembersHead(done, members);
    NameReads(cfg, doc, pos, m, after);
    var colon := ReadToken(doc, ReadToken(doc, pos).end);
    GappedFollow(rest, gaps, last);
    var key := CString(Means(m.name));
    ReadBack(cfg, doc, colon.end, Find(done, key), m.value, after);
    var child := ReadValue(cfg, doc, colon.end, Find(done, key));
    var all := Put(done, key, child.value);
    if rest == [] {
      assert after == Close(last);
      CloseAfter(cfg, doc, pos, all, Means(m.name) == "", child, last);
      GatherNone(all);
    } else {
      GappedHead(rest, gaps, last);
      GapStep(cfg, doc, pos, all, Means(m.name) == "", child, gaps[0], GappedRest(rest, gaps[1..], last));
      var comment := ReadToken(doc, child.end);
      GappedBack(cfg, doc, SkipComments(doc, comment.end).end, all, Means(m.name) == "", rest, gaps[1..], last);
    }
  }

  lemma GappedFollow(rest: seq<SMember>, gaps: seq<Gap>, last: seq<Gap>)
    requires |gaps| == |rest| && GapsOK(gaps) && GapsOK(last)
    ensures Follow(GappedSpelling(rest, gaps) + Close(last))
    ensures rest == [] ==> GappedSpelling(rest, gaps) == []
  {
  }

  lemma GappedHead(rest: seq<SMember>, gaps: seq<Gap>, last: seq<Gap>)
    requires |gaps| == |rest| > 0 && GapsOK(gaps)
    ensures IsComment(gaps[0].comment) && MarkOK(gaps[0].mark) && GapsOK(gaps[1..])
    ensures var next := GappedRest(rest, gaps[1..], last);
      && GappedSpelling(rest, gaps) + Close(last) == [gaps[0].comment] + ([MarkText(gaps[0].mark)] + next)
      && Follow(next)
  {
    hide Spelling, IsComment, MarkOK, MarkText, Close, NameSpelling;
    var comment, mark, close := [gaps[0].comment], [MarkText(gaps[0].mark)], Close(last);
    var head, tail := NameSpelling(rest[0].name) + Spelling(rest[0].value), GappedSpelling(rest[1..], gaps[1..]);
    Regroup(head, tail, close);
    Regroup(mark, head + tail, close);
    Regroup(comment, mark + (head + tail), close);
    NameFollows(rest[0].name, Spelling(rest[0].value) + (tail + close));
    Regroup(NameSpelling(rest[0].name), Spelling(rest[0].value), tail + close);
  }

  lemma NameFollows(name: seq<Piece>, more: seq<string>)
    ensures Follow(NameSpelling(name) + more)
  {
    assert (NameSpelling(name) + more)[0] == Lexeme(name);
  }

  lemma CloseAfter(cfg: Config, doc: string, pos: nat, all: seq<Member>, unnamed: bool, child: Parsed, last: seq<Gap>)
    requires pos < child.end <= |doc| && child.ok && child.errors == []
    requires |last| <= 1 && GapsOK(last) && Laid(doc, child.end, Close(last))
    ensures var r := AfterMember(cfg, doc, pos, all, unnamed, child);
      r.value == Object(all) && (r.ok <==> last == [] || unnamed)
  {
    hide Laid, ReadToken, SkipComments, ReadMembers, IsComment, MarkOK, MarkText;
    assert ["}"] == ["}"] + [];
    if last == [] {
      PunctuationReads(doc, child.end, '}', []);
    } else {
      GapStep(cfg, doc, pos, all, unnamed, child, last[0], ["}"]);
      var end := SkipComments(doc, ReadToken(doc, child.end).end).end;
      PunctuationReads(doc, end, '}', []);
      FirstReads(cfg, doc, end, "}", ObjectEnd, []);
      BraceDue(cfg, doc, end, all, unnamed);
    }
  }

  lemma GapStep(cfg: Config, doc: string, pos: nat, all: seq<Member>, unnamed: bool, child: Parsed, gap: Gap,
      next: seq<string>)
    requires pos < child.end <= |doc| && child.ok && child.errors == []
    requires IsComment(gap.comment) && MarkOK(gap.mark) && Follow(next)
    requires Laid(doc, child.end, [gap.comment] + ([MarkText(gap.mark)] + next))
    ensures var mark := SkipComments(doc, ReadToken(doc, child.end).end);
      && Laid(doc, mark.end, next)
      && AfterMember(cfg, doc, pos, all, unnamed, child) == ReadMembers(cfg, doc, mark.end, all, unnamed)
  {
    hide Laid, ReadToken, ReadMembers, IsComment, MarkOK, MarkText;
    CommentReads(doc, child.end, gap.comment, [MarkText(gap.mark)] + next);
    MarkReads(doc, ReadToken(doc, child.end).end, gap.mark, next);
  }

  /** For instance `{"":[]/**/x}`, with comments disallowed too. */
  lemma SwallowedToken(cfg: Config, was: Value)
    ensures var r := Parse(cfg, "{\"\":[]/**/x}", was); r.ok && r.value == Object([Member("", Array([]))])
  {
    hide Laid, Parse, Gather, Spelling, GrammaticalMembers, GappedRest, Means, PiecesOK, IsComment, MarkOK;
    var m, last := SMember([], SArray([])), [Gap("/**/", Single('x'))];
    SwallowedMember(m, last);
    SwallowedLaid(m, last);
    AnySeparates(cfg, "{\"\":[]/**/x}", was, [m], [], last);
  }

  lemma SwallowedMember(m: SMember, last: seq<Gap>)
    requires m == SMember([], SArray([])) && last == [Gap("/**/", Single('x'))]
    ensures GapsOK(last) && PiecesOK(m.name) && Means(m.name) == "" && Denotes(m.value) == Array([])
    ensures GrammaticalMembers([m]) && Gather([], [m]) == [Member("", Array([]))]
  {
    hide Gather;
    MembersHead([], [m]);
    GatherNone(Put([], "", Array([])));
    assert [m][1..] == [];
  }

  lemma SwallowedLaid(m: SMember, last: seq<Gap>)
    requires m == SMember([], SArray([])) && last == [Gap("/**/", Single('x'))]
    ensures Laid("{\"\":[]/**/x}", 0, ["{"] + GappedRest([m], [], last))
  {
    hide Laid, Concat, GappedRest;
    var text := ["{", "\"\"", ":", "[", "]", "/**/", "x", "}"];
    EmptyLaid();
    LaidText("", [], text);
    SwallowedText(text);
    SwallowedRest(m, last);
    assert [] + text == ["{"] + text[1..];
  }

  lemma EmptyLaid()
    ensures Laid("", 0, [])
  {
  }

  lemma SwallowedText(text: seq<string>)
    requires text == ["{", "\"\"", ":", "[", "]", "/**/", "x", "}"]
    ensures "" + Concat(text) == "{\"\":[]/**/x}"
  {
    var head, tail := ["{", "\"\"", ":", "["], ["]", "/**/", "x", "}"];
    assert Concat(head) == "{\"\":[" && Concat(tail) == "]/**/x}";
    ConcatAppend(head, tail);
    assert head + tail == text;
  }

  lemma SwallowedRest(m: SMember, last: seq<Gap>)
    requires m == SMember([], SArray([])) && last == [Gap("/**/", Single('x'))]
    ensures GappedRest([m], [], last) == ["\"\"", ":", "[", "]", "/**/", "x", "}"]
  {
    assert Lexeme([]) == "\"\"" && NameSpelling([]) == ["\"\"", ":"];
    assert Spelling(m.value) == ["[", "]"] && GappedSpelling([m][1..], []) == [];
  }
}
