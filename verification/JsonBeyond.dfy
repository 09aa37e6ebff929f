/** What the reader accepts beyond the texts of RFC 8259. */
module JsonBeyond {
  import opened JsonValue
  import opened JsonText
  import opened JsonLexer
  import opened JsonStrings
  import opened JsonParser
  import opened JsonGrammar
  import opened JsonStable
  import opened JsonRoundTrip

  // -------------------------------------------------------- what follows the value

  // A text of the grammar is read, and only a number can be at the edge.
  lemma TextRead(cfg: Config, doc: string, was: Value, t: Syntax)
    requires Grammatical(t) && Laid(doc, 0, Spelling(t))
    ensures ReadValue(cfg, doc, 0, was).ok && ReadValue(cfg, doc, 0, was).value == Denotes(t)
    ensures AtEdge(cfg, doc, 0) ==> FirstToken(cfg.allowComments, doc, 0).kind.Number? && t.SNumber?
    ensures t.SNumber? ==> FirstToken(cfg.allowComments, doc, 0).kind.Number?
  {
    hide Laid, ReadValue, Spelling, Grammatical, FirstToken, OpenEnd;
    assert Spelling(t) + [] == Spelling(t);
    ReadBack(cfg, doc, 0, was, t, []);
    var nul := cfg.(behind := '\0');
    ReadBack(nul, doc, 0, was, t, []);
    EndsSame(cfg, nul, doc);
    if OpenEnd(nul, doc, 0) {
      OpenReads(nul, doc, 0, was);
    }
    NumberIff(cfg, doc, 0, was);
  }

  lemma NumberIff(cfg: Config, doc: string, pos: nat, was: Value)
    requires pos <= |doc| && ReadValue(cfg, doc, pos, was).ok
    ensures var v := ReadValue(cfg, doc, pos, was).value;
      FirstToken(cfg.allowComments, doc, pos).kind.Number? <==> v.Int? || v.UInt? || v.Real?
  {
    hide FirstToken, ReadItems, ReadMembers, DecodeString, AfterSpaces, Numeral, LooksReal, Unsigned;
    MembersAre(cfg, doc, pos);
  }

  // Objects and arrays are read as such.
  lemma MembersAre(cfg: Config, doc: string, pos: nat)
    requires pos <= |doc|
    ensures forall p: nat, ms, u | p <= |doc| :: ReadMembers(cfg, doc, p, ms, u).value.Object?
    ensures forall p: nat, vs | p <= |doc| :: ReadItems(cfg, doc, p, vs).value.Array?
  {
    forall p: nat, ms, u | p <= |doc| ensures ReadMembers(cfg, doc, p, ms, u).value.Object? {
      MembersObject(cfg, doc, p, ms, u);
    }
    forall p: nat, vs | p <= |doc| ensures ReadItems(cfg, doc, p, vs).value.Array? {
      ItemsArray(cfg, doc, p, vs);
    }
  }

  lemma {:induction false} MembersObject(cfg: Config, doc: string, pos: nat, members: seq<Member>, unnamed: bool)
    requires pos <= |doc|
    ensures ReadMembers(cfg, doc, pos, members, unnamed).value.Object?
    decreases |doc| - pos
  {
    hide SkipComments, ReadToken, ReadValue, DecodeString, Put, Find, CString, Recover;
    var t := SkipComments(doc, pos);
    if t.kind.Str? && DecodeString(doc, t).Good? && ReadToken(doc, t.end).kind.Colon? {
      var name, colon := CString(DecodeString(doc, t).value), ReadToken(doc, t.end);
      var child := ReadValue(cfg, doc, colon.end, Find(members, name));
      var u := ReadToken(doc, child.end);
      var last := if u.kind.Comment? then SkipComments(doc, u.end) else u;
      MembersObject(cfg, doc, last.end, Put(members, name, child.value), DecodeString(doc, t).value == "");
    }
  }

  lemma {:induction false} ItemsArray(cfg: Config, doc: string, pos: nat, items: seq<Value>)
    requires pos <= |doc|
    ensures ReadItems(cfg, doc, pos, items).value.Array?
    decreases |doc| - pos
  {
    hide SkipComments, ReadValue, Recover;
    var child := ReadValue(cfg, doc, pos, Value.Null);
    var t := SkipComments(doc, child.end);
    if t.kind.Comma? {
      ItemsArray(cfg, doc, t.end, items + [child.value]);
    }
  }

  lemma ParseOf(cfg: Config, doc: string, was: Value)
    ensures var p, r := Parse(cfg, doc, was), ReadValue(cfg, doc, 0, was);
      p.value == r.value && (p.ok <==> r.ok && RootAllowed(cfg, r.value))
  {
    hide ReadValue, FirstToken;
  }

  /** Whatever follows a text that is no number is not looked at. */
  lemma TrailingPasses(cfg: Config, doc: string, tail: string, was: Value, t: Syntax)
    requires Grammatical(t) && !t.SNumber? && Laid(doc, 0, Spelling(t))
    ensures var r := Parse(cfg, doc + tail, was);
      r.value == Denotes(t) && (r.ok <==> RootAllowed(cfg, Denotes(t)))
  {
    hide Laid, ReadValue, Parse, Spelling, Grammatical, AtEdge, FirstToken;
    TextRead(cfg, doc, was, t);
    ReadMore(cfg, doc, tail, 0, was);
    ParseOf(cfg, doc + tail, was);
  }

  /** What follows a number is not looked at either, exactly unless it goes on with a number
      character right behind the last digit. */
  lemma TrailingNumber(cfg: Config, doc: string, tail: string, was: Value, t: Syntax)
    requires Grammatical(t) && t.SNumber? && Laid(doc, 0, Spelling(t))
    ensures doc != [] && var apart := IsSpace(doc[|doc| - 1]) || tail == [] || !IsNumberChar(tail[0]);
      && (ReadValue(cfg, doc + tail, 0, was) == ReadValue(cfg, doc, 0, was) <==> apart)
      && (apart ==>
            var r := Parse(cfg, doc + tail, was);
            r.value == Denotes(t) && (r.ok <==> RootAllowed(cfg, Denotes(t))))
  {
    hide Laid, ReadValue, Parse, Spelling, Grammatical, AtEdge, FirstToken;
    TextRead(cfg, doc, was, t);
    NumberReadMore(cfg, doc, tail, 0, was);
    NumberLast(cfg, doc, was, t);
    ParseOf(cfg, doc + tail, was);
  }

  // A number's text ends with the number or with white space.
  lemma NumberLast(cfg: Config, doc: string, was: Value, t: Syntax)
    requires Grammatical(t) && t.SNumber? && Laid(doc, 0, Spelling(t))
    requires FirstToken(cfg.allowComments, doc, 0).kind.Number?
    ensures doc != [] && (ReadValue(cfg, doc, 0, was).end < |doc| <==> IsSpace(doc[|doc| - 1]))
  {
    hide Laid, Spelling, Grammatical, FirstToken, DecodeNumber;
    assert Spelling(t) + [] == Spelling(t);
    ReadBack(cfg, doc, 0, was, t, []);
    var token := FirstToken(cfg.allowComments, doc, 0);
    var text := doc[token.start..token.end];
    assert IsNumberChar(text[|text| - 1]);
    SpaceLeft(doc, token.end);
  }

  lemma {:induction false} SpaceLeft(doc: string, pos: nat)
    requires pos <= |doc| && Laid(doc, pos, [])
    ensures pos < |doc| ==> IsSpace(doc[|doc| - 1])
    decreases |doc| - pos
  {
    if pos < |doc| {
      SpaceLeft(doc, pos + 1);
    }
  }

  /** For instance `[] x`. */
  lemma TrailingWitness(cfg: Config, was: Value)
    ensures Parse(cfg, "[] x", was).ok && Parse(cfg, "[] x", was).value == Array([])
  {
    hide Parse, Laid, Spelling, Denotes;
    BracketsLaid();
    TrailingPasses(cfg, "[]", " x", was, SArray([]));
    assert "[]" + " x" == "[] x";
  }

  lemma BracketsLaid()
    ensures Laid("[]", 0, Spelling(SArray([]))) && Denotes(SArray([])) == Array([])
  {
    LaidText("", [], ["[", "]"]);
    assert "" + Concat(["[", "]"]) == "[]";
    assert [] + ["[", "]"] == Spelling(SArray([]));
  }

  // ------------------------------------------------- the byte behind the document

  /** Elsewhere a value that is read is read the same before any other byte. */
  lemma {:induction false} ReadSame(cfg: Config, other: Config, doc: string, pos: nat, was: Value)
    requires pos <= |doc| && other == cfg.(behind := other.behind)
    requires ReadValue(cfg, doc, pos, was).ok && !OpenEnd(cfg, doc, pos)
    ensures ReadValue(other, doc, pos, was) == ReadValue(cfg, doc, pos, was)
    decreases |doc| - pos, 0
  {
    hide FirstToken, ReadToken, ReadMembers, ReadItems, DecodeNumber, DecodeString, AfterSpaces;
    var t := FirstToken(cfg.allowComments, doc, pos);
    if t.kind.ObjectBegin? {
      MembersSame(cfg, other, doc, t.end, [], true);
    } else if t.kind.ArrayBegin? {
      var p := AfterSpaces(doc, t.end);
      if doc[p] != ']' {
        ItemsSame(cfg, other, doc, p, []);
      }
    }
  }

  lemma {:induction false} ItemsSame(cfg: Config, other: Config, doc: string, pos: nat, items: seq<Value>)
    requires pos <= |doc| && other == cfg.(behind := other.behind) && ReadItems(cfg, doc, pos, items).ok
    ensures ReadItems(other, doc, pos, items) == ReadItems(cfg, doc, pos, items)
    decreases |doc| - pos, 1
  {
    hide ReadValue, SkipComments, OpenEnd;
    var child := ReadValue(cfg, doc, pos, Value.Null);
    var t := SkipComments(doc, child.end);
    if OpenEnd(cfg, doc, pos) {
      OpenReads(cfg, doc, pos, Value.Null);
    }
    ReadSame(cfg, other, doc, pos, Value.Null);
    if t.kind.Comma? {
      ItemsSame(cfg, other, doc, t.end, items + [child.value]);
    }
  }

  lemma {:induction false} MembersSame(cfg: Config, other: Config, doc: string, pos: nat, members: seq<Member>,
      unnamed: bool)
    requires pos <= |doc| && other == cfg.(behind := other.behind) && ReadMembers(cfg, doc, pos, members, unnamed).ok
    ensures ReadMembers(other, doc, pos, members, unnamed) == ReadMembers(cfg, doc, pos, members, unnamed)
    decreases |doc| - pos, 1
  {
    hide ReadValue, SkipComments, ReadToken, OpenEnd, AfterMember, DecodeString, Put, Find, CString;
    var t := SkipComments(doc, pos);
    if t.kind.Str? {
      var full, colon := DecodeString(doc, t).value, ReadToken(doc, t.end);
      var name := CString(full);
      var child := ReadValue(cfg, doc, colon.end, Find(members, name));
      AfterSame(cfg, other, doc, pos, Put(members, name, child.value), full == "", child);
      if OpenEnd(cfg, doc, colon.end) {
        OpenReads(cfg, doc, colon.end, Find(members, name));
      }
      ReadSame(cfg, other, doc, colon.end, Find(members, name));
    }
  }

  lemma {:induction false} AfterSame(cfg: Config, other: Config, doc: string, pos: nat, members: seq<Member>,
      unnamed: bool, child: Parsed)
    requires pos < child.end <= |doc| && (child.ok <==> child.errors == []) && other == cfg.(behind := other.behind)
    requires AfterMember(cfg, doc, pos, members, unnamed, child).ok
    ensures child.ok && child.end < |doc|
    ensures AfterMember(other, doc, pos, members, unnamed, child) == AfterMember(cfg, doc, pos, members, unnamed, child)
    decreases |doc| - pos, 0
  {
    hide ReadToken, SkipComments, ReadMembers;
    var t := ReadToken(doc, child.end);
    var last := if t.kind.Comment? then SkipComments(doc, t.end) else t;
    if !last.kind.ObjectEnd? {
      MembersSame(cfg, other, doc, last.end, members, unnamed);
    }
  }

  /** A document parses before any byte if it parses before a NUL, to the same value; if not, it
      parses exactly before a bracket, when it is an open bracket, and then to an empty array. */
  lemma BehindDecides(cfg: Config, doc: string, was: Value)
    ensures var r, s := Parse(cfg, doc, was), Parse(cfg.(behind := '\0'), doc, was);
      && (s.ok ==> r == s)
      && (!s.ok ==> (r.ok <==> cfg.behind == ']' && OpenEnd(cfg, doc, 0)))
      && (!s.ok && r.ok ==> r.value == Array([]))
  {
    hide ReadValue, FirstToken, OpenEnd;
    var nul := cfg.(behind := '\0');
    EndsSame(cfg, nul, doc);
    if OpenEnd(cfg, doc, 0) {
      OpenReads(cfg, doc, 0, was);
      OpenReads(nul, doc, 0, was);
    } else {
      if ReadValue(cfg, doc, 0, was).ok {
        ReadSame(cfg, nul, doc, 0, was);
      }
      if ReadValue(nul, doc, 0, was).ok {
        ReadSame(nul, cfg, doc, 0, was);
      }
    }
  }

  lemma EndsSame(cfg: Config, other: Config, doc: string)
    requires other == cfg.(behind := other.behind)
    ensures OpenEnd(cfg, doc, 0) <==> OpenEnd(other, doc, 0)
  {
    hide FirstToken, AfterSpaces;
  }

  // ------------------------------------------------------------------- numbers

  /** Digits may begin with zeros, and may be missing behind a minus. */
  lemma {:induction false} LooseIntegers(cfg: Config, digits: string)
    requires AllDigits(digits) && Numeral(digits) <= MaxLargestInt
    ensures digits != [] ==> DecodeNumber(cfg.scan, digits) == Good(Integer(Numeral(digits)))
    ensures DecodeNumber(cfg.scan, "-" + digits) == Good(Integer(-(Numeral(digits) as int)))
    ensures !IsInteger("-") && !IsInteger("01")
  {
    var s := "-" + digits;
    assert s[1..] == digits;
    assert forall k :: 1 <= k < |s| ==> s[k] == digits[k - 1];
  }

  // ------------------------------------------------------------ a comma at the end

  /** The lexemes of an object with a comma behind its last member. */
  function CommaSpelling(members: seq<SMember>): seq<string> {
    ["{"] + MemberSpelling(members, true) + [",", "}"]
  }

  /** However such an object is laid out, its members are read; it is accepted exactly when the last
      name means the empty string. */
  lemma CommaPasses(cfg: Config, doc: string, was: Value, members: seq<SMember>)
    requires members != [] && GrammaticalMembers(members) && Laid(doc, 0, CommaSpelling(members))
    ensures PiecesOK(members[|members| - 1].name)
    ensures Parse(cfg, doc, was).value == Object(Gather([], members))
    ensures Parse(cfg, doc, was).ok <==> Means(members[|members| - 1].name) == ""
  {
    hide Laid, ReadToken, FirstToken, SkipComments, ReadMembers, MemberSpelling, GrammaticalMembers, NameSpelling;
    hide Gather, Means, PiecesOK, Parse, Spelling;
    var close := [",", "}"];
    var after := MemberSpelling(members, true) + close;
    assert CommaSpelling(members) == ["{"] + after;
    PunctuationReads(doc, 0, '{', after);
    FirstReads(cfg, doc, 0, "{", ObjectBegin, after);
    var token := ReadToken(doc, 0);
    MembersHead([], members);
    Regroup(NameSpelling(members[0].name) + Spelling(members[0].value), MemberSpelling(members[1..], false), close);
    CommaBack(cfg, doc, token.end, [], true, members);
    ParseOf(cfg, doc, was);
  }

  lemma {:induction false} CommaBack(cfg: Config, doc: string, pos: nat, done: seq<Member>, unnamed: bool,
                                     members: seq<SMember>)
    requires members != [] && GrammaticalMembers(members) && pos <= |doc|
    requires Laid(doc, pos, NameSpelling(members[0].name) + Spelling(members[0].value)
                            + (MemberSpelling(members[1..], false) + [",", "}"]))
    ensures PiecesOK(members[|members| - 1].name)
    ensures var r := ReadMembers(cfg, doc, pos, done, unnamed);
      r.value == Object(Gather(done, members)) && (r.ok <==> Means(members[|members| - 1].name) == "")
    decreases members
  {
    hide Laid, ReadToken, FirstToken, SkipComments, ReadValue, Grammatical, GrammaticalMembers, Spelling;
    hide MemberSpelling;
    hide AfterMember, Put, Find, DecodeString, Lexeme, NameSpelling, CString, Denotes, Gather, Means, PiecesOK;
    var m, rest := members[0], members[1..];
    var after := MemberSpelling(rest, false) + [",", "}"];
    MembersHead(done, members);
    NameReads(cfg, doc, pos, m, after);
    var t := ReadToken(doc, pos);
    var colon := ReadToken(doc, t.end);
    CommaFollow(rest);
    var key := CString(Means(m.name));
    ReadBack(cfg, doc, colon.end, Find(done, key), m.value, after);
    var child := ReadValue(cfg, doc, colon.end, Find(done, key));
    var all := Put(done, key, child.value);
    if rest == [] {
      LastComma(cfg, doc, pos, all, Means(m.name) == "", child);
      GatherNone(all);
    } else {
      MembersHead(all, rest);
      var next := NameSpelling(rest[0].name) + Spelling(rest[0].value) + (MemberSpelling(rest[1..], false) + [",",
          "}"]);
      assert after == [","] + next;
      PunctuationReads(doc, child.end, ',', next);
      CommaStep(cfg, doc, pos, all, Means(m.name) == "", child);
      CommaBack(cfg, doc, ReadToken(doc, child.end).end, all, Means(m.name) == "", rest);
    }
  }

  lemma CommaFollow(rest: seq<SMember>)
    ensures Follow(MemberSpelling(rest, false) + [",", "}"])
    ensures rest == [] ==> MemberSpelling(rest, false) == []
  {
  }

  // A comma leads on to the next member.
  lemma CommaStep(cfg: Config, doc: string, pos: nat, all: seq<Member>, unnamed: bool, child: Parsed)
    requires pos < child.end <= |doc| && child.ok && child.errors == [] && ReadToken(doc, child.end).kind.Comma?
    ensures AfterMember(cfg, doc, pos, all, unnamed, child)
         == ReadMembers(cfg, doc, ReadToken(doc, child.end).end, all, unnamed)
  {
    hide ReadToken, ReadMembers;
  }

  lemma LastComma(cfg: Config, doc: string, pos: nat, all: seq<Member>, unnamed: bool, child: Parsed)
    requires pos < child.end <= |doc| && child.ok && child.errors == []
    requires Laid(doc, child.end, [] + [",", "}"])
    ensures var r := AfterMember(cfg, doc, pos, all, unnamed, child);
      r.value == Object(all) && (r.ok <==> unnamed)
  {
    hide Laid, ReadToken, SkipComments, ReadMembers;
    assert [] + [",", "}"] == [","] + ["}"] && ["}"] == ["}"] + [];
    PunctuationReads(doc, child.end, ',', ["}"]);
    var t := ReadToken(doc, child.end);
    PunctuationReads(doc, t.end, '}', []);
    FirstReads(cfg, doc, t.end, "}", ObjectEnd, []);
    CommaStep(cfg, doc, pos, all, unnamed, child);
    BraceDue(cfg, doc, t.end, all, unnamed);
  }

  lemma BraceDue(cfg: Config, doc: string, pos: nat, members: seq<Member>, unnamed: bool)
    requires pos <= |doc| && SkipComments(doc, pos).kind.ObjectEnd?
    ensures var r := ReadMembers(cfg, doc, pos, members, unnamed);
      r.value == Object(members) && (r.ok <==> unnamed)
  {
    hide SkipComments;
  }
}
