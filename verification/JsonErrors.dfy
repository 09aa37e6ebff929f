/** What the reader says of a document it refuses. */
module JsonErrors {
  import opened JsonValue
  import opened JsonText
  import opened JsonLexer
  import opened JsonStrings
  import opened JsonParser
  import opened JsonLanguage
  import opened JsonAccepted

  // --------------------------------------------------------------------- strings

  /** The escape at `p` is wrong in the way the message says. */
  ghost predicate WrongEscape(doc: string, p: nat, end: nat, m: Message)
    requires p < end <= |doc|
  {
    && doc[p] == '\\'
    && if p + 1 == end then m == EmptyEscape
       else if doc[p + 1] != 'u' then m == BadEscape && doc[p + 1] !in ShortLetters
       else
         var unit := UnitAt(doc, p + 2, end);
         match m
         case FourDigitsExpected => end < p + 6
         case HexDigitExpected => p + 6 <= end && !FourDigits(doc[p + 2..p + 6])
         case ShortSurrogatePair => IsHighSurrogate(unit) && end < p + 12
         case NoSecondHalf => IsHighSurrogate(unit) && p + 12 <= end && (doc[p + 6] != '\\' || doc[p + 7] != 'u')
         case _ => false
  }

  ghost predicate HasWrongEscape(doc: string, start: nat, end: nat, m: Message)
    requires end <= |doc|
  {
    exists p: nat :: start <= p < end && WrongEscape(doc, p, end, m)
  }

  /** A string that is not decoded has such an escape. */
  lemma {:induction false} WrongEscapeFound(doc: string, pos: nat, end: nat) returns (p: nat)
    requires pos <= end <= |doc| && DecodeFrom(doc, pos, end).Bad?
    ensures pos <= p < end && WrongEscape(doc, p, end, DecodeFrom(doc, pos, end).message)
    decreases end - pos
  {
    hide EscapeSequence, Utf8, Combine, FourDigits, Spelled, ShortMeaning, ShortEscape, DecodeCodePoint;
    if doc[pos] != '\\' {
      p := WrongEscapeFound(doc, pos + 1, end);
    } else if pos + 1 == end {
      p := pos;
    } else if doc[pos + 1] != 'u' {
      ShortTable();
      if doc[pos + 1] in ShortLetters {
        ShortMeans(doc[pos + 1]);
        p := WrongEscapeFound(doc, pos + 2, end);
      } else {
        p := pos;
      }
    } else if DecodeCodePoint(doc, pos + 2, end).Good? {
      p := WrongEscapeFound(doc, DecodeCodePoint(doc, pos + 2, end).value.next, end);
    } else {
      p := WrongUnit(doc, pos, end);
    }
  }

  // The table holds no NUL.
  lemma ShortMeans(c: char)
    requires c in ShortLetters
    ensures ShortMeaning(c) != '\0'
  {
    hide Place;
    var k := Place(ShortLetters, c);
  }

  lemma WrongUnit(doc: string, pos: nat, end: nat) returns (p: nat)
    requires pos + 2 <= end <= |doc| && doc[pos] == '\\' && doc[pos + 1] == 'u'
    requires DecodeCodePoint(doc, pos + 2, end).Bad?
    ensures pos <= p < end && WrongEscape(doc, p, end, DecodeCodePoint(doc, pos + 2, end).message)
  {
    hide EscapeSequence, FourDigits, Spelled;
    HexIff(doc, pos + 2, end);
    WrongDigits(doc, pos + 2, end);
    p := pos;
    if EscapeSequence(doc, pos + 2, end).Good? && pos + 12 <= end && doc[pos + 6] == '\\' && doc[pos + 7] == 'u' {
      HexIff(doc, pos + 8, end);
      WrongDigits(doc, pos + 8, end);
      p := pos + 6;
    }
  }

  lemma WrongDigits(doc: string, pos: nat, end: nat)
    requires pos <= end <= |doc|
    ensures var r := EscapeSequence(doc, pos, end);
      r.Bad? ==> r.message == if end < pos + 4 then FourDigitsExpected else HexDigitExpected
  {
    if pos + 4 <= end {
      OnlyDigits(doc, pos, 4, 0);
    }
  }

  lemma {:induction false} OnlyDigits(doc: string, pos: nat, count: nat, high: nat)
    requires pos + count <= |doc|
    ensures var r := HexNumber(doc, pos, count, high); r.Bad? ==> r.message == HexDigitExpected
    decreases count
  {
    hide HexValue;
    if count > 0 && HexValue(doc[pos]) >= 0 {
      OnlyDigits(doc, pos + 1, count - 1, high * 16 + HexValue(doc[pos]));
    }
  }

  // ---------------------------------------------------------------------- errors

  /** The token an error points at cannot stand where the message says what is expected. */
  ghost predicate Fits(cfg: Config, doc: string, e: ErrorInfo) {
    var t := e.token;
    && t.start <= t.end <= |doc|
    && (exists p: nat :: p <= |doc| && ReadToken(doc, p) == t)
    && match e.message
       case ValueExpected =>
         !t.kind.ObjectBegin? && !t.kind.ArrayBegin? && !t.kind.Str? && !t.kind.Number?
         && !t.kind.True? && !t.kind.False? && !t.kind.Null?
       case MissingNameOrBrace => !t.kind.Str?
       case MissingColon => !t.kind.Colon?
       case MissingCommaOrBrace => !t.kind.Comma? && !t.kind.ObjectEnd? && !t.kind.Comment?
       case MissingCommaOrBracket => !t.kind.Comma? && !t.kind.ArrayEnd? && !t.kind.Comment?
       case NotANumber => t.kind.Number? && cfg.scan(doc[t.start..t.end]) == Option.None
       case RootNotContainer => false
       case m => t.kind.Str? && t.start < t.end - 1 && HasWrongEscape(doc, t.start + 1, t.end - 1, m)
  }

  /** A value that is not read leaves exactly one error, and it fits. */
  ghost predicate OneError(cfg: Config, doc: string, r: Parsed) {
    r.ok || (|r.errors| == 1 && Fits(cfg, doc, r.errors[0]))
  }

  lemma FitsAt(cfg: Config, doc: string, p: nat, m: Message)
    requires p <= |doc| && m in {ValueExpected, MissingNameOrBrace, MissingColon, MissingCommaOrBrace,
                                 MissingCommaOrBracket}
    requires var k := ReadToken(doc, p).kind;
      match m
      case ValueExpected =>
        !k.ObjectBegin? && !k.ArrayBegin? && !k.Str? && !k.Number? && !k.True? && !k.False? && !k.Null?
      case MissingNameOrBrace => !k.Str?
      case MissingColon => !k.Colon?
      case MissingCommaOrBrace => !k.Comma? && !k.ObjectEnd? && !k.Comment?
      case _ => !k.Comma? && !k.ArrayEnd? && !k.Comment?
    ensures Fits(cfg, doc, ErrorInfo(m, ReadToken(doc, p)))
  {
    hide ReadToken;
  }

  lemma QuoteFits(cfg: Config, doc: string, p: nat)
    requires p <= |doc| && ReadToken(doc, p).kind.Str? && ReadToken(doc, p).start + 2 <= ReadToken(doc, p).end
    requires DecodeString(doc, ReadToken(doc, p)).Bad?
    ensures var t := ReadToken(doc, p); Fits(cfg, doc, ErrorInfo(DecodeString(doc, t).message, t))
  {
    hide ReadToken, WrongEscape, DecodeFrom;
    var t := ReadToken(doc, p);
    NothingBad(doc, t.start + 1);
    var q := WrongEscapeFound(doc, t.start + 1, t.end - 1);
    EscapeMessages(doc, q, t.end - 1, DecodeString(doc, t).message);
  }

  lemma NothingBad(doc: string, pos: nat)
    ensures pos <= |doc| ==> DecodeFrom(doc, pos, pos).Good?
  {
  }

  lemma EscapeMessages(doc: string, p: nat, end: nat, m: Message)
    requires p < end <= |doc| && WrongEscape(doc, p, end, m)
    ensures m in {EmptyEscape, BadEscape, FourDigitsExpected, HexDigitExpected, ShortSurrogatePair, NoSecondHalf}
  {
    hide FourDigits;
  }

  lemma NumberFits(cfg: Config, doc: string, p: nat)
    requires p <= |doc| && ReadToken(doc, p).kind.Number?
    ensures var t := ReadToken(doc, p);
      var text := doc[t.start..t.end];
      && IsNumberText(text)
      && (DecodeNumber(cfg.scan, text).Bad? ==>
            Fits(cfg, doc, ErrorInfo(DecodeNumber(cfg.scan, text).message, t)))
  {
    hide ReadToken, IsNumberText, LooksReal, Numeral;
    TokenShape(doc, p);
  }

  lemma {:induction false} ReadErrors(cfg: Config, doc: string, pos: nat, was: Value)
    requires pos <= |doc|
    ensures OneError(cfg, doc, ReadValue(cfg, doc, pos, was))
    decreases |doc| - pos, 0
  {
    hide FirstToken, ReadToken, ReadMembers, ReadItems, DecodeNumber, DecodeString, AfterSpaces, Fits, IsNumberText;
    var t := FirstToken(cfg.allowComments, doc, pos);
    var p := FirstFrom(cfg, doc, pos);
    match t.kind
    case ObjectBegin => MembersErrors(cfg, doc, t.end, [], true);
    case ArrayBegin => ItemsErrors(cfg, doc, AfterSpaces(doc, t.end), []);
    case Number => NumberFits(cfg, doc, p);
    case Str =>
      if DecodeString(doc, t).Bad? {
        QuoteFits(cfg, doc, p);
      }
    case True =>
    case False =>
    case Null =>
    case _ => FitsAt(cfg, doc, p, ValueExpected);
  }

  lemma {:induction false} ItemsErrors(cfg: Config, doc: string, pos: nat, items: seq<Value>)
    requires pos <= |doc|
    ensures OneError(cfg, doc, ReadItems(cfg, doc, pos, items))
    decreases |doc| - pos, 1
  {
    hide ReadValue, SkipComments, ReadToken, Fits, Recover;
    ReadErrors(cfg, doc, pos, Value.Null);
    var child := ReadValue(cfg, doc, pos, Value.Null);
    if child.ok {
      var t := SkipComments(doc, child.end);
      if t.kind.Comma? {
        ItemsErrors(cfg, doc, t.end, items + [child.value]);
      } else if !t.kind.ArrayEnd? {
        var p := SkipFrom(doc, child.end);
        FitsAt(cfg, doc, p, MissingCommaOrBracket);
      }
    }
  }

  lemma {:induction false} MembersErrors(cfg: Config, doc: string, pos: nat, members: seq<Member>, unnamed: bool)
    requires pos <= |doc|
    ensures OneError(cfg, doc, ReadMembers(cfg, doc, pos, members, unnamed))
    decreases |doc| - pos, 1
  {
    hide ReadValue, SkipComments, ReadToken, Fits, Recover, AfterMember, DecodeString, Put, Find, CString;
    var t := SkipComments(doc, pos);
    var p := SkipFrom(doc, pos);
    if t.kind.Str? {
      if DecodeString(doc, t).Bad? {
        QuoteFits(cfg, doc, p);
      } else {
        var full, colon := DecodeString(doc, t).value, ReadToken(doc, t.end);
        if colon.kind.Colon? {
          var name := CString(full);
          ReadErrors(cfg, doc, colon.end, Find(members, name));
          var child := ReadValue(cfg, doc, colon.end, Find(members, name));
          AfterErrors(cfg, doc, pos, Put(members, name, child.value), full == "", child);
        } else {
          FitsAt(cfg, doc, t.end, MissingColon);
        }
      }
    } else if !(t.kind.ObjectEnd? && unnamed) {
      FitsAt(cfg, doc, p, MissingNameOrBrace);
    }
  }

  lemma {:induction false} AfterErrors(cfg: Config, doc: string, pos: nat, members: seq<Member>, unnamed: bool,
      child: Parsed)
    requires pos < child.end <= |doc| && (child.ok <==> child.errors == []) && OneError(cfg, doc, child)
    ensures OneError(cfg, doc, AfterMember(cfg, doc, pos, members, unnamed, child))
    decreases |doc| - pos, 0
  {
    hide SkipComments, ReadToken, ReadMembers, Fits, Recover;
    if child.ok {
      var t := ReadToken(doc, child.end);
      if t.kind.ObjectEnd? || t.kind.Comma? || t.kind.Comment? {
        var last := if t.kind.Comment? then SkipComments(doc, t.end) else t;
        if !last.kind.ObjectEnd? {
          MembersErrors(cfg, doc, last.end, members, unnamed);
        }
      } else {
        FitsAt(cfg, doc, child.end, MissingCommaOrBrace);
      }
    }
  }

  /** A document that does not parse leaves one error that fits, if its value is not read, and the one
      about the root, if the strict mode refuses it. */
  lemma ParseErrors(cfg: Config, doc: string, was: Value)
    ensures var r, v := Parse(cfg, doc, was), ReadValue(cfg, doc, 0, was);
      var root := if cfg.strictRoot && !r.value.Array? && !r.value.Object? then
        [ErrorInfo(RootNotContainer, Token(Error, 0, |doc|))] else [];
      && r.errors == v.errors + root && (v.ok <==> v.errors == [])
      && (!v.ok ==> |v.errors| == 1 && Fits(cfg, doc, v.errors[0]))
  {
    hide ReadValue, FirstToken, Fits;
    ReadErrors(cfg, doc, 0, was);
  }

  // -------------------------------------------------------------------- recovery

  /** Recovery skips to the first token of the kind it looks for, or to an end of stream. */
  lemma {:induction false} RecoverIs(doc: string, pos: nat, kind: Kind) returns (ls: seq<Lex>)
    requires pos <= |doc|
    ensures Scanned(doc, pos, ls, Recover(doc, pos, kind)) && ls != []
    ensures forall k :: 0 <= k < |ls| - 1 ==> ls[k].kind != kind && !ls[k].kind.EndOfStream?
    ensures ls[|ls| - 1].kind == kind || ls[|ls| - 1].kind.EndOfStream?
    decreases |doc| - pos
  {
    hide ReadToken;
    var t := ReadToken(doc, pos);
    var l := Lex(t.kind, doc[t.start..t.end]);
    if t.kind == kind || t.kind.EndOfStream? {
      ls := [l];
      ScannedOne(doc, pos, l, [], t.end);
      assert [l] + [] == [l];
    } else {
      var rest := RecoverIs(doc, t.end, kind);
      ScannedOne(doc, pos, l, rest, Recover(doc, pos, kind));
      ls := [l] + rest;
    }
  }
}
