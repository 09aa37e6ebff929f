/** The language the reader accepts, as a grammar over lexemes: the texts of RFC 8259 and the
    liberties the reader takes. */
module JsonLanguage {
  import opened JsonValue
  import opened JsonText
  import opened JsonLexer
  import opened JsonStrings
  import opened JsonParser
  import opened JsonGrammar
  import opened JsonRoundTrip
  import opened JsonComments

  // --------------------------------------------------------------------- lexemes

  datatype Lex = Lex(kind: Kind, text: string)

  const OpenBrace := Lex(ObjectBegin, "{")
  const CloseBrace := Lex(ObjectEnd, "}")
  const OpenBracket := Lex(ArrayBegin, "[")
  const CloseBracket := Lex(ArrayEnd, "]")
  const NameColon := Lex(Colon, ":")
  const ItemComma := Lex(Comma, ",")

  /** A comment, or a line comment that the document ends in. */
  predicate CommentText(s: string) {
    || IsComment(s)
    || (|s| >= 2 && s[0] == '/' && s[1] == '/' && forall k :: 2 <= k < |s| ==> s[k] != '\r' && s[k] != '\n')
  }

  /** What a lexeme of a kind looks like. */
  predicate IsLexeme(l: Lex) {
    match l.kind
    case ObjectBegin => l.text == "{"
    case ObjectEnd => l.text == "}"
    case ArrayBegin => l.text == "["
    case ArrayEnd => l.text == "]"
    case Str => |l.text| >= 2 && l.text[0] == '\"' && l.text[|l.text| - 1] == '\"'
    case Number => IsNumberText(l.text)
    case True => l.text == "true"
    case False => l.text == "false"
    case Null => l.text == "null"
    case Comma => l.text == ","
    case Colon => l.text == ":"
    case Comment => CommentText(l.text)
    case EndOfStream => l.text == "" || l.text == "\0"
    case Error => l.text != ""
  }

  /** The next lexemes of the document are these. */
  ghost predicate Scanned(doc: string, pos: nat, ls: seq<Lex>, end: nat)
    requires pos <= |doc|
    decreases |ls|
  {
    if ls == [] then end == pos
    else
      var t := ReadToken(doc, pos);
      ls[0] == Lex(t.kind, doc[t.start..t.end]) && Scanned(doc, t.end, ls[1..], end)
  }

  function Texts(ls: seq<Lex>): seq<string> {
    if ls == [] then [] else [ls[0].text] + Texts(ls[1..])
  }

  // ---------------------------------------------------------------------- texts

  /** Characters, escapes, and pairs of escapes as the reader takes them: control characters, lone low
      surrogates and any second half of a pair included. */
  predicate LooseOK(ps: seq<Piece>) {
    if ps == [] then true
    else if HighHex(ps[0]) then |ps| >= 2 && ps[1].Hex? && PieceOK(ps[1]) && LooseOK(ps[2..])
    else LoosePiece(ps[0]) && LooseOK(ps[1..])
  }

  predicate HighHex(p: Piece) {
    p.Hex? && PieceOK(p) && IsHighSurrogate(UnitOf(p))
  }

  predicate LoosePiece(p: Piece) {
    match p
    case Plain(c) => c != '\"' && c != '\\'
    case _ => PieceOK(p)
  }

  function LooseMeans(ps: seq<Piece>): string
    requires LooseOK(ps)
  {
    if ps == [] then []
    else if HighHex(ps[0]) then Utf8(Combine(UnitOf(ps[0]), UnitOf(ps[1]))) + LooseMeans(ps[2..])
    else LooseMeaning(ps[0]) + LooseMeans(ps[1..])
  }

  function LooseMeaning(p: Piece): string
    requires LoosePiece(p)
  {
    if p.Plain? then [p.c] else PieceMeans(p)
  }

  /** The value of a number: an optional minus and digits, perhaps none, that fit 64 bits, or else what
      the real scanner makes of it. */
  function NumberValue(scan: RealScanner, s: string): Option<Value> {
    var minus := s != "" && s[0] == '-';
    var digits := if minus then s[1..] else s;
    if AllDigits(digits) && Numeral(digits) <= (if minus then 0x8000_0000_0000_0000 else 0xFFFF_FFFF_FFFF_FFFF) then
      Some(Integer(if minus then -(Numeral(digits) as int) else Numeral(digits)))
    else
      match scan(s)
      case None => None
      case Some(shown) => Some(Real(shown))
  }

  /** A text, with the comments before it. An open list is a bracket at the end of the document. */
  datatype Phrase =
    | Word(lead: seq<string>, kind: Kind)
    | Digits(lead: seq<string>, text: string)
    | Quote(lead: seq<string>, pieces: seq<Piece>)
    | List(lead: seq<string>, items: seq<Item>)
    | Open(lead: seq<string>)
    | Record(lead: seq<string>, members: seq<Entry>, tail: seq<string>)

  /** An item, and the comments behind it. */
  datatype Item = Item(value: Phrase, gap: seq<string>)

  /** A member, the comments before it and behind it, and what separates it from the next. */
  datatype Entry = Entry(lead: seq<string>, name: seq<Piece>, value: Phrase, gap: seq<string>, mark: Lex)

  predicate CommentsOK(cs: seq<string>) {
    forall k :: 0 <= k < |cs| ==> CommentText(cs[k])
  }

  /** Comments before a value must be allowed. */
  predicate LeadOK(cfg: Config, cs: seq<string>) {
    CommentsOK(cs) && (cs == [] || cfg.allowComments)
  }

  /** The language. */
  predicate Admitted(cfg: Config, t: Phrase)
    decreases t, 0
  {
    && LeadOK(cfg, t.lead)
    && match t
       case Word(_, kind) => kind.True? || kind.False? || kind.Null?
       case Digits(_, text) => IsNumberText(text) && NumberValue(cfg.scan, text).Some?
       case Quote(_, ps) => LooseOK(ps)
       case List(_, items) => AdmittedItems(cfg, items)
       case Open(_) => cfg.behind == ']'
       case Record(_, members, tail) => AdmittedMembers(cfg, members, tail, true)
  }

  predicate AdmittedItems(cfg: Config, items: seq<Item>)
    decreases items
  {
    items == []
    || (Admitted(cfg, items[0].value) && CommentsOK(items[0].gap) && AdmittedItems(cfg, items[1..]))
  }

  /** Behind a member stands a comma or, behind a comment, any lexeme; a closing brace ends the object,
      and where a member is due only if the last name means the empty string. */
  predicate AdmittedMembers(cfg: Config, members: seq<Entry>, tail: seq<string>, unnamed: bool)
    decreases members
  {
    if members == [] then unnamed && CommentsOK(tail)
    else
      var m := members[0];
      && CommentsOK(m.lead) && LooseOK(m.name) && Admitted(cfg, m.value) && CommentsOK(m.gap)
      && IsLexeme(m.mark) && !m.mark.kind.Comment?
      && (m.gap == [] ==> m.mark == ItemComma || m.mark == CloseBrace)
      && if m.mark.kind.ObjectEnd? then |members| == 1 && tail == []
         else AdmittedMembers(cfg, members[1..], tail, LooseMeans(m.name) == "")
  }

  /** The lexemes of a text, in order. */
  function Yield(t: Phrase): seq<Lex>
    decreases t, 1
  {
    Comments(t.lead) + Body(t)
  }

  function Body(t: Phrase): seq<Lex>
    decreases t, 0
  {
    match t
    case Word(_, kind) => [Lex(kind, if kind.True? then "true" else if kind.False? then "false" else "null")]
    case Digits(_, text) => [Lex(Number, text)]
    case Quote(_, ps) => [Lex(Str, Lexeme(ps))]
    case List(_, items) => [OpenBracket] + YieldItems(items)
    case Open(_) => [OpenBracket, Lex(EndOfStream, "")]
    case Record(_, members, tail) => [OpenBrace] + YieldMembers(members, tail)
  }

  function Comments(cs: seq<string>): seq<Lex> {
    if cs == [] then [] else [Lex(Comment, cs[0])] + Comments(cs[1..])
  }

  function YieldItems(items: seq<Item>): seq<Lex>
    decreases items
  {
    if items == [] then [CloseBracket]
    else
      Yield(items[0].value) + (Comments(items[0].gap)
      + (if |items| == 1 then [CloseBracket] else [ItemComma] + YieldItems(items[1..])))
  }

  function YieldMembers(members: seq<Entry>, tail: seq<string>): seq<Lex>
    decreases members
  {
    if members == [] then Comments(tail) + [CloseBrace]
    else
      var m := members[0];
      Comments(m.lead) + ([Lex(Str, Lexeme(m.name))] + ([NameColon] + (Yield(m.value) + (Comments(m.gap)
      + ([m.mark] + if m.mark.kind.ObjectEnd? then [] else YieldMembers(members[1..], tail))))))
  }

  /** What a text means. */
  function ValueOf(cfg: Config, t: Phrase): Value
    requires Admitted(cfg, t)
    decreases t, 0
  {
    match t
    case Word(_, kind) => if kind.Null? then Value.Null else Bool(kind.True?)
    case Digits(_, text) => NumberValue(cfg.scan, text).value
    case Quote(_, ps) => String(CString(LooseMeans(ps)))
    case List(_, items) => Array(ItemValues(cfg, items))
    case Open(_) => Array([])
    case Record(_, members, tail) => Object(Collect(cfg, [], members, tail, true))
  }

  function ItemValues(cfg: Config, items: seq<Item>): seq<Value>
    requires AdmittedItems(cfg, items)
    decreases items
  {
    if items == [] then [] else [ValueOf(cfg, items[0].value)] + ItemValues(cfg, items[1..])
  }

  function Collect(cfg: Config, done: seq<Member>, members: seq<Entry>, tail: seq<string>, unnamed: bool): seq<Member>
    requires AdmittedMembers(cfg, members, tail, unnamed)
    decreases members
  {
    if members == [] then done
    else
      var m := members[0];
      var after := Put(done, CString(LooseMeans(m.name)), ValueOf(cfg, m.value));
      if m.mark.kind.ObjectEnd? then after else Collect(cfg, after, members[1..], tail, LooseMeans(m.name) == "")
  }

  /** The document begins with the lexemes of a text of the language. */
  ghost predicate Begins(cfg: Config, doc: string, t: Phrase, end: nat) {
    Admitted(cfg, t) && Scanned(doc, 0, Yield(t), end)
  }

  // ------------------------------------------------------------- what lexemes look like

  lemma {:induction false} SpacesBefore(doc: string, pos: nat)
    requires pos <= |doc|
    ensures AllSpace(doc[pos..AfterSpaces(doc, pos)])
    decreases |doc| - pos
  {
    if pos < |doc| && IsSpace(doc[pos]) {
      SpacesBefore(doc, pos + 1);
      var rest := doc[pos + 1..AfterSpaces(doc, pos)];
      assert doc[pos..AfterSpaces(doc, pos)] == [doc[pos]] + rest;
    }
  }

  lemma {:induction false} StringIs(doc: string, pos: nat)
    requires pos <= |doc| && ScanString(doc, pos).ok
    ensures var end := ScanString(doc, pos).end; pos < end <= |doc| && doc[end - 1] == '\"'
    decreases |doc| - pos
  {
    if doc[pos] == '\\' {
      StringIs(doc, Next(doc, pos + 1));
    } else if doc[pos] != '\"' {
      StringIs(doc, pos + 1);
    }
  }

  lemma {:induction false} BlockIs(doc: string, pos: nat)
    requires pos <= |doc| && BlockEnd(doc, pos) < |doc|
    ensures var end := BlockEnd(doc, pos);
      && pos < end && doc[end - 1] == '*' && doc[end] == '/'
      && forall k :: pos <= k < end - 1 ==> doc[k] != '*' || doc[k + 1] != '/'
    decreases |doc| - pos
  {
    if !(doc[pos] == '*' && CharAt(doc, pos + 1) == '/') {
      BlockIs(doc, pos + 1);
    }
  }

  lemma {:induction false} LineIs(doc: string, pos: nat)
    requires pos <= |doc|
    ensures var end := LineEnd(doc, pos);
      && (forall k :: pos <= k < end - 1 ==> doc[k] != '\r' && doc[k] != '\n')
      && (pos < end ==> doc[end - 1] == '\r' || doc[end - 1] == '\n' || end == |doc|)
    decreases |doc| - pos
  {
    if pos < |doc| && doc[pos] != '\r' && doc[pos] != '\n' {
      LineIs(doc, pos + 1);
    }
  }

  lemma {:induction false} CommentIs(doc: string, start: nat)
    requires start < |doc| && doc[start] == '/' && ScanComment(doc, start + 1).ok
    ensures CommentText(doc[start..ScanComment(doc, start + 1).end])
  {
    hide BlockEnd, LineEnd;
    var c, body, end := CharAt(doc, start + 1), Next(doc, start + 1), ScanComment(doc, start + 1).end;
    var s := doc[start..end];
    if c == '*' {
      BlockIs(doc, body);
    } else {
      LineIs(doc, body);
      if end > body && (doc[end - 1] == '\r' || doc[end - 1] == '\n') {
        assert IsComment(s);
      }
    }
  }

  /** Every token looks like a lexeme of its kind and stands behind nothing but white space. */
  lemma {:induction false} TokenIs(doc: string, pos: nat)
    requires pos <= |doc|
    ensures var t := ReadToken(doc, pos); IsLexeme(Lex(t.kind, doc[t.start..t.end])) && AllSpace(doc[pos..t.start])
  {
    hide AfterSpaces, ScanString, ScanComment, NumberEnd, CommentText, IsNumberText;
    var t := ReadToken(doc, pos);
    SpacesBefore(doc, pos);
    TokenShape(doc, pos);
    var text := doc[t.start..t.end];
    if t.start < |doc| {
      var c, p := doc[t.start], t.start + 1;
      assert t.start == AfterSpaces(doc, pos);
      if t.kind.Str? {
        StringIs(doc, p);
      } else if t.kind.Comment? {
        CommentIs(doc, t.start);
      } else if t.kind.True? || t.kind.False? || t.kind.Null? {
        assert text == [c] + doc[p..t.end];
      }
    }
  }

  // ---------------------------------------------------------------------- strings

  lemma {:induction false} LooseStep(p: Piece, rest: seq<Piece>)
    requires LoosePiece(p) && !HighHex(p) && LooseOK(rest)
    ensures var ps := [p] + rest;
      LooseOK(ps) && Text(ps) == PieceText(p) + Text(rest) && LooseMeans(ps) == LooseMeaning(p) + LooseMeans(rest)
  {
    hide LoosePiece, HighHex, LooseMeaning, PieceText;
    assert ([p] + rest)[1..] == rest;
  }

  lemma {:induction false} LoosePair(p: Piece, q: Piece, rest: seq<Piece>)
    requires HighHex(p) && q.Hex? && PieceOK(q) && LooseOK(rest)
    ensures var ps := [p, q] + rest;
      && LooseOK(ps) && Text(ps) == PieceText(p) + (PieceText(q) + Text(rest))
      && LooseMeans(ps) == Utf8(Combine(UnitOf(p), UnitOf(q))) + LooseMeans(rest)
  {
    hide HighHex, PieceOK, PieceText, UnitOf, Combine, Utf8;
    var ps := [p, q] + rest;
    assert ps[2..] == rest && ps[1..] == [q] + rest && ps[1..][1..] == rest;
  }

  /** The escape that stands at a position. */
  function HexHere(doc: string, pos: nat): Piece
    requires pos + 6 <= |doc|
  {
    Hex(doc[pos + 2], doc[pos + 3], doc[pos + 4], doc[pos + 5])
  }

  lemma {:induction false} HexStandsHere(doc: string, pos: nat)
    requires pos + 6 <= |doc| && doc[pos] == '\\' && doc[pos + 1] == 'u' && FourDigits(doc[pos + 2..pos + 6])
    ensures var p := HexHere(doc, pos);
      && HexAt(doc, pos, p) && PieceOK(p) && UnitOf(p) == Spelled(doc[pos + 2..pos + 6])
      && PieceText(p) == doc[pos..pos + 6] && ScanString(doc, pos) == ScanString(doc, pos + 6)
  {
    hide FourDigits, Spelled, ScanString;
    var p := HexHere(doc, pos);
    assert doc[pos + 2..pos + 6] == [p.a, p.b, p.c, p.d];
    HexScanned(doc, pos, p);
  }

  // Where a string is cut into pieces.
  lemma {:induction false} ScanPiece(doc: string, pos: nat, end: nat)
    requires pos < end < |doc| && ScanString(doc, pos) == Scan(true, end + 1)
    ensures doc[pos] != '\"'
    ensures doc[pos] != '\\' ==> ScanString(doc, pos + 1) == Scan(true, end + 1)
    ensures doc[pos] == '\\' ==> pos + 2 <= end && ScanString(doc, pos + 2) == Scan(true, end + 1)
  {
  }

  /** What is decoded was written as pieces that mean it. */
  lemma {:induction false} DecodeSound(doc: string, pos: nat, end: nat) returns (ps: seq<Piece>)
    requires pos <= end < |doc| && ScanString(doc, pos) == Scan(true, end + 1) && DecodeFrom(doc, pos, end).Good?
    ensures LooseOK(ps) && Text(ps) == doc[pos..end] && DecodeFrom(doc, pos, end) == Good(LooseMeans(ps))
    decreases end - pos, 1
  {
    hide DecodeCodePoint, Utf8, Combine, FourDigits, Spelled, ShortMeaning, EscapeSequence, ScanString, LooseOK;
    hide LooseMeans, Text;
    if pos == end {
      ps := [];
      NoPieces();
      return;
    }
    ScanPiece(doc, pos, end);
    if doc[pos] != '\\' {
      ps := DecodeSound(doc, pos + 1, end);
      LooseStep(Plain(doc[pos]), ps);
      assert doc[pos..end] == [doc[pos]] + doc[pos + 1..end];
      ps := [Plain(doc[pos])] + ps;
    } else if doc[pos + 1] != 'u' {
      ShortTable();
      ps := DecodeSound(doc, pos + 2, end);
      LooseStep(Short(doc[pos + 1]), ps);
      assert doc[pos..end] == [doc[pos], doc[pos + 1]] + doc[pos + 2..end];
      ps := [Short(doc[pos + 1])] + ps;
    } else {
      ps := UnitSound(doc, pos, end);
    }
  }

  lemma {:induction false} NoPieces()
    ensures LooseOK([]) && Text([]) == "" && LooseMeans([]) == ""
  {
  }

  lemma {:induction false} UnitSound(doc: string, pos: nat, end: nat) returns (ps: seq<Piece>)
    requires pos + 2 <= end < |doc| && ScanString(doc, pos) == Scan(true, end + 1) && DecodeFrom(doc, pos, end).Good?
    requires doc[pos] == '\\' && doc[pos + 1] == 'u'
    ensures LooseOK(ps) && Text(ps) == doc[pos..end] && DecodeFrom(doc, pos, end) == Good(LooseMeans(ps))
    decreases end - pos, 0
  {
    hide Utf8, Combine, FourDigits, Spelled, EscapeSequence, ScanString, LooseOK, LooseMeans, Text, PieceOK, HexAt;
    hide UnitOf, PieceText;
    HexIff(doc, pos + 2, end);
    HexStandsHere(doc, pos);
    var p := HexHere(doc, pos);
    if !IsHighSurrogate(UnitOf(p)) {
      ps := DecodeSound(doc, pos + 6, end);
      LooseStep(p, ps);
      assert doc[pos..end] == doc[pos..pos + 6] + doc[pos + 6..end];
      ps := [p] + ps;
    } else {
      HexIff(doc, pos + 8, end);
      HexStandsHere(doc, pos + 6);
      var q := HexHere(doc, pos + 6);
      ps := DecodeSound(doc, pos + 12, end);
      LoosePair(p, q, ps);
      assert doc[pos..end] == doc[pos..pos + 6] + (doc[pos + 6..pos + 12] + doc[pos + 12..end]);
      ps := [p, q] + ps;
    }
  }

  /** And what is written as pieces is decoded to what they mean. */
  lemma {:induction false} DecodeComplete(doc: string, pos: nat, end: nat, ps: seq<Piece>)
    requires pos <= end <= |doc| && doc[pos..end] == Text(ps) && LooseOK(ps)
    ensures DecodeFrom(doc, pos, end) == Good(LooseMeans(ps))
    decreases |ps|
  {
    hide Utf8, Combine, FourDigits, Spelled, EscapeSequence, PieceOK, UnitOf, ShortMeaning;
    if ps != [] && !HighHex(ps[0]) {
      var p := ps[0];
      var n := |PieceText(p)|;
      assert doc[pos..end] == PieceText(p) + Text(ps[1..]);
      PieceStands(doc, pos, end, p, Text(ps[1..]));
      DecodeComplete(doc, pos + n, end, ps[1..]);
      PieceDecoded(doc, pos, end, p);
    } else if ps != [] {
      var p, q := ps[0], ps[1];
      assert ps[1..][1..] == ps[2..];
      assert doc[pos..end] == PieceText(p) + (PieceText(q) + Text(ps[2..]));
      PieceStands(doc, pos, end, p, PieceText(q) + Text(ps[2..]));
      PieceStands(doc, pos + 6, end, q, Text(ps[2..]));
      DecodeComplete(doc, pos + 12, end, ps[2..]);
      PairDecoded(doc, pos, end, p, q);
    }
  }

  lemma {:induction false} PieceStands(doc: string, pos: nat, end: nat, p: Piece, rest: string)
    requires pos <= end <= |doc| && doc[pos..end] == PieceText(p) + rest
    ensures var n := |PieceText(p)|;
      pos + n <= end && doc[pos..pos + n] == PieceText(p) && doc[pos + n..end] == rest
  {
    var all := doc[pos..end];
    assert all[..|PieceText(p)|] == PieceText(p) && all[|PieceText(p)|..] == rest;
  }

  lemma {:induction false} PieceDecoded(doc: string, pos: nat, end: nat, p: Piece)
    requires LoosePiece(p) && !HighHex(p) && pos + |PieceText(p)| <= end <= |doc|
    requires doc[pos..pos + |PieceText(p)|] == PieceText(p)
    ensures DecodeFrom(doc, pos, end) == Prepend(LooseMeaning(p), DecodeFrom(doc, pos + |PieceText(p)|, end))
  {
    hide Utf8, FourDigits, Spelled, ShortMeaning, EscapeSequence;
    var e := PieceText(p);
    assert doc[pos] == e[0];
    if p.Short? {
      ShortTable();
      assert doc[pos + 1] == e[1];
    } else if p.Hex? {
      HexText(doc, pos, p);
      HexDecoded(doc, pos, end, p);
    }
  }

  lemma {:induction false} HexText(doc: string, pos: nat, p: Piece)
    requires p.Hex? && PieceOK(p) && pos + 6 <= |doc| && doc[pos..pos + 6] == PieceText(p)
    ensures HexAt(doc, pos, p)
  {
    hide FourDigits;
    var e := PieceText(p);
    assert doc[pos] == e[0] && doc[pos + 1] == e[1] && doc[pos + 2] == e[2] && doc[pos + 3] == e[3];
    assert doc[pos + 4] == e[4] && doc[pos + 5] == e[5];
  }

  lemma {:induction false} PairDecoded(doc: string, pos: nat, end: nat, p: Piece, q: Piece)
    requires HighHex(p) && q.Hex? && PieceOK(q) && pos + 12 <= end <= |doc|
    requires doc[pos..pos + 6] == PieceText(p) && doc[pos + 6..pos + 12] == PieceText(q)
    ensures DecodeFrom(doc, pos, end)
         == Prepend(Utf8(Combine(UnitOf(p), UnitOf(q))), DecodeFrom(doc, pos + 12, end))
  {
    hide Utf8, Combine, FourDigits, Spelled, EscapeSequence, UnitOf, PieceOK;
    HexText(doc, pos, p);
    HexText(doc, pos + 6, q);
    HexDecoded(doc, pos, end, p);
    HexDecoded(doc, pos + 6, end, q);
  }

  // ---------------------------------------------------------------------- numbers

  /** A number decodes to its value, and not at all without one. */
  lemma {:induction false} NumberIs(scan: RealScanner, s: string)
    requires IsNumberText(s)
    ensures var v := NumberValue(scan, s);
      DecodeNumber(scan, s) == if v.Some? then Good(v.value) else Bad(NotANumber)
  {
    hide Numeral;
    var minus := s[0] == '-';
    var digits := if minus then s[1..] else s;
    if LooksReal(s) {
      var k :| 0 <= k < |s| && (s[k] == '.' || s[k] == 'e' || s[k] == 'E' || s[k] == '+' || (s[k] == '-' && k > 0));
      assert minus && k == 0 ==> false;
      assert digits[if minus then k - 1 else k] == s[k];
    } else {
      UnsignedDigits(s);
    }
  }

  // ---------------------------------------------------------- sequences of lexemes

  lemma {:induction false} ScannedBounds(doc: string, pos: nat, ls: seq<Lex>, end: nat)
    requires pos <= |doc| && Scanned(doc, pos, ls, end)
    ensures pos <= end <= |doc|
    decreases |ls|
  {
    hide ReadToken;
    if ls != [] {
      ScannedBounds(doc, ReadToken(doc, pos).end, ls[1..], end);
    }
  }

  lemma {:induction false} ScannedJoin(doc: string, pos: nat, a: seq<Lex>, mid: nat, b: seq<Lex>, end: nat)
    requires pos <= |doc| && mid <= |doc| && Scanned(doc, pos, a, mid) && Scanned(doc, mid, b, end)
    ensures Scanned(doc, pos, a + b, end)
    decreases |a|
  {
    hide ReadToken;
    if a == [] {
      assert a + b == b;
    } else {
      ScannedJoin(doc, ReadToken(doc, pos).end, a[1..], mid, b, end);
      assert (a + b)[1..] == a[1..] + b;
    }
  }

  lemma {:induction false} ScannedSplit(doc: string, pos: nat, a: seq<Lex>, b: seq<Lex>, end: nat) returns (mid: nat)
    requires pos <= |doc| && Scanned(doc, pos, a + b, end)
    ensures pos <= mid <= |doc| && Scanned(doc, pos, a, mid) && Scanned(doc, mid, b, end)
    decreases |a|
  {
    hide ReadToken;
    if a == [] {
      assert a + b == b;
      mid := pos;
    } else {
      assert (a + b)[1..] == a[1..] + b;
      mid := ScannedSplit(doc, ReadToken(doc, pos).end, a[1..], b, end);
    }
  }

  /** This token is this lexeme. */
  ghost predicate TokenOf(doc: string, t: Token, l: Lex) {
    t.start <= t.end <= |doc| && l == Lex(t.kind, doc[t.start..t.end])
  }

  lemma {:induction false} ScannedOne(doc: string, pos: nat, l: Lex, more: seq<Lex>, end: nat)
    requires pos <= |doc|
    ensures var t := ReadToken(doc, pos);
      Scanned(doc, pos, [l] + more, end) <==> TokenOf(doc, t, l) && Scanned(doc, t.end, more, end)
  {
    hide ReadToken;
    assert ([l] + more)[1..] == more;
  }

  // White space before the first lexeme does not matter.
  lemma {:induction false} ScannedSpaces(doc: string, pos: nat, ls: seq<Lex>, end: nat)
    requires pos <= |doc| && ls != []
    ensures ReadToken(doc, AfterSpaces(doc, pos)) == ReadToken(doc, pos)
    ensures Scanned(doc, AfterSpaces(doc, pos), ls, end) <==> Scanned(doc, pos, ls, end)
  {
    hide AfterSpaces, ScanFrom;
    SpacesTwice(doc, pos);
  }

  lemma {:induction false} SpacesTwice(doc: string, pos: nat)
    requires pos <= |doc|
    ensures AfterSpaces(doc, AfterSpaces(doc, pos)) == AfterSpaces(doc, pos)
    decreases |doc| - pos
  {
    if pos < |doc| && IsSpace(doc[pos]) {
      SpacesTwice(doc, pos + 1);
    }
  }

  /** The comments that are skipped before a token. */
  lemma {:induction false} SkipSound(doc: string, pos: nat) returns (cs: seq<string>, l: Lex)
    requires pos <= |doc|
    ensures var t := SkipComments(doc, pos);
      TokenOf(doc, t, l) && IsLexeme(l) && CommentsOK(cs) && Scanned(doc, pos, Comments(cs) + [l], t.end)
    decreases |doc| - pos
  {
    hide ReadToken, CommentText, IsNumberText;
    var t := ReadToken(doc, pos);
    TokenIs(doc, pos);
    if t.kind.Comment? {
      cs, l := SkipSound(doc, t.end);
      ScannedOne(doc, pos, Lex(t.kind, doc[t.start..t.end]), Comments(cs) + [l], SkipComments(doc, pos).end);
      assert Comments([doc[t.start..t.end]] + cs) == [Lex(Comment, doc[t.start..t.end])] + Comments(cs) by {
        assert ([doc[t.start..t.end]] + cs)[1..] == cs;
      }
      Regroup([Lex(Comment, doc[t.start..t.end])], Comments(cs), [l]);
      cs := [doc[t.start..t.end]] + cs;
    } else {
      cs, l := [], Lex(t.kind, doc[t.start..t.end]);
      ScannedOne(doc, pos, l, [], t.end);
      assert Comments([]) + [l] == [l] + [];
    }
  }

  /** And a token behind comments is the one found by skipping them. */
  lemma {:induction false} SkipComplete(doc: string, pos: nat, cs: seq<string>, l: Lex, end: nat)
    requires pos <= |doc| && !l.kind.Comment? && Scanned(doc, pos, Comments(cs) + [l], end)
    ensures var t := SkipComments(doc, pos); TokenOf(doc, t, l) && t.end == end
    decreases |cs|
  {
    hide ReadToken;
    if cs == [] {
      assert Comments(cs) + [l] == [l] + [];
      ScannedOne(doc, pos, l, [], end);
    } else {
      Regroup([Lex(Comment, cs[0])], Comments(cs[1..]), [l]);
      ScannedOne(doc, pos, Lex(Comment, cs[0]), Comments(cs[1..]) + [l], end);
      SkipComplete(doc, ReadToken(doc, pos).end, cs[1..], l, end);
    }
  }

  lemma {:induction false} LeadSound(cfg: Config, doc: string, pos: nat) returns (cs: seq<string>, l: Lex)
    requires pos <= |doc|
    ensures var t := FirstToken(cfg.allowComments, doc, pos);
      TokenOf(doc, t, l) && IsLexeme(l) && LeadOK(cfg, cs) && Scanned(doc, pos, Comments(cs) + [l], t.end)
  {
    hide ReadToken, SkipComments, CommentText, IsNumberText;
    if cfg.allowComments {
      cs, l := SkipSound(doc, pos);
    } else {
      var t := ReadToken(doc, pos);
      TokenIs(doc, pos);
      cs, l := [], Lex(t.kind, doc[t.start..t.end]);
      ScannedOne(doc, pos, l, [], t.end);
      assert Comments([]) + [l] == [l] + [];
    }
  }

  lemma {:induction false} LeadComplete(cfg: Config, doc: string, pos: nat, cs: seq<string>, l: Lex, end: nat)
    requires pos <= |doc| && LeadOK(cfg, cs) && !l.kind.Comment? && Scanned(doc, pos, Comments(cs) + [l], end)
    ensures var t := FirstToken(cfg.allowComments, doc, pos); TokenOf(doc, t, l) && t.end == end
  {
    hide ReadToken, SkipComments, CommentText;
    if cfg.allowComments {
      SkipComplete(doc, pos, cs, l, end);
    } else {
      assert Comments(cs) + [l] == [l] + [];
      ScannedOne(doc, pos, l, [], end);
    }
  }

  // Comments, a lexeme, and what follows.
  lemma {:induction false} JoinLead(doc: string, pos: nat, cs: seq<string>, l: Lex, mid: nat, rest: seq<Lex>, end: nat)
    requires pos <= |doc| && mid <= |doc| && Scanned(doc, pos, Comments(cs) + [l], mid) && Scanned(doc, mid, rest, end)
    ensures Scanned(doc, pos, Comments(cs) + ([l] + rest), end)
  {
    hide Scanned, Comments;
    ScannedJoin(doc, pos, Comments(cs) + [l], mid, rest, end);
    Regroup(Comments(cs), [l], rest);
  }

  lemma {:induction false} SplitLead(doc: string, pos: nat, cs: seq<string>, l: Lex, rest: seq<Lex>, end: nat)
    returns (mid: nat)
    requires pos <= |doc| && Scanned(doc, pos, Comments(cs) + ([l] + rest), end)
    ensures pos <= mid <= |doc| && Scanned(doc, pos, Comments(cs) + [l], mid) && Scanned(doc, mid, rest, end)
  {
    hide Scanned, Comments;
    Regroup(Comments(cs), [l], rest);
    mid := ScannedSplit(doc, pos, Comments(cs) + [l], rest, end);
  }
}
