/** What the scanner of src/jsoncpp/json_reader.cpp recognises at a position of a document. */
module JsonLexer {
  import opened JsonText

  datatype Kind =
    | EndOfStream | ObjectBegin | ObjectEnd | ArrayBegin | ArrayEnd | Str | Number
    | True | False | Null | Comma | Colon | Comment | Error

  datatype Token = Token(kind: Kind, start: nat, end: nat)

  /** The next byte, 0 at the end of the document. */
  function CharAt(doc: string, pos: nat): char {
    if pos < |doc| then doc[pos] else '\0'
  }

  /** The byte a pointer finds at a position: the one behind the document at its end. */
  function Peek(doc: string, behind: char, pos: nat): char {
    if pos < |doc| then doc[pos] else behind
  }

  /** The position after the next byte, if there is one. */
  function Next(doc: string, pos: nat): nat {
    if pos < |doc| then pos + 1 else pos
  }

  function AfterSpaces(doc: string, pos: nat): (end: nat)
    requires pos <= |doc|
    ensures pos <= end <= |doc|
    decreases |doc| - pos
  {
    if pos < |doc| && IsSpace(doc[pos]) then AfterSpaces(doc, pos + 1) else pos
  }

  predicate IsNumberChar(c: char) {
    IsDigit(c) || c == '.' || c == 'e' || c == 'E' || c == '+' || c == '-'
  }

  function NumberEnd(doc: string, pos: nat): (end: nat)
    requires pos <= |doc|
    ensures pos <= end <= |doc|
    ensures forall k :: pos <= k < end ==> IsNumberChar(doc[k])
    decreases |doc| - pos
  {
    if pos < |doc| && IsNumberChar(doc[pos]) then NumberEnd(doc, pos + 1) else pos
  }

  /** Where a scan stopped, and whether it found what it looked for. */
  datatype Scan = Scan(ok: bool, end: nat)

  /** From behind an opening quote to behind the closing one. */
  function ScanString(doc: string, pos: nat): (r: Scan)
    requires pos <= |doc|
    ensures pos <= r.end <= |doc|
    ensures r.ok ==> pos < r.end
    decreases |doc| - pos
  {
    if pos == |doc| then Scan(false, pos)
    else if doc[pos] == '\\' then ScanString(doc, Next(doc, pos + 1))
    else if doc[pos] == '\"' then Scan(true, pos + 1)
    else ScanString(doc, pos + 1)
  }

  /** From behind an opening slash-star: the position of the slash that closes it, or the end. */
  function BlockEnd(doc: string, pos: nat): (end: nat)
    requires pos <= |doc|
    ensures pos <= end <= |doc|
    decreases |doc| - pos
  {
    if pos == |doc| then pos
    else if doc[pos] == '*' && CharAt(doc, pos + 1) == '/' then pos + 1
    else BlockEnd(doc, pos + 1)
  }

  function LineEnd(doc: string, pos: nat): (end: nat)
    requires pos <= |doc|
    ensures pos <= end <= |doc|
    decreases |doc| - pos
  {
    if pos == |doc| then pos
    else if doc[pos] == '\r' || doc[pos] == '\n' then pos + 1
    else LineEnd(doc, pos + 1)
  }

  function ScanBlock(doc: string, pos: nat): (r: Scan)
    requires pos <= |doc|
    ensures pos <= r.end <= |doc|
  {
    var stop := BlockEnd(doc, pos);
    Scan(CharAt(doc, stop) == '/', Next(doc, stop))
  }

  /** From behind a slash. */
  function ScanComment(doc: string, pos: nat): (r: Scan)
    requires pos <= |doc|
    ensures pos <= r.end <= |doc|
  {
    var c, body := CharAt(doc, pos), Next(doc, pos);
    if c == '*' then ScanBlock(doc, body)
    else if c == '/' then Scan(true, LineEnd(doc, body))
    else Scan(false, body)
  }

  function ScanWord(doc: string, pos: nat, word: string): (r: Scan)
    requires pos <= |doc|
    ensures pos <= r.end <= |doc|
  {
    if StandsAt(doc, pos, word) then Scan(true, pos + |word|) else Scan(false, pos)
  }

  /** The kind of token a byte begins, and the scan of the rest of it. */
  function ScanFrom(doc: string, c: char, pos: nat): (r: (Kind, Scan))
    requires pos <= |doc|
    ensures pos <= r.1.end <= |doc|
    ensures r.0.EndOfStream? <==> c == '\0'
  {
    if c == '{' then (ObjectBegin, Scan(true, pos))
    else if c == '}' then (ObjectEnd, Scan(true, pos))
    else if c == '[' then (ArrayBegin, Scan(true, pos))
    else if c == ']' then (ArrayEnd, Scan(true, pos))
    else if c == '\"' then (Str, ScanString(doc, pos))
    else if c == '/' then (Comment, ScanComment(doc, pos))
    else if IsDigit(c) || c == '-' then (Number, Scan(true, NumberEnd(doc, pos)))
    else if c == 't' then (True, ScanWord(doc, pos, "rue"))
    else if c == 'f' then (False, ScanWord(doc, pos, "alse"))
    else if c == 'n' then (Null, ScanWord(doc, pos, "ull"))
    else if c == ',' then (Comma, Scan(true, pos))
    else if c == ':' then (Colon, Scan(true, pos))
    else if c == '\0' then (EndOfStream, Scan(true, pos))
    else (Error, Scan(false, pos))
  }

  /** The next token. It lies within the document, and only an end of stream is ever empty. */
  function ReadToken(doc: string, pos: nat): (t: Token)
    requires pos <= |doc|
    ensures pos <= t.start <= t.end <= |doc|
    ensures t.start == t.end ==> t.kind.EndOfStream? && t.end == |doc|
  {
    var start := AfterSpaces(doc, pos);
    var (kind, scan) := ScanFrom(doc, CharAt(doc, start), Next(doc, start));
    Token(if scan.ok then kind else Error, start, scan.end)
  }

  predicate IsNumberText(s: string) {
    s != [] && (IsDigit(s[0]) || s[0] == '-') && forall k :: 0 <= k < |s| ==> IsNumberChar(s[k])
  }

  /** Number tokens are made of number characters, string tokens have both their quotes. */
  lemma TokenShape(doc: string, pos: nat)
    requires pos <= |doc|
    ensures var t := ReadToken(doc, pos);
      && (t.kind.Number? ==> IsNumberText(doc[t.start..t.end]))
      && (t.kind.Str? ==> t.end - t.start >= 2)
  {
  }

  /** The next token that is not a comment. */
  function SkipComments(doc: string, pos: nat): (t: Token)
    requires pos <= |doc|
    ensures pos <= t.start <= t.end <= |doc|
    ensures t.start == t.end ==> t.kind.EndOfStream? && t.end == |doc|
    ensures !t.kind.Comment?
    ensures t.kind.Number? ==> IsNumberText(doc[t.start..t.end])
    ensures t.kind.Str? ==> t.end - t.start >= 2
    decreases |doc| - pos
  {
    TokenShape(doc, pos);
    var t := ReadToken(doc, pos);
    if t.kind.Comment? then SkipComments(doc, t.end) else t
  }

  /** Behind the next token of a kind, or behind an end of stream. */
  function Recover(doc: string, pos: nat, kind: Kind): (end: nat)
    requires pos <= |doc|
    ensures pos <= end <= |doc|
    decreases |doc| - pos
  {
    var t := ReadToken(doc, pos);
    if t.kind == kind || t.kind.EndOfStream? then t.end else Recover(doc, t.end, kind)
  }
}
