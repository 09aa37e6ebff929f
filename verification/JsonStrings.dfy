/** Decoding of the strings and numbers of a document (src/jsoncpp/json_reader.cpp, json_tool.h). */
module JsonStrings {
  import opened JsonValue
  import opened JsonText
  import opened JsonLexer

  datatype Message =
    | ValueExpected | MissingColon | MissingCommaOrBrace | MissingNameOrBrace | MissingCommaOrBracket
    | NotANumber | EmptyEscape | BadEscape | ShortSurrogatePair | NoSecondHalf | FourDigitsExpected
    | HexDigitExpected | RootNotContainer

  datatype Decoded<T> = Good(value: T) | Bad(message: Message)

  // --------------------------------------------------------------------- UTF-8

  /** The UTF-8 form of a code point; nothing beyond the last one. */
  function Utf8(cp: nat): string {
    if cp <= 0x7F then [cp as char]
    else if cp <= 0x7FF then [(0xC0 + cp / 64) as char, (0x80 + cp % 64) as char]
    else if cp <= 0xFFFF then
      [(0xE0 + cp / 4096) as char, (0x80 + cp / 64 % 64) as char, (0x80 + cp % 64) as char]
    else if cp <= 0x10FFFF then
      [(0xF0 + cp / 262144) as char, (0x80 + cp / 4096 % 64) as char,
       (0x80 + cp / 64 % 64) as char, (0x80 + cp % 64) as char]
    else []
  }

  /** The six bits of a continuation byte (section 3 of RFC 3629), or -1. */
  function Tail(s: string, k: nat): int {
    if k < |s| && 0x80 <= s[k] as int <= 0xBF then s[k] as int - 0x80 else -1
  }

  /** A decoder after section 3 of RFC 3629: the code point a string is the UTF-8 form of, or -1.
      Forms longer than needed and the forms of surrogates are refused. */
  function FromUtf8(s: string): int {
    if s == [] then -1
    else
      var b, x, y, z := s[0] as int, Tail(s, 1), Tail(s, 2), Tail(s, 3);
      if |s| == 1 && b <= 0x7F then b
      else if |s| == 2 && 0xC2 <= b <= 0xDF && x >= 0 then (b - 0xC0) * 64 + x
      else if |s| == 3 && 0xE0 <= b <= 0xEF && x >= 0 && y >= 0 && (b > 0xE0 || x >= 0x20)
          && (b != 0xED || x < 0x20) then
        (b - 0xE0) * 4096 + x * 64 + y
      else if |s| == 4 && 0xF0 <= b <= 0xF4 && x >= 0 && y >= 0 && z >= 0 && (b > 0xF0 || x >= 0x10)
          && (b < 0xF4 || x < 0x10) then
        (b - 0xF0) * 262144 + x * 4096 + y * 64 + z
      else -1
  }

  /** The code points that have a UTF-8 form at all. */
  predicate IsScalarValue(cp: nat) { cp < 0xD800 || 0xE000 <= cp <= 0x10FFFF }

  /** What is written for a code point is its UTF-8 form exactly when it has one; for a surrogate
      it is no UTF-8 at all. */
  lemma Utf8RoundTrip(cp: nat)
    ensures FromUtf8(Utf8(cp)) == if IsScalarValue(cp) then cp else -1
    ensures forall k :: 0 <= k < |Utf8(cp)| ==> Utf8(cp)[k] as int < 256
  {
    assert cp / 64 / 64 == cp / 4096;
    assert cp / 4096 / 64 == cp / 262144;
    var s := Utf8(cp);
    if 0x7FF < cp <= 0xFFFF {
      assert Tail(s, 1) == cp / 64 % 64 && Tail(s, 2) == cp % 64;
    } else if 0xFFFF < cp <= 0x10FFFF {
      assert Tail(s, 1) == cp / 4096 % 64 && Tail(s, 2) == cp / 64 % 64 && Tail(s, 3) == cp % 64;
    }
  }

  // ---------------------------------------------- escapes by the tables of RFC 8259

  /** The hexadecimal digits in the order of their values, in either case (section 7 of RFC 8259). */
  const LowerHex := "0123456789abcdef"
  const UpperHex := "0123456789ABCDEF"

  /** The letters of the one-letter escapes, and the characters they stand for (section 7). */
  const ShortLetters := "\"\\/bfnrt"
  const ShortMeanings := ['\U{22}', '\U{5C}', '\U{2F}', '\U{08}', '\U{0C}', '\U{0A}', '\U{0D}', '\U{09}']

  predicate IsHexDigit(c: char) { c in LowerHex || c in UpperHex }

  /** The place of a character in a table. */
  function Place(table: string, c: char): (k: nat)
    requires c in table
    ensures k < |table| && table[k] == c
  {
    if table[0] == c then 0 else Place(table[1..], c) + 1
  }

  function DigitOf(c: char): (d: nat)
    requires IsHexDigit(c)
    ensures d < 16
  {
    if c in LowerHex then Place(LowerHex, c) else Place(UpperHex, c)
  }

  predicate FourDigits(s: string) {
    |s| == 4 && IsHexDigit(s[0]) && IsHexDigit(s[1]) && IsHexDigit(s[2]) && IsHexDigit(s[3])
  }

  /** The unit that four digits spell. */
  function Spelled(s: string): (u: nat)
    requires FourDigits(s)
    ensures u <= 0xFFFF
  {
    ((DigitOf(s[0]) * 16 + DigitOf(s[1])) * 16 + DigitOf(s[2])) * 16 + DigitOf(s[3])
  }

  /** The character a one-letter escape stands for. */
  function ShortMeaning(c: char): char
    requires c in ShortLetters
  {
    ShortMeanings[Place(ShortLetters, c)]
  }

  // ----------------------------------------------------------- escape sequences

  function HexValue(c: char): (d: int)
    ensures -1 <= d < 16
  {
    if '0' <= c <= '9' then c as int - '0' as int
    else if 'a' <= c <= 'f' then c as int - 'a' as int + 10
    else if 'A' <= c <= 'F' then c as int - 'A' as int + 10
    else -1
  }

  /** The number that `count` hexadecimal digits at `pos` add to the `high` ones before them. */
  function HexNumber(doc: string, pos: nat, count: nat, high: nat): (r: Decoded<nat>)
    requires pos + count <= |doc|
    decreases count
  {
    if count == 0 then Good(high)
    else if HexValue(doc[pos]) < 0 then Bad(HexDigitExpected)
    else HexNumber(doc, pos + 1, count - 1, high * 16 + HexValue(doc[pos]))
  }

  lemma {:induction false} HexBound(doc: string, pos: nat, count: nat, high: nat, width: nat)
    requires pos + count <= |doc|
    requires high < width
    ensures var r := HexNumber(doc, pos, count, high);
      r.Good? ==> r.value < width * Pow16(count)
    decreases count
  {
    if count > 0 && HexValue(doc[pos]) >= 0 {
      HexBound(doc, pos + 1, count - 1, high * 16 + HexValue(doc[pos]), width * 16);
      assert width * 16 * Pow16(count - 1) == width * Pow16(count);
    }
  }

  function Pow16(k: nat): nat { if k == 0 then 1 else 16 * Pow16(k - 1) }

  function EscapeSequence(doc: string, pos: nat, end: nat): (r: Decoded<nat>)
    requires pos <= end <= |doc|
    ensures r.Good? ==> pos + 4 <= end && r.value <= 0xFFFF
  {
    if end - pos < 4 then Bad(FourDigitsExpected)
    else
      HexBound(doc, pos, 4, 0, 1);
      assert Pow16(2) == 256;
      HexNumber(doc, pos, 4, 0)
  }

  predicate IsHighSurrogate(unit: int) { 0xD800 <= unit <= 0xDBFF }

  predicate IsLowSurrogate(unit: int) { 0xDC00 <= unit <= 0xDFFF }

  /** The code point of a surrogate pair; any second unit is taken for its low ten bits. */
  function Combine(high: nat, low: nat): nat {
    0x10000 + high % 1024 * 1024 + low % 1024
  }

  /** The two UTF-16 units of a supplementary code point. */
  function Pair(cp: nat): (nat, nat)
    requires 0x10000 <= cp <= 0x10FFFF
  {
    (0xD800 + (cp - 0x10000) / 1024, 0xDC00 + (cp - 0x10000) % 1024)
  }

  /** Every supplementary code point is combined from its pair. */
  lemma CombineInverse(cp: nat)
    requires 0x10000 <= cp <= 0x10FFFF
    ensures IsHighSurrogate(Pair(cp).0) && IsLowSurrogate(Pair(cp).1)
    ensures Combine(Pair(cp).0, Pair(cp).1) == cp
  {
  }

  /** And what is combined is the code point of the two units exactly when the second one is a low
      surrogate, which the code does not ask. */
  lemma CombineIff(high: nat, low: nat)
    requires IsHighSurrogate(high) && low <= 0xFFFF
    ensures 0x10000 <= Combine(high, low) <= 0x10FFFF
    ensures Pair(Combine(high, low)) == (high, low) <==> IsLowSurrogate(low)
  {
    var h, l := high - 0xD800, low % 1024;
    assert high % 1024 == h;
    assert Combine(high, low) - 0x10000 == h * 1024 + l;
    assert (h * 1024 + l) / 1024 == h && (h * 1024 + l) % 1024 == l;
  }

  /** A code point and the position behind its escape. */
  datatype CodePoint = CodePoint(cp: nat, next: nat)

  function DecodeCodePoint(doc: string, pos: nat, end: nat): (r: Decoded<CodePoint>)
    requires pos <= end <= |doc|
    ensures r.Good? ==> pos < r.value.next <= end && r.value.cp <= 0x10FFFF
  {
    match EscapeSequence(doc, pos, end)
    case Bad(m) => Bad(m)
    case Good(unit) =>
      var p := pos + 4;
      if !IsHighSurrogate(unit) then Good(CodePoint(unit, p))
      else if end - p < 6 then Bad(ShortSurrogatePair)
      else if doc[p] != '\\' || doc[p + 1] != 'u' then Bad(NoSecondHalf)
      else
        match EscapeSequence(doc, p + 2, end)
        case Bad(m) => Bad(m)
        case Good(low) => Good(CodePoint(Combine(unit, low), p + 6))
  }

  /** Each digit of either table has the value of its place, and no other character has one. */
  lemma HexTables()
    ensures forall d :: 0 <= d < 16 ==> HexValue(LowerHex[d]) == d && HexValue(UpperHex[d]) == d
    ensures forall c :: HexValue(c) == if IsHexDigit(c) then DigitOf(c) else -1
  {
    hide Place;
    forall c | HexValue(c) >= 0 ensures IsHexDigit(c) {
      var d := HexValue(c);
      assert c == LowerHex[d] || c == UpperHex[d];
    }
  }

  /** The letters of the table are read as what they stand for, and no other is read. */
  lemma ShortTable()
    ensures forall k :: 0 <= k < 8 ==> ShortEscape(ShortLetters[k]) == ShortMeanings[k]
    ensures forall c :: ShortEscape(c) == if c in ShortLetters then ShortMeaning(c) else '\0'
  {
    hide Place;
    forall c | ShortEscape(c) != '\0' ensures c in ShortLetters {
      assert ShortLetters[0] == '\"' && ShortLetters[1] == '\\' && ShortLetters[2] == '/' && ShortLetters[3] == 'b';
      assert ShortLetters[4] == 'f' && ShortLetters[5] == 'n' && ShortLetters[6] == 'r' && ShortLetters[7] == 't';
    }
  }

  /** Four digits in any mixture of cases are read as the unit they spell, and nothing else is read. */
  lemma HexIff(doc: string, pos: nat, end: nat)
    requires pos <= end <= |doc|
    ensures var r := EscapeSequence(doc, pos, end);
      && (r.Good? <==> pos + 4 <= end && FourDigits(doc[pos..pos + 4]))
      && (r.Good? ==> r.value == Spelled(doc[pos..pos + 4]))
  {
    hide HexValue, IsHexDigit, DigitOf;
    HexTables();
    if pos + 4 <= end {
      var s := doc[pos..pos + 4];
      assert s[0] == doc[pos] && s[1] == doc[pos + 1] && s[2] == doc[pos + 2] && s[3] == doc[pos + 3];
      if FourDigits(s) {
        FourHex(doc, pos, end);
      } else {
        var k :| 0 <= k < 4 && HexValue(s[k]) < 0;
        BadDigit(doc, pos, 4, 0, pos + k);
      }
    }
  }

  lemma {:induction false} BadDigit(doc: string, pos: nat, count: nat, high: nat, k: nat)
    requires pos <= k < pos + count <= |doc| && HexValue(doc[k]) < 0
    ensures HexNumber(doc, pos, count, high).Bad?
    decreases count
  {
    if HexValue(doc[pos]) >= 0 {
      BadDigit(doc, pos + 1, count - 1, high * 16 + HexValue(doc[pos]), k);
    }
  }

  /** The unit of an escape whose digits begin at `pos`, or -1. */
  function UnitAt(doc: string, pos: nat, end: nat): int
    requires pos <= end <= |doc|
  {
    if pos + 4 <= end && FourDigits(doc[pos..pos + 4]) then Spelled(doc[pos..pos + 4]) else -1
  }

  /** The code point that section 7 of RFC 8259 gives to an escape: a unit outside the surrogates,
      or a high one followed by the escape of a low one; -1 otherwise. */
  function Meaning(doc: string, pos: nat, end: nat): int
    requires pos <= end <= |doc|
  {
    var unit := UnitAt(doc, pos, end);
    if unit < 0 || IsLowSurrogate(unit) then -1
    else if !IsHighSurrogate(unit) then unit
    else if end - pos < 10 || doc[pos + 4] != '\\' || doc[pos + 5] != 'u' then -1
    else
      var low := UnitAt(doc, pos + 6, end);
      if low >= 0 && IsLowSurrogate(low) then Combine(unit, low) else -1
  }

  /** The units of an accepted escape that decide whether it means anything. */
  ghost predicate WellPaired(doc: string, pos: nat, end: nat)
    requires pos <= end <= |doc| && DecodeCodePoint(doc, pos, end).Good?
  {
    var unit := UnitAt(doc, pos, end);
    && !IsLowSurrogate(unit)
    && (IsHighSurrogate(unit) ==> pos + 10 <= end && IsLowSurrogate(UnitAt(doc, pos + 6, end)))
  }

  /** Of the accepted escapes, what is decoded is a Unicode scalar value, and so has a UTF-8 form,
      exactly when the first unit is no low surrogate; and it is what the escape means exactly when,
      besides, a high surrogate is followed by a low one. */
  lemma EscapeMeans(doc: string, pos: nat, end: nat)
    requires pos <= end <= |doc| && DecodeCodePoint(doc, pos, end).Good?
    ensures var cp, unit := DecodeCodePoint(doc, pos, end).value.cp, UnitAt(doc, pos, end);
      && unit >= 0
      && (IsScalarValue(cp) <==> !IsLowSurrogate(unit))
      && (FromUtf8(Utf8(cp)) == cp <==> !IsLowSurrogate(unit))
      && (Meaning(doc, pos, end) == cp <==> WellPaired(doc, pos, end))
  {
    hide EscapeSequence, FromUtf8, Utf8, FourDigits, Spelled;
    HexIff(doc, pos, end);
    var unit := EscapeSequence(doc, pos, end).value;
    Utf8RoundTrip(DecodeCodePoint(doc, pos, end).value.cp);
    if IsHighSurrogate(unit) {
      HexIff(doc, pos + 6, end);
      CombineIff(unit, EscapeSequence(doc, pos + 6, end).value);
    }
  }

  /** Nothing is refused that means something. */
  lemma MeaningDecoded(doc: string, pos: nat, end: nat)
    requires pos <= end <= |doc| && Meaning(doc, pos, end) >= 0
    ensures DecodeCodePoint(doc, pos, end).Good?
    ensures DecodeCodePoint(doc, pos, end).value.cp == Meaning(doc, pos, end)
  {
    hide EscapeSequence, FourDigits, Spelled;
    HexIff(doc, pos, end);
    if pos + 10 <= end {
      HexIff(doc, pos + 6, end);
    }
  }

  lemma FourHex(doc: string, pos: nat, end: nat)
    requires pos + 4 <= end <= |doc| && forall k :: pos <= k < pos + 4 ==> HexValue(doc[k]) >= 0
    ensures EscapeSequence(doc, pos, end)
         == Good(((HexValue(doc[pos]) * 16 + HexValue(doc[pos + 1])) * 16
                  + HexValue(doc[pos + 2])) * 16 + HexValue(doc[pos + 3]))
  {
    var a := HexValue(doc[pos]);
    var b := a * 16 + HexValue(doc[pos + 1]);
    assert HexNumber(doc, pos + 2, 2, b) == HexNumber(doc, pos + 3, 1, b * 16 + HexValue(doc[pos + 2]));
    assert HexNumber(doc, pos, 4, 0) == HexNumber(doc, pos + 1, 3, a) == HexNumber(doc, pos + 2, 2, b);
  }

  /** The escape of DC00 alone is accepted and written as ED B0 80, which is no UTF-8. */
  lemma LoneLowSurrogate()
    ensures DecodeCodePoint("DC00", 0, 4) == Good(CodePoint(0xDC00, 4))
    ensures Utf8(0xDC00) == ['\U{ED}', '\U{B0}', '\U{80}'] && FromUtf8(Utf8(0xDC00)) == -1
  {
    hide FourDigits, Spelled, EscapeSequence, FromUtf8;
    SpelledUnits();
    HexIff("DC00", 0, 4);
    assert "DC00"[0..4] == "DC00";
    Utf8RoundTrip(0xDC00);
  }

  /** D800 followed by 0041 is accepted as 10041, whose pair is D800 DC41. */
  lemma FalsePair()
    ensures DecodeCodePoint("D800\\u0041", 0, 10) == Good(CodePoint(0x10041, 10))
    ensures Meaning("D800\\u0041", 0, 10) == -1 && Pair(0x10041) == (0xD800, 0xDC41)
  {
    hide FourDigits, Spelled, EscapeSequence;
    var doc := "D800\\u0041";
    SpelledUnits();
    HexIff(doc, 0, 10);
    HexIff(doc, 6, 10);
    assert doc[0..4] == "D800" && doc[6..10] == "0041";
  }

  lemma SpelledUnits()
    ensures FourDigits("D800") && Spelled("D800") == 0xD800
    ensures FourDigits("0041") && Spelled("0041") == 0x41
    ensures FourDigits("DC00") && Spelled("DC00") == 0xDC00
  {
    hide Place, DigitOf, IsHexDigit;
    HexTables();
  }

  /** The character a one-letter escape stands for, or NUL. */
  function ShortEscape(c: char): char {
    if c == '\"' || c == '/' || c == '\\' then c
    else if c == 'b' then '\U{08}'
    else if c == 'f' then '\U{0C}'
    else if c == 'n' then '\n'
    else if c == 'r' then '\r'
    else if c == 't' then '\t'
    else '\0'
  }

  // ------------------------------------------------------------ string contents

  function Prepend(s: string, d: Decoded<string>): Decoded<string> {
    if d.Good? then Good(s + d.value) else d
  }

  /** The characters that the text between the two positions stands for. */
  function DecodeFrom(doc: string, pos: nat, end: nat): Decoded<string>
    requires pos <= end <= |doc|
    decreases end - pos
  {
    if pos == end || doc[pos] == '\"' then Good("")
    else if doc[pos] != '\\' then Prepend([doc[pos]], DecodeFrom(doc, pos + 1, end))
    else if pos + 1 == end then Bad(EmptyEscape)
    else if doc[pos + 1] == 'u' then
      match DecodeCodePoint(doc, pos + 2, end)
      case Bad(m) => Bad(m)
      case Good(c) => Prepend(Utf8(c.cp), DecodeFrom(doc, c.next, end))
    else if ShortEscape(doc[pos + 1]) == '\0' then Bad(BadEscape)
    else Prepend([ShortEscape(doc[pos + 1])], DecodeFrom(doc, pos + 2, end))
  }

  function DecodeString(doc: string, token: Token): Decoded<string>
    requires token.start + 2 <= token.end <= |doc|
  {
    DecodeFrom(doc, token.start + 1, token.end - 1)
  }

  // -------------------------------------------------------------------- numbers

  datatype Option<T> = None | Some(value: T)

  /** `sscanf` with "%lf": the real it reads from a text, if any. */
  type RealScanner = string -> Option<string>

  /** More than an optional minus and digits. */
  predicate LooksReal(s: string) {
    exists k :: 0 <= k < |s| && (s[k] == '.' || s[k] == 'e' || s[k] == 'E' || s[k] == '+' || (s[k] == '-' && k > 0))
  }

  function Unsigned(s: string): string
    requires IsNumberText(s)
  {
    if s[0] == '-' then s[1..] else s
  }

  /** The greatest magnitude that is kept as an integer. */
  function Limit(negative: bool): nat {
    if negative then 0x8000_0000_0000_0000 else MaxLargestUInt
  }

  lemma UnsignedDigits(s: string)
    requires IsNumberText(s) && !LooksReal(s)
    ensures AllDigits(Unsigned(s))
  {
    forall k | 0 <= k < |s| && (k > 0 || s[0] != '-')
      ensures IsDigit(s[k])
    {
      assert IsNumberChar(s[k]);
    }
  }

  /** Integers that fit are exact; everything else is left to the real scanner. */
  function DecodeNumber(scan: RealScanner, s: string): Decoded<Value>
    requires IsNumberText(s)
  {
    if LooksReal(s) then DecodeReal(scan, s)
    else
      UnsignedDigits(s);
      var n: int := Numeral(Unsigned(s));
      if n <= Limit(s[0] == '-') then Good(Integer(if s[0] == '-' then -n else n))
      else DecodeReal(scan, s)
  }

  function DecodeReal(scan: RealScanner, s: string): Decoded<Value> {
    match scan(s)
    case None => Bad(NotANumber)
    case Some(shown) => Good(Real(shown))
  }
}
