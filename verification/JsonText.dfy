/** The lexemes of a JSON text: numerals, quoted strings, and the token sequence of a tree. */
module JsonText {
  import opened JsonValue

  // ---------------------------------------------------------------- numerals

  predicate IsDigit(c: char) { '0' <= c <= '9' }

  function DigitValue(c: char): (d: nat)
    requires IsDigit(c)
    ensures d < 10
  {
    c as int - '0' as int
  }

  function DigitChar(d: nat): (c: char)
    requires d < 10
    ensures IsDigit(c) && DigitValue(c) == d
  {
    ('0' as int + d) as char
  }

  predicate AllDigits(s: string) {
    forall k :: 0 <= k < |s| ==> IsDigit(s[k])
  }

  /** The number a digit string denotes. */
  function Numeral(s: string): nat
    requires AllDigits(s)
  {
    if s == [] then 0 else Numeral(s[..|s| - 1]) * 10 + DigitValue(s[|s| - 1])
  }

  /** The decimal digits of a number, without leading zeros. */
  function Digits(n: nat): (s: string)
    ensures s != [] && AllDigits(s)
  {
    if n < 10 then [DigitChar(n)] else Digits(n / 10) + [DigitChar(n % 10)]
  }

  lemma {:induction false} NumeralOfDigits(n: nat)
    ensures Numeral(Digits(n)) == n
  {
    var s := Digits(n);
    if n >= 10 {
      NumeralOfDigits(n / 10);
      assert s[..|s| - 1] == Digits(n / 10);
    } else {
      assert s[..|s| - 1] == [];
    }
  }

  lemma {:induction false} DigitsOfNumeral(s: string)
    requires s != [] && AllDigits(s) && (s[0] != '0' || |s| == 1)
    ensures Digits(Numeral(s)) == s
    ensures Numeral(s) == 0 ==> s == "0"
  {
    var front := s[..|s| - 1];
    assert s == front + [s[|s| - 1]];
    if front == [] {
      assert Numeral(front) == 0;
    } else {
      DigitsOfNumeral(front);
      assert DigitChar(DigitValue(s[|s| - 1])) == s[|s| - 1];
    }
  }

  function Pow10(k: nat): nat { if k == 0 then 1 else 10 * Pow10(k - 1) }

  lemma {:induction false} DigitsFit(n: nat, k: nat)
    requires n < Pow10(k) && k > 0
    ensures |Digits(n)| <= k
  {
    if n >= 10 {
      DigitsFit(n / 10, k - 1);
    }
  }

  /** Each digit has the value of its place in the table, and nothing else is a digit. */
  lemma DigitTable()
    ensures forall d :: 0 <= d < 10 ==> DigitChar(d) == "0123456789"[d] && DigitValue("0123456789"[d]) == d
    ensures forall c :: IsDigit(c) <==> c in "0123456789"
  {
    forall c | IsDigit(c) ensures c in "0123456789" {
      var d := c as int - '0' as int;
      assert c == "0123456789"[d];
    }
  }

  function IntText(n: int): string {
    if n < 0 then "-" + Digits(-n) else Digits(n)
  }

  // ----------------------------------------------------------------- strings

  predicate IsControl(c: char) { '\0' < c <= '\U{1F}' }

  /** The characters with an escape of their own. */
  predicate HasShortEscape(c: char) {
    c == '\"' || c == '\\' || c == '\U{08}' || c == '\U{0C}' || c == '\n' || c == '\r' || c == '\t'
  }

  function HexChar(d: nat): char
    requires d < 16
  {
    if d < 10 then ('0' as int + d) as char else ('A' as int + d - 10) as char
  }

  function EscapeChar(c: char): string {
    if c == '\"' then "\\\""
    else if c == '\\' then "\\\\"
    else if c == '\U{08}' then "\\b"
    else if c == '\U{0C}' then "\\f"
    else if c == '\n' then "\\n"
    else if c == '\r' then "\\r"
    else if c == '\t' then "\\t"
    else if IsControl(c) then ['\\', 'u', '0', '0', HexChar(c as int / 16), HexChar(c as int % 16)]
    else [c]
  }

  function Escaped(s: string): string {
    if s == [] then [] else EscapeChar(s[0]) + Escaped(s[1..])
  }

  function Quoted(s: string): string { "\"" + Escaped(s) + "\"" }

  lemma Regroup<T>(a: seq<T>, b: seq<T>, c: seq<T>)
    ensures (a + b) + c == a + (b + c)
  {
  }

  lemma EscapedNothing()
    ensures Escaped([]) == []
  {
  }

  lemma {:induction false} EscapedStep(s: string)
    requires s != []
    ensures Escaped(s) == EscapeChar(s[0]) + Escaped(s[1..])
  {
  }

  lemma {:induction false} EscapedAppend(s: string, t: string)
    ensures Escaped(s + t) == Escaped(s) + Escaped(t)
  {
    hide Escaped, EscapeChar;
    if s == [] {
      EscapedNothing();
      assert s + t == t;
    } else {
      EscapedAppend(s[1..], t);
      EscapedStep(s);
      EscapedStep(s + t);
      assert (s + t)[1..] == s[1..] + t;
      Regroup(EscapeChar(s[0]), Escaped(s[1..]), Escaped(t));
    }
  }

  /** Nothing to escape: the string is its own escaped form. */
  lemma {:induction false} EscapedPlain(s: string)
    requires forall k :: 0 <= k < |s| ==> !HasShortEscape(s[k]) && !IsControl(s[k])
    ensures Escaped(s) == s
  {
    if s != [] {
      EscapedPlain(s[1..]);
    }
  }

  // ------------------------------------------------------------------- tokens

  /** The lexemes of a tree, in order. */
  function Tokens(v: Value): seq<string>
    decreases v
  {
    match v
    case Null => ["null"]
    case Int(i) => [IntText(i)]
    case UInt(u) => [IntText(u)]
    case Real(shown) => [shown]
    case String(s) => [Quoted(CString(s))]
    case NullString => [""]
    case Bool(b) => [if b then "true" else "false"]
    case Array(items) => ["["] + ItemTokens(items, true) + ["]"]
    case Object(members) => ["{"] + MemberTokens(members, true) + ["}"]
  }

  function Separator(first: bool): seq<string> { if first then [] else [","] }

  function ItemTokens(items: seq<Value>, first: bool): seq<string>
    decreases items
  {
    if items == [] then []
    else Separator(first) + Tokens(items[0]) + ItemTokens(items[1..], false)
  }

  function NameTokens(name: string): seq<string> { [Quoted(CString(name)), ":"] }

  function MemberTokens(members: seq<Member>, first: bool): seq<string>
    decreases members
  {
    if members == [] then []
    else
      var m := members[0];
      Separator(first) + NameTokens(m.name) + Tokens(m.value) + MemberTokens(members[1..], false)
  }

  lemma {:induction false} ItemTokensLast(items: seq<Value>, first: bool, last: Value)
    ensures ItemTokens(items + [last], first)
         == ItemTokens(items, first) + (Separator(first && items == []) + Tokens(last))
  {
    hide Tokens, Separator;
    var all := items + [last];
    if items == [] {
      assert all[1..] == [];
    } else {
      ItemTokensLast(items[1..], false, last);
      assert all[1..] == items[1..] + [last];
      Regroup(Separator(first) + Tokens(items[0]), ItemTokens(items[1..], false), Separator(false) + Tokens(last));
    }
  }

  lemma {:induction false} MemberTokensLast(members: seq<Member>, first: bool, last: Member)
    ensures MemberTokens(members + [last], first)
         == MemberTokens(members, first) + (Separator(first && members
             == []) + NameTokens(last.name) + Tokens(last.value))
  {
    hide Tokens, NameTokens, Separator;
    var all := members + [last];
    if members == [] {
      assert all[1..] == [];
    } else {
      MemberTokensLast(members[1..], false, last);
      assert all[1..] == members[1..] + [last];
      var m := members[0];
      var head := Separator(first) + NameTokens(m.name) + Tokens(m.value);
      Regroup(head, MemberTokens(members[1..], false), Separator(false) + NameTokens(last.name) + Tokens(last.value));
    }
  }

  function Concat(tokens: seq<string>): string {
    if tokens == [] then "" else tokens[0] + Concat(tokens[1..])
  }

  lemma {:induction false} ConcatAppend(a: seq<string>, b: seq<string>)
    ensures Concat(a + b) == Concat(a) + Concat(b)
  {
    if a == [] {
      assert a + b == b;
    } else {
      ConcatAppend(a[1..], b);
      assert (a + b)[1..] == a[1..] + b;
      Regroup(a[0], Concat(a[1..]), Concat(b));
    }
  }

  // ------------------------------------------------------------------- layout

  predicate IsSpace(c: char) { c == ' ' || c == '\t' || c == '\r' || c == '\n' }

  predicate AllSpace(s: string) {
    forall k :: 0 <= k < |s| ==> IsSpace(s[k])
  }

  predicate StandsAt(doc: string, pos: nat, s: string) {
    pos + |s| <= |doc| && doc[pos..pos + |s|] == s
  }

  /** From `pos` on, the document is these tokens with white space around and between them. */
  ghost predicate Laid(doc: string, pos: nat, tokens: seq<string>)
    requires pos <= |doc|
    decreases |doc| - pos, |tokens|
  {
    || (pos == |doc| && tokens == [])
    || (pos < |doc| && IsSpace(doc[pos]) && Laid(doc, pos + 1, tokens))
    || (tokens != [] && StandsAt(doc, pos, tokens[0]) && Laid(doc, pos + |tokens[0]|, tokens[1..]))
  }

  /** Appending white space, or one more token, keeps a document laid out. */
  lemma {:induction false} LaidMore(doc: string, pos: nat, tokens: seq<string>, more: string)
    requires pos <= |doc| && Laid(doc, pos, tokens)
    ensures AllSpace(more) ==> Laid(doc + more, pos, tokens)
    ensures Laid(doc + more, pos, tokens + [more])
    decreases |doc| - pos, |tokens|
  {
    var next := doc + more;
    if pos == |doc| && tokens == [] {
      LaidLast(doc, more, |more|);
    } else if pos < |doc| && IsSpace(doc[pos]) && Laid(doc, pos + 1, tokens) {
      LaidMore(doc, pos + 1, tokens, more);
    } else {
      var k := |tokens[0]|;
      LaidMore(doc, pos + k, tokens[1..], more);
      assert next[pos..pos + k] == doc[pos..pos + k];
      assert (tokens + [more])[1..] == tokens[1..] + [more];
    }
  }

  lemma {:induction false} LaidLast(doc: string, more: string, k: nat)
    requires k <= |more|
    ensures AllSpace(more) ==> Laid(doc + more, |doc + more| - k, [])
    ensures k == |more| ==> Laid(doc + more, |doc|, [more])
    decreases k
  {
    var next := doc + more;
    if k > 0 {
      LaidLast(doc, more, k - 1);
      if AllSpace(more) {
        assert next[|next| - k] == more[|more| - k];
      }
    }
    if k == |more| {
      assert next[|doc|..|doc| + |more|] == more;
      assert Laid(next, |next|, []);
    }
  }

  /** So is appending tokens without white space. */
  lemma {:induction false} LaidText(doc: string, done: seq<string>, tokens: seq<string>)
    requires Laid(doc, 0, done)
    ensures Laid(doc + Concat(tokens), 0, done + tokens)
    decreases |tokens|
  {
    hide Laid;
    if tokens == [] {
      assert doc + "" == doc && done + [] == done;
    } else {
      LaidMore(doc, 0, done, tokens[0]);
      LaidText(doc + tokens[0], done + [tokens[0]], tokens[1..]);
      Regroup(doc, tokens[0], Concat(tokens[1..]));
      Regroup(done, [tokens[0]], tokens[1..]);
      assert [tokens[0]] + tokens[1..] == tokens;
    }
  }

  // ------------------------------------- white space outside strings does not matter

  datatype Mode = Outside | Inside | AfterBackslash

  function Advance(mode: Mode, c: char): Mode {
    match mode
    case Outside => if c == '\"' then Inside else Outside
    case Inside => if c == '\"' then Outside else if c == '\\' then AfterBackslash else Inside
    case AfterBackslash => Inside
  }

  /** The text with the white space outside its strings removed. */
  function Strip(text: string, mode: Mode): string {
    if text == [] then []
    else (if mode == Outside && IsSpace(text[0]) then [] else [text[0]]) + Strip(text[1..], Advance(mode, text[0]))
  }

  /** A token survives stripping whole and leaves the scan outside strings. */
  ghost predicate Solid(token: string) {
    forall rest: string {:trigger token + rest} :: Strip(token + rest, Outside) == token + Strip(rest, Outside)
  }

  lemma {:induction false} PlainSolid(token: string, rest: string)
    requires forall k :: 0 <= k < |token| ==> !IsSpace(token[k]) && token[k] != '\"'
    ensures Strip(token + rest, Outside) == token + Strip(rest, Outside)
  {
    if token == [] {
      assert token + rest == rest;
    } else {
      PlainSolid(token[1..], rest);
      assert (token + rest)[1..] == token[1..] + rest;
    }
  }

  lemma StripInside(c: char, rest: string)
    ensures Strip(EscapeChar(c) + rest, Inside) == EscapeChar(c) + Strip(rest, Inside)
  {
    var e := EscapeChar(c);
    var t := e + rest;
    if |e| == 1 {
      assert t[1..] == rest;
    } else if |e| == 2 {
      assert t[1..][1..] == rest;
      assert e == [e[0]] + [e[1]];
    } else {
      var d := HexChar(c as int % 16);
      assert t[1..][1..] == e[2..] + rest;
      StripHex(e[2..], rest);
      assert e == [e[0]] + ([e[1]] + e[2..]);
    }
  }

  lemma {:induction false} StripHex(h: string, rest: string)
    requires forall k :: 0 <= k < |h| ==> h[k] != '\\' && h[k] != '\"'
    ensures Strip(h + rest, Inside) == h + Strip(rest, Inside)
  {
    if h == [] {
      assert h + rest == rest;
    } else {
      StripHex(h[1..], rest);
      assert (h + rest)[1..] == h[1..] + rest;
    }
  }

  lemma {:induction false} StripEscaped(s: string, rest: string)
    ensures Strip(Escaped(s) + rest, Inside) == Escaped(s) + Strip(rest, Inside)
  {
    if s == [] {
      assert Escaped(s) + rest == rest;
    } else {
      var e, tail := EscapeChar(s[0]), Escaped(s[1..]) + rest;
      StripInside(s[0], tail);
      StripEscaped(s[1..], rest);
      assert Escaped(s) + rest == e + tail;
    }
  }

  lemma QuotedSolid(s: string, rest: string)
    ensures Strip(Quoted(s) + rest, Outside) == Quoted(s) + Strip(rest, Outside)
  {
    var tail := "\"" + rest;
    assert tail[1..] == rest;
    StripEscaped(s, tail);
    assert Quoted(s) + rest == "\"" + (Escaped(s) + tail);
    assert ("\"" + (Escaped(s) + tail))[1..] == Escaped(s) + tail;
  }

  lemma SolidStep(token: string, rest: string)
    requires Solid(token)
    ensures Strip(token + rest, Outside) == token + Strip(rest, Outside)
  {
  }

  lemma StripNothing()
    ensures Strip([], Outside) == []
  {
  }

  lemma {:induction false} StripSpace(text: string)
    requires text != [] && IsSpace(text[0])
    ensures Strip(text, Outside) == Strip(text[1..], Outside)
  {
  }

  /** A laid-out document stripped of its white space is its tokens and nothing else. */
  lemma {:induction false} StripLaid(doc: string, pos: nat, tokens: seq<string>)
    requires pos <= |doc| && Laid(doc, pos, tokens)
    requires forall k :: 0 <= k < |tokens| ==> Solid(tokens[k])
    ensures Strip(doc[pos..], Outside) == Concat(tokens)
    decreases |doc| - pos, |tokens|
  {
    hide Solid, Strip, Advance;
    if pos == |doc| && tokens == [] {
      assert doc[pos..] == [];
      StripNothing();
    } else if pos < |doc| && IsSpace(doc[pos]) && Laid(doc, pos + 1, tokens) {
      StripLaid(doc, pos + 1, tokens);
      StripSpace(doc[pos..]);
      assert doc[pos..][1..] == doc[pos + 1..];
    } else {
      var k := |tokens[0]|;
      StripLaid(doc, pos + k, tokens[1..]);
      assert doc[pos..] == tokens[0] + doc[pos + k..];
      SolidStep(tokens[0], doc[pos + k..]);
    }
  }

  /** The reals of the tree print as text without quotes and white space. */
  ghost predicate RealsPlain(v: Value) {
    match v
    case Real(shown) => forall k :: 0 <= k < |shown| ==> !IsSpace(shown[k]) && shown[k] != '\"'
    case Array(items) => forall k :: 0 <= k < |items| ==> RealsPlain(items[k])
    case Object(members) => forall k :: 0 <= k < |members| ==> RealsPlain(members[k].value)
    case _ => true
  }

  ghost predicate AllSolid(tokens: seq<string>) {
    forall k :: 0 <= k < |tokens| ==> Solid(tokens[k])
  }

  lemma PlainIsSolid(token: string)
    requires forall k :: 0 <= k < |token| ==> !IsSpace(token[k]) && token[k] != '\"'
    ensures Solid(token)
  {
    forall rest: string
      ensures Strip(token + rest, Outside) == token + Strip(rest, Outside)
    {
      PlainSolid(token, rest);
    }
  }

  lemma QuotedIsSolid(s: string)
    ensures Solid(Quoted(s))
  {
    forall rest: string
      ensures Strip(Quoted(s) + rest, Outside) == Quoted(s) + Strip(rest, Outside)
    {
      QuotedSolid(s, rest);
    }
  }

  lemma {:induction false} TokensSolid(v: Value)
    requires RealsPlain(v)
    ensures AllSolid(Tokens(v))
    decreases v
  {
    hide Solid;
    match v
    case String(s) => QuotedIsSolid(CString(s));
    case Array(items) =>
      PlainIsSolid("[");
      PlainIsSolid("]");
      ItemTokensSolid(items, true);
    case Object(members) =>
      PlainIsSolid("{");
      PlainIsSolid("}");
      MemberTokensSolid(members, true);
    case _ => PlainIsSolid(Tokens(v)[0]);
  }

  lemma {:induction false} ItemTokensSolid(items: seq<Value>, first: bool)
    requires forall k :: 0 <= k < |items| ==> RealsPlain(items[k])
    ensures AllSolid(ItemTokens(items, first))
    decreases items
  {
    hide Solid, RealsPlain;
    if items != [] {
      PlainIsSolid(",");
      TokensSolid(items[0]);
      ItemTokensSolid(items[1..], false);
    }
  }

  lemma {:induction false} MemberTokensSolid(members: seq<Member>, first: bool)
    requires forall k :: 0 <= k < |members| ==> RealsPlain(members[k].value)
    ensures AllSolid(MemberTokens(members, first))
    decreases members
  {
    hide Solid, RealsPlain;
    if members != [] {
      PlainIsSolid(",");
      PlainIsSolid(":");
      QuotedIsSolid(CString(members[0].name));
      TokensSolid(members[0].value);
      MemberTokensSolid(members[1..], false);
    }
  }

  /** Two layouts of one tree differ only in white space outside strings. */
  lemma SameLexemes(v: Value, doc: string, other: string)
    requires RealsPlain(v)
    requires Laid(doc, 0, Tokens(v)) && Laid(other, 0, Tokens(v))
    ensures Strip(doc, Outside) == Strip(other, Outside) == Concat(Tokens(v))
  {
    TokensSolid(v);
    StripLaid(doc, 0, Tokens(v));
    StripLaid(other, 0, Tokens(v));
    assert doc[0..] == doc && other[0..] == other;
  }
}
