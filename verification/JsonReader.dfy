/** The reader of src/jsoncpp/json_reader.cpp: a cursor over the document, an error list and a
    stack of the nodes being filled. Every method is proved against what JsonLexer, JsonStrings
    and JsonParser say of the document. */
module JsonReader {
  import opened JsonValue
  import opened JsonText
  import opened JsonLexer
  import opened JsonStrings
  import opened JsonParser
  import JsonAccepted
  import JsonLanguage

  class Reader {
    const cfg: Config
    var document: string
    var current: nat
    var errors: seq<ErrorInfo>
    /** The values the node pointers lead to; a popped value is stored back in its parent. */
    var nodes: seq<Value>

    constructor (cfg: Config)
      ensures this.cfg == cfg
      ensures document == "" && current == 0 && errors == [] && nodes == []
    {
      this.cfg := cfg;
      document, current, errors, nodes := "", 0, [], [];
    }

    ghost predicate Valid()
      reads this
    {
      current <= |document|
    }

    // ---------------------------------------------------------------- scanning

    method GetNextChar() returns (c: char)
      requires Valid()
      modifies this`current
      ensures Valid()
      ensures c == CharAt(document, old(current)) && current == Next(document, old(current))
    {
      if current == |document| {
        return '\0';
      }
      c := document[current];
      current := current + 1;
    }

    method SkipSpaces()
      requires Valid()
      modifies this`current
      ensures Valid() && current == AfterSpaces(document, old(current))
    {
      while current != |document|
        invariant Valid() && AfterSpaces(document, current) == AfterSpaces(document, old(current))
        decreases |document| - current
      {
        if IsSpace(document[current]) {
          current := current + 1;
        } else {
          break;
        }
      }
    }

    /** Compares the word from its end. */
    method Match(word: string) returns (ok: bool)
      requires Valid()
      modifies this`current
      ensures Valid() && Scan(ok, current) == ScanWord(document, old(current), word)
    {
      if |document| - current < |word| {
        return false;
      }
      var index := |word|;
      while index > 0
        invariant 0 <= index <= |word|
        invariant forall k :: index <= k < |word| ==> document[current + k] == word[k]
      {
        index := index - 1;
        if document[current + index] != word[index] {
          assert document[current..current + |word|][index] != word[index];
          return false;
        }
      }
      assert document[current..current + |word|] == word;
      current := current + |word|;
      return true;
    }

    method ReadNumber()
      requires Valid()
      modifies this`current
      ensures Valid() && current == NumberEnd(document, old(current))
    {
      while current != |document|
        invariant Valid() && NumberEnd(document, current) == NumberEnd(document, old(current))
        decreases |document| - current
      {
        if !IsNumberChar(document[current]) {
          break;
        }
        current := current + 1;
      }
    }

    method ReadString() returns (ok: bool)
      requires Valid()
      modifies this`current
      ensures Valid() && Scan(ok, current) == ScanString(document, old(current))
    {
      var c := '\0';
      while current != |document|
        invariant Valid() && c != '\"'
        invariant ScanString(document, current) == ScanString(document, old(current))
        decreases |document| - current
      {
        c := GetNextChar();
        if c == '\\' {
          var skipped := GetNextChar();
        } else if c == '\"' {
          break;
        }
      }
      ok := c == '\"';
    }

    method ReadBlockComment() returns (ok: bool)
      requires Valid()
      modifies this`current
      ensures Valid() && Scan(ok, current) == ScanBlock(document, old(current))
    {
      while current != |document|
        invariant Valid() && BlockEnd(document, current) == BlockEnd(document, old(current))
        decreases |document| - current
      {
        var c := GetNextChar();
        if c == '*' && Peek(document, cfg.behind, current) == '/' {
          assert BlockEnd(document, old(current)) == current;
          break;
        }
      }
      assert current == BlockEnd(document, old(current));
      var last := GetNextChar();
      ok := last == '/';
    }

    method ReadLineComment()
      requires Valid()
      modifies this`current
      ensures Valid() && current == LineEnd(document, old(current))
    {
      while current != |document|
        invariant Valid() && LineEnd(document, current) == LineEnd(document, old(current))
        decreases |document| - current
      {
        var c := GetNextChar();
        if c == '\r' || c == '\n' {
          break;
        }
      }
    }

    method ReadComment() returns (ok: bool)
      requires Valid()
      modifies this`current
      ensures Valid() && Scan(ok, current) == ScanComment(document, old(current))
    {
      var c := GetNextChar();
      ok := false;
      if c == '*' {
        ok := ReadBlockComment();
      } else if c == '/' {
        ReadLineComment();
        ok := true;
      }
    }

    method NextToken() returns (token: Token)
      requires Valid()
      modifies this`current
      ensures Valid() && token == ReadToken(document, old(current)) && current == token.end
    {
      hide AfterSpaces, ScanString, ScanComment, NumberEnd, ScanWord;
      SkipSpaces();
      var start := current;
      var c := GetNextChar();
      var kind, ok := Error, true;
      match c {
      case '{' => kind := ObjectBegin;
      case '}' => kind := ObjectEnd;
      case '[' => kind := ArrayBegin;
      case ']' => kind := ArrayEnd;
      case '\"' =>
        kind := Str;
        ok := ReadString();
      case '/' =>
        kind := Comment;
        ok := ReadComment();
      case 't' =>
        kind := True;
        ok := Match("rue");
      case 'f' =>
        kind := False;
        ok := Match("alse");
      case 'n' =>
        kind := Kind.Null;
        ok := Match("ull");
      case ',' => kind := Comma;
      case ':' => kind := Colon;
      case '\0' => kind := EndOfStream;
      case _ =>
        if IsDigit(c) || c == '-' {
          kind := Number;
          ReadNumber();
        } else {
          ok := false;
        }
      }
      token := Token(if ok then kind else Error, start, current);
    }

    method SkipCommentTokens() returns (token: Token)
      requires Valid()
      modifies this`current
      ensures Valid() && token == FirstToken(cfg.allowComments, document, old(current)) && current == token.end
    {
      hide ReadToken;
      token := NextToken();
      while cfg.allowComments && token.kind.Comment?
        invariant Valid() && current == token.end
        invariant cfg.allowComments ==>
            SkipComments(document, old(current))
            == if token.kind.Comment? then SkipComments(document, current) else token
        invariant !cfg.allowComments ==> token == ReadToken(document, old(current))
        decreases |document| - current, if token.kind.Comment? then 1 else 0
      {
        token := NextToken();
      }
    }

    /** The loops of readObject and readArray over comments. */
    method NextBeyondComments() returns (token: Token)
      requires Valid()
      modifies this`current
      ensures Valid() && token == SkipComments(document, old(current)) && current == token.end
    {
      hide ReadToken;
      token := NextToken();
      while token.kind.Comment?
        invariant Valid() && current == token.end
        invariant SkipComments(document, old(current))
               == if token.kind.Comment? then SkipComments(document, current) else token
        decreases |document| - current, if token.kind.Comment? then 1 else 0
      {
        token := NextToken();
      }
    }

    // ------------------------------------------------------------------ errors

    method AddError(message: Message, token: Token) returns (ok: bool)
      modifies this`errors
      ensures !ok && errors == old(errors) + [ErrorInfo(message, token)]
    {
      errors := errors + [ErrorInfo(message, token)];
      return false;
    }

    /** Skips to a closing token, or to an end of stream, and keeps the errors there were. */
    method RecoverFromError(closing: Kind) returns (ok: bool)
      requires Valid()
      modifies this`current, this`errors
      ensures Valid() && !ok && errors == old(errors)
      ensures current == Recover(document, old(current), closing)
    {
      hide ReadToken;
      var errorCount := |errors|;
      while true
        invariant Valid() && errors == old(errors)
        invariant Recover(document, current, closing) == Recover(document, old(current), closing)
        decreases |document| - current
      {
        var skip := NextToken();
        if skip.kind == closing || skip.kind.EndOfStream? {
          break;
        }
      }
      errors := errors[..errorCount];
      return false;
    }

    method AddErrorAndRecover(message: Message, token: Token, closing: Kind) returns (ok: bool)
      requires Valid()
      modifies this`current, this`errors
      ensures Valid() && !ok && errors == old(errors) + [ErrorInfo(message, token)]
      ensures current == Recover(document, old(current), closing)
    {
      ok := AddError(message, token);
      ok := RecoverFromError(closing);
    }

    // ----------------------------------------------------------------- scalars

    method SetCurrentValue(value: Value)
      requires nodes != []
      modifies this`nodes
      ensures nodes == old(nodes)[..|old(nodes)| - 1] + [value]
    {
      nodes := nodes[..|nodes| - 1] + [value];
    }

    method DecodeDouble(token: Token) returns (ok: bool)
      requires nodes != [] && token.start <= token.end <= |document|
      modifies this`errors, this`nodes
      ensures Decodes(old(nodes), old(errors), DecodeReal(cfg.scan, document[token.start..token.end]), token, ok)
    {
      match cfg.scan(document[token.start..token.end])
      case None => ok := AddError(NotANumber, token);
      case Some(shown) =>
        SetCurrentValue(Real(shown));
        ok := true;
    }

    /** The node holds what was decoded, or keeps its value and an error is added. */
    ghost predicate Decodes(before: seq<Value>, errorsBefore: seq<ErrorInfo>, d: Decoded<Value>, token: Token, ok: bool)
      requires before != []
      reads this
    {
      var r := Scalar(d, before[|before| - 1], token);
      ok == r.ok && errors == errorsBefore + r.errors && nodes == before[..|before| - 1] + [r.value]
    }

    method DecodeNumberToken(token: Token) returns (ok: bool)
      requires nodes != [] && token.start <= token.end <= |document|
      requires IsNumberText(document[token.start..token.end])
      modifies this`errors, this`nodes
      ensures Decodes(old(nodes), old(errors), DecodeNumber(cfg.scan, document[token.start..token.end]), token, ok)
    {
      hide Decodes, LooksReal, IsNumberText, Numeral;
      var text := document[token.start..token.end];
      var isDouble := InspectReal(text);
      if isDouble {
        ok := DecodeDouble(token);
        return;
      }
      var fits, number := DecodeInteger(text);
      if !fits {
        ok := DecodeDouble(token);
        return;
      }
      SetCurrentValue(Integer(number));
      ok := true;
      DecodedScalar(old(nodes), old(errors), Integer(number), token);
    }

    lemma DecodedScalar(before: seq<Value>, errorsBefore: seq<ErrorInfo>, v: Value, token: Token)
      requires before != [] && errors == errorsBefore && nodes == before[..|before| - 1] + [v]
      ensures Decodes(before, errorsBefore, Good(v), token, true)
    {
    }

    method DecodeStringToken(token: Token) returns (ok: bool, decoded: string)
      requires token.start + 2 <= token.end <= |document|
      modifies this`errors
      ensures match DecodeString(document, token)
        case Good(s) => ok && decoded == s && errors == old(errors)
        case Bad(m) => !ok && errors == old(errors) + [ErrorInfo(m, token)]
    {
      hide DecodeCodePoint, Utf8;
      decoded := "";
      var pos, end := token.start + 1, token.end - 1;
      PrependNothing(DecodeFrom(document, pos, end));
      while pos != end
        invariant token.start < pos <= end && errors == old(errors)
        invariant DecodeString(document, token) == Prepend(decoded, DecodeFrom(document, pos, end))
        decreases end - pos
      {
        var c := document[pos];
        pos := pos + 1;
        if c == '\"' {
          break;
        } else if c == '\\' {
          if pos == end {
            ok := AddError(EmptyEscape, token);
            return;
          }
          var escape := document[pos];
          pos := pos + 1;
          if escape == 'u' {
            var good, unicode, next := DecodeUnicode(token, pos, end);
            if !good {
              ok := false;
              return;
            }
            PrependTwice(decoded, Utf8(unicode), DecodeFrom(document, next, end));
            decoded := decoded + Utf8(unicode);
            pos := next;
          } else if ShortEscape(escape) == '\0' {
            ok := AddError(BadEscape, token);
            return;
          } else {
            PrependTwice(decoded, [ShortEscape(escape)], DecodeFrom(document, pos, end));
            decoded := decoded + [ShortEscape(escape)];
          }
        } else {
          PrependTwice(decoded, [c], DecodeFrom(document, pos, end));
          decoded := decoded + [c];
        }
      }
      assert decoded + "" == decoded;
      ok := true;
    }

    method DecodeUnicode(token: Token, start: nat, end: nat) returns (ok: bool, unicode: nat, next: nat)
      requires start <= end <= |document|
      modifies this`errors
      ensures match DecodeCodePoint(document, start, end)
        case Good(c) => ok && c == CodePoint(unicode, next) && errors == old(errors)
        case Bad(m) => !ok && errors == old(errors) + [ErrorInfo(m, token)]
    {
      hide EscapeSequence;
      next := start;
      ok, unicode := DecodeHex(token, start, end);
      if !ok {
        return;
      }
      next := start + 4;
      if 0xD800 <= unicode <= 0xDBFF {
        if end - next < 6 {
          ok := AddError(ShortSurrogatePair, token);
          return;
        }
        if document[next] == '\\' && document[next + 1] == 'u' {
          var low;
          ok, low := DecodeHex(token, next + 2, end);
          if ok {
            unicode := 0x10000 + unicode % 1024 * 1024 + low % 1024;
            next := next + 6;
          }
        } else {
          ok := AddError(NoSecondHalf, token);
        }
      }
    }

    method DecodeHex(token: Token, start: nat, end: nat) returns (ok: bool, unicode: nat)
      requires start <= end <= |document|
      modifies this`errors
      ensures match EscapeSequence(document, start, end)
        case Good(n) => ok && unicode == n && errors == old(errors)
        case Bad(m) => !ok && errors == old(errors) + [ErrorInfo(m, token)]
    {
      unicode := 0;
      if end - start < 4 {
        ok := AddError(FourDigitsExpected, token);
        return;
      }
      for index := 0 to 4
        invariant HexNumber(document, start + index, 4 - index, unicode) == HexNumber(document, start, 4, 0)
        invariant errors == old(errors)
      {
        var digit := HexValue(document[start + index]);
        if digit < 0 {
          ok := AddError(HexDigitExpected, token);
          return;
        }
        unicode := unicode * 16 + digit;
      }
      ok := true;
    }

    // ------------------------------------------------------------------ values

    ghost function Top(): Value
      requires nodes != []
      reads this
    {
      nodes[|nodes| - 1]
    }

    /** The cursor, the errors and the node stack after a read that gives `r`; the stack is as
        deep as before and only its top has changed. */
    ghost predicate After(before: seq<Value>, errorsBefore: seq<ErrorInfo>, r: Parsed, ok: bool)
      requires before != []
      reads this
    {
      && ok == r.ok
      && current == r.end
      && errors == errorsBefore + r.errors
      && nodes == before[..|before| - 1] + [r.value]
    }

    method ParseDocument(document: string, root: Value) returns (ok: bool, value: Value)
      modifies this
      ensures var r := Parse(cfg, document, root);
        ok == r.ok && value == r.value && errors == r.errors && current == r.end && nodes == [value]
      ensures ok <==> errors == []
      ensures ok <==> JsonAccepted.InLanguage(cfg, document)
      ensures forall t, end :: JsonLanguage.Begins(cfg, document, t, end) ==> value == JsonLanguage.ValueOf(cfg, t)
    {
      hide ReadValue, FirstToken, JsonAccepted.InLanguage, JsonLanguage.Begins, JsonLanguage.ValueOf;
      JsonAccepted.AcceptedIff(cfg, document, root);
      this.document, current, errors, nodes := document, 0, [], [root];
      ok := ReadNode();
      var token := SkipCommentTokens();
      value := nodes[0];
      if cfg.strictRoot {
        if !value.Array? && !value.Object? {
          ok := AddError(RootNotContainer, Token(Error, 0, |document|));
        }
      }
    }

    method ReadNode() returns (ok: bool)
      requires Valid() && nodes != []
      modifies this`current, this`errors, this`nodes
      ensures Valid()
      ensures After(old(nodes), old(errors), ReadValue(cfg, document, old(current), old(Top())), ok)
      decreases |document| - current, 0
    {
      hide FirstToken, ReadMembers, ReadItems, DecodeNumber, DecodeString, ReadToken, CString;
      var token := SkipCommentTokens();
      ok := true;
      match token.kind
      case ObjectBegin => ok := ReadObject();
      case ArrayBegin => ok := ReadArray();
      case Number => ok := DecodeNumberToken(token);
      case Str =>
        var s;
        ok, s := DecodeStringToken(token);
        if ok {
          SetCurrentValue(String(CString(s)));
        }
      case True => SetCurrentValue(Bool(true));
      case False => SetCurrentValue(Bool(false));
      case Null => SetCurrentValue(Value.Null);
      case _ => ok := AddError(ValueExpected, token);
    }

    method ReadObject() returns (ok: bool)
      requires Valid() && nodes != []
      modifies this`current, this`errors, this`nodes
      ensures Valid()
      ensures After(old(nodes), old(errors), ReadMembers(cfg, document, old(current), [], true), ok)
      decreases |document| - current, 2
    {
      hide ReadToken, SkipComments, ReadValue, DecodeString, Recover, Put, Find, CString, After, AfterMember;
      var name, members := "", [];
      SetCurrentValue(Object(members));
      while true
        invariant Valid() && old(current) <= current && errors == old(errors)
        invariant nodes == old(nodes)[..|old(nodes)| - 1] + [Object(members)]
        invariant ReadMembers(cfg, document, current, members, name == "")
               == ReadMembers(cfg, document, old(current), [], true)
        decreases |document| - current
      {
        ghost var pos := current;
        var tokenName := NextBeyondComments();
        if tokenName.kind.ObjectEnd? && name == "" {
          Finish(old(nodes), old(errors), Parsed(true, Object(members), current, []), true);
          return true;
        }
        if !tokenName.kind.Str? {
          ok := AddErrorAndRecover(MissingNameOrBrace, tokenName, ObjectEnd);
          Finish(old(nodes), old(errors), Failure(document, Object(members), MissingNameOrBrace, tokenName,
              ObjectEnd), ok);
          return;
        }
        ok, name := DecodeStringToken(tokenName);
        if !ok {
          ok := RecoverFromError(ObjectEnd);
          Finish(old(nodes), old(errors), ReadMembers(cfg, document, old(current), [], true), ok);
          return;
        }
        var colon := NextToken();
        if !colon.kind.Colon? {
          ok := AddErrorAndRecover(MissingColon, colon, ObjectEnd);
          Finish(old(nodes), old(errors), Failure(document, Object(members), MissingColon, colon, ObjectEnd), ok);
          return;
        }
        var key := CString(name);
        ghost var child := ReadValue(cfg, document, current, Find(members, key));
        var value;
        ok, value := ReadChild(Find(members, key));
        members := Put(members, key, value);
        SetCurrentValue(Object(members));
        var done;
        done, ok := EndMember(pos, members, name == "", ok, child, old(nodes), old(errors));
        if done {
          return;
        }
      }
    }

    /** The part of readObject behind the value of a member: a separator or the end of the object. */
    method EndMember(ghost pos: nat, members: seq<Member>, unnamed: bool, childOk: bool, ghost child: Parsed,
                     ghost before: seq<Value>, ghost errorsBefore: seq<ErrorInfo>)
      returns (done: bool, ok: bool)
      requires Valid() && pos < current == child.end && childOk == child.ok && (child.ok <==> child.errors == [])
      requires before != [] && nodes == before[..|before| - 1] + [Object(members)]
      requires errors == errorsBefore + child.errors
      modifies this`current, this`errors
      ensures Valid() && old(current) <= current
      ensures done ==> After(before, errorsBefore, AfterMember(cfg, document, pos, members, unnamed, child), ok)
      ensures !done ==> errors == errorsBefore
      ensures !done ==>
          AfterMember(cfg, document, pos, members, unnamed, child)
          == ReadMembers(cfg, document, current, members, unnamed)
    {
      hide ReadToken, SkipComments, ReadMembers, Recover, After;
      if !childOk {
        ok := RecoverFromError(ObjectEnd);
        Finish(before, errorsBefore, AfterMember(cfg, document, pos, members, unnamed, child), ok);
        return true, ok;
      }
      var comma := NextToken();
      if !(comma.kind.ObjectEnd? || comma.kind.Comma? || comma.kind.Comment?) {
        ok := AddErrorAndRecover(MissingCommaOrBrace, comma, ObjectEnd);
        Finish(before, errorsBefore, Failure(document, Object(members), MissingCommaOrBrace, comma, ObjectEnd), ok);
        return true, ok;
      }
      if comma.kind.Comment? {
        comma := NextBeyondComments();
      }
      if comma.kind.ObjectEnd? {
        Finish(before, errorsBefore, Parsed(true, Object(members), current, []), true);
        return true, true;
      }
      return false, true;
    }

    lemma Finish(before: seq<Value>, errorsBefore: seq<ErrorInfo>, r: Parsed, ok: bool)
      requires before != []
      requires ok == r.ok && current == r.end && errors == errorsBefore + r.errors
      requires nodes == before[..|before| - 1] + [r.value]
      ensures After(before, errorsBefore, r, ok)
    {
    }

    /** Push a node, read into it, pop it. */
    method ReadChild(was: Value) returns (ok: bool, value: Value)
      requires Valid() && nodes != []
      modifies this`current, this`errors, this`nodes
      ensures Valid() && nodes == old(nodes)
      ensures var r := ReadValue(cfg, document, old(current), was);
        ok == r.ok && value == r.value && current == r.end && errors == old(errors) + r.errors
      decreases |document| - current, 1
    {
      hide ReadValue;
      nodes := nodes + [was];
      assert nodes[..|nodes| - 1] == old(nodes);
      ok := ReadNode();
      value := nodes[|nodes| - 1];
      nodes := nodes[..|nodes| - 1];
    }

    method ReadArray() returns (ok: bool)
      requires Valid() && nodes != []
      modifies this`current, this`errors, this`nodes
      ensures Valid()
      ensures var p := AfterSpaces(document, old(current));
        After(old(nodes), old(errors),
              if Peek(document, cfg.behind, p) == ']' then Parsed(true, Array([]), ReadToken(document, p).end, [])
              else ReadItems(cfg, document, p, []), ok)
      decreases |document| - current, 2
    {
      hide ReadToken, SkipComments, ReadValue, Recover, After, AfterSpaces;
      var items: seq<Value> := [];
      SetCurrentValue(Array(items));
      SkipSpaces();
      if Peek(document, cfg.behind, current) == ']' {
        var endArray := NextToken();
        Finish(old(nodes), old(errors), Parsed(true, Array([]), endArray.end, []), true);
        return true;
      }
      ghost var p := current;
      while true
        invariant Valid() && old(current) <= current && errors == old(errors)
        invariant nodes == old(nodes)[..|old(nodes)| - 1] + [Array(items)]
        invariant ReadItems(cfg, document, current, items) == ReadItems(cfg, document, p, [])
        decreases |document| - current
      {
        ghost var child := ReadValue(cfg, document, current, Value.Null);
        var value;
        ok, value := ReadChild(Value.Null);
        items := items + [value];
        SetCurrentValue(Array(items));
        if !ok {
          ok := RecoverFromError(ArrayEnd);
          Finish(old(nodes), old(errors), Parsed(false, Array(items), current, child.errors), ok);
          return;
        }
        var token := NextBeyondComments();
        if !token.kind.Comma? && !token.kind.ArrayEnd? {
          ok := AddErrorAndRecover(MissingCommaOrBracket, token, ArrayEnd);
          Finish(old(nodes), old(errors), Failure(document, Array(items), MissingCommaOrBracket, token, ArrayEnd), ok);
          return;
        }
        if token.kind.ArrayEnd? {
          Finish(old(nodes), old(errors), Parsed(true, Array(items), current, []), true);
          return true;
        }
      }
    }
  }

  // --------------------------------------------------------------- integers

  method InspectReal(text: string) returns (isDouble: bool)
    ensures isDouble <==> LooksReal(text)
  {
    isDouble := false;
    for inspect := 0 to |text|
      invariant isDouble <==> LooksReal(text[..inspect])
    {
      RealSoFar(text, inspect);
      var c := text[inspect];
      isDouble := isDouble || c == '.' || c == 'e' || c == 'E' || c == '+' || (c == '-' && inspect != 0);
    }
    assert text[..|text|] == text;
  }

  /** The accumulator never exceeds its limit, and the integer is exact precisely when its
      magnitude fits. */
  method DecodeInteger(text: string) returns (fits: bool, number: int)
    requires IsNumberText(text) && !LooksReal(text)
    ensures AllDigits(Unsigned(text))
    ensures fits <==> Numeral(Unsigned(text)) <= Limit(text[0] == '-')
    ensures fits && text[0] == '-' ==> number == -(Numeral(Unsigned(text)) as int)
    ensures fits && text[0] != '-' ==> number == Numeral(Unsigned(text))
  {
    hide LooksReal, DigitValue;
    UnsignedDigits(text);
    var isNegative := text[0] == '-';
    var digits := if isNegative then text[1..] else text;
    var maxIntegerValue := Limit(isNegative);
    var threshold := maxIntegerValue / 10;
    var value: int := 0;
    var k := 0;
    assert digits[..0] == [];
    while k < |digits|
      invariant 0 <= k <= |digits|
      invariant value == Numeral(digits[..k]) <= maxIntegerValue
    {
      var digit := DigitValue(digits[k]);
      assert digits[..k + 1][..k] == digits[..k];
      k := k + 1;
      if value >= threshold {
        if value > threshold || k != |digits| || digit > maxIntegerValue % 10 {
          TooLarge(digits, k, maxIntegerValue);
          return false, 0;
        }
      }
      value := value * 10 + digit;
    }
    assert digits[..|digits|] == digits;
    return true, if isNegative then -value else value;
  }

  lemma RealSoFar(text: string, inspect: nat)
    requires inspect < |text|
    ensures var c := text[inspect];
      LooksReal(text[..inspect + 1])
      <==> LooksReal(text[..inspect]) || c == '.' || c == 'e' || c == 'E' || c == '+' || (c == '-' && inspect != 0)
  {
    var s, t := text[..inspect], text[..inspect + 1];
    assert forall k :: 0 <= k < inspect ==> s[k] == t[k];
    assert t[inspect] == text[inspect];
  }

  /** Adding digits on the right never makes a numeral smaller. */
  lemma {:induction false} NumeralGrows(digits: string, k: nat)
    requires k <= |digits| && AllDigits(digits)
    ensures Numeral(digits[..k]) <= Numeral(digits)
    ensures k < |digits| ==> Numeral(digits) >= 10 * Numeral(digits[..k])
    decreases |digits| - k
  {
    if k == |digits| {
      assert digits[..k] == digits;
    } else {
      NumeralGrows(digits, k + 1);
      assert digits[..k + 1][..k] == digits[..k];
    }
  }

  /** Where the loop gives up, the numeral is beyond the limit. */
  lemma TooLarge(digits: string, k: nat, limit: nat)
    requires 1 <= k <= |digits| && AllDigits(digits) && limit >= 100
    requires var value, digit := Numeral(digits[..k - 1]), DigitValue(digits[k - 1]);
      value >= limit / 10 && (value > limit / 10 || k != |digits| || digit > limit % 10)
    ensures Numeral(digits) > limit
  {
    assert digits[..k][..k - 1] == digits[..k - 1];
    NumeralGrows(digits, k);
  }

  lemma PrependNothing(d: Decoded<string>)
    ensures Prepend("", d) == d
  {
    if d.Good? {
      assert "" + d.value == d.value;
    }
  }

  lemma PrependTwice(a: string, b: string, d: Decoded<string>)
    ensures Prepend(a, Prepend(b, d)) == Prepend(a + b, d)
  {
    if d.Good? {
      Regroup(a, b, d.value);
    }
  }
}
