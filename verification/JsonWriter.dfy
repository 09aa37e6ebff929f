/** The conversions and the two printers of src/jsoncpp/json_writer.cpp. */
module JsonWriter {
  import opened JsonValue
  import opened JsonText
  import opened JsonLayout

  // ------------------------------------------------------------------ integers

  const Modulus: int := 0x1_0000_0000_0000_0000
  const UIntBufferSize: nat := 25

  /** A mathematical integer as the 64-bit two's complement register holds it. */
  function WrapSigned(n: int): int {
    var m := n % Modulus;
    if m > MaxLargestInt then m - Modulus else m
  }

  function WrapUnsigned(n: int): nat { n % Modulus }

  lemma TenToTwenty()
    ensures Pow10(20) > MaxLargestUInt
  {
    assert Pow10(4) == 10_000;
    assert Pow10(8) == 100_000_000;
    assert Pow10(12) == 1_000_000_000_000;
    assert Pow10(16) == 10_000_000_000_000_000;
  }

  lemma {:induction false} DigitsStep(n: nat, tail: string)
    ensures Digits(n) + tail == (if n / 10 == 0 then [] else Digits(n / 10)) + ([DigitChar(n % 10)] + tail)
    ensures |Digits(n)| == 1 + if n / 10 == 0 then 0 else |Digits(n / 10)|
  {
  }

  /** Writes the digits and a final NUL backwards from `current`; twenty digits always suffice. */
  method UintToString(value: nat, buffer: array<char>, current: nat) returns (start: nat)
    requires value <= MaxLargestUInt
    requires UIntBufferSize <= current <= buffer.Length
    modifies buffer
    ensures current - 21 <= start < current
    ensures buffer[start..current - 1] == Digits(value) && buffer[current - 1] == '\0'
    ensures forall k :: 0 <= k < buffer.Length && !(start <= k < current) ==> buffer[k] == old(buffer[k])
  {
    hide Digits, DigitChar;
    TenToTwenty();
    DigitsFit(value, 20);
    start := current - 1;
    buffer[start] := '\0';
    var rest := value;
    var more := true;
    while more
      invariant 0 <= start < current
      invariant start == current - 1 - (|Digits(value)| - (if more then |Digits(rest)| else 0))
      invariant more ==> Digits(value) == Digits(rest) + buffer[start..current - 1]
      invariant !more ==> Digits(value) == buffer[start..current - 1]
      invariant buffer[current - 1] == '\0'
      invariant forall k :: 0 <= k < buffer.Length && !(start <= k < current) ==> buffer[k] == old(buffer[k])
      decreases if more then 1 + rest else 0
    {
      ghost var tail := buffer[start..current - 1];
      start := start - 1;
      buffer[start] := DigitChar(rest % 10);
      assert buffer[start..current - 1] == [DigitChar(rest % 10)] + tail;
      DigitsStep(rest, tail);
      rest := rest / 10;
      more := rest != 0;
    }
  }

  /** The text at `start` of a buffer, up to its NUL. */
  lemma {:induction false} TextInBuffer(text: string, after: string)
    requires NulFree(text)
    ensures CString(text + ['\0'] + after) == text
  {
    var all := text + ['\0'] + after;
    if text != [] {
      TextInBuffer(text[1..], after);
      assert all[1..] == text[1..] + ['\0'] + after;
    }
  }

  /** The absolute value survives the conversion to unsigned, also for the smallest integer. */
  lemma Magnitude(number: int)
    requires MinLargestInt <= number <= MaxLargestInt
    ensures number < 0 ==> WrapUnsigned(WrapSigned(-number)) == -number
    ensures number >= 0 ==> WrapUnsigned(number) == number
  {
    if number < 0 {
      assert (-number) % Modulus == -number;
      if number == MinLargestInt {
        assert WrapSigned(-number) == MinLargestInt;
        assert MinLargestInt % Modulus == -MinLargestInt;
      }
    }
  }

  /** Every 64-bit signed integer prints as its decimal form; the smallest one rests on
      negation wrapping around to itself. */
  method SignedToString(number: int) returns (text: string)
    requires MinLargestInt <= number <= MaxLargestInt
    ensures text == IntText(number)
  {
    hide WrapSigned, WrapUnsigned, Digits, CString, Concat, Tokens;
    var buffer := new char[UIntBufferSize];
    var value := number;
    var isNegative := value < 0;
    if isNegative {
      value := WrapSigned(-value);
    }
    Magnitude(number);
    var current := UintToString(WrapUnsigned(value), buffer, UIntBufferSize);
    ghost var digits := buffer[current..];
    DigitsBehind(digits, Digits(if number < 0 then -number else number));
    if isNegative {
      current := current - 1;
      buffer[current] := '-';
      assert buffer[current..] == ['-'] + digits;
    }
    SignedText(number, buffer[current..]);
    text := CString(buffer[current..]);
  }

  lemma DigitsBehind(all: string, digits: string)
    requires all != [] && all[..|all| - 1] == digits && all[|all| - 1] == '\0'
    ensures all == digits + ['\0']
  {
  }

  lemma SignedText(number: int, all: string)
    requires number >= 0 ==> all == Digits(number) + ['\0']
    requires number < 0 ==> all == ['-'] + (Digits(-number) + ['\0'])
    ensures CString(all) == IntText(number)
  {
    hide Digits, CString;
    assert all == IntText(number) + ['\0'] + [];
    TextInBuffer(IntText(number), []);
  }

  method UnsignedToString(number: int) returns (text: string)
    requires 0 <= number <= MaxLargestUInt
    ensures text == IntText(number)
  {
    var buffer := new char[UIntBufferSize];
    var current := UintToString(number, buffer, UIntBufferSize);
    assert buffer[current..] == IntText(number) + ['\0'] + [];
    TextInBuffer(IntText(number), []);
    text := CString(buffer[current..]);
  }

  // ------------------------------------------------------------------- strings

  method ContainsControlCharacter(str: string) returns (found: bool)
    ensures found <==> exists k :: 0 <= k < |str| && IsControl(str[k])
  {
    for i := 0 to |str|
      invariant forall k :: 0 <= k < i ==> !IsControl(str[k])
    {
      if IsControl(str[i]) {
        return true;
      }
    }
    return false;
  }

  method ContainsShortEscape(str: string) returns (found: bool)
    ensures found <==> exists k :: 0 <= k < |str| && HasShortEscape(str[k])
  {
    for i := 0 to |str|
      invariant forall k :: 0 <= k < i ==> !HasShortEscape(str[k])
    {
      if HasShortEscape(str[i]) {
        return true;
      }
    }
    return false;
  }

  /** Both the copying path and the escaping path give the quoted form. */
  method ValueToQuotedString(value: string) returns (result: string)
    ensures result == Quoted(CString(value))
  {
    hide EscapeChar, Escaped;
    var str := CString(value);
    var special := ContainsShortEscape(str);
    var control := ContainsControlCharacter(str);
    if !special && !control {
      EscapedPlain(str);
      return "\"" + str + "\"";
    }
    result := "\"";
    assert str[..0] == [];
    EscapedNothing();
    for i := 0 to |str|
      invariant result == "\"" + Escaped(str[..i])
    {
      assert str[..i + 1] == str[..i] + [str[i]];
      EscapedAppend(str[..i], [str[i]]);
      EscapedOne(str[i]);
      result := result + EscapeChar(str[i]);
    }
    assert str[..|str|] == str;
    result := result + "\"";
  }

  lemma EscapedOne(c: char)
    ensures Escaped([c]) == EscapeChar(c)
  {
  }

  // ---------------------------------------------------------------- FastWriter

  /** The compact printer, with YAML compatibility or without. */
  class FastWriter {
    var document: string
    const yaml: bool

    constructor (yaml: bool)
      ensures this.yaml == yaml
    {
      this.yaml := yaml;
      document := "";
    }

    method Write(root: Value) returns (text: string)
      requires WellFormed(root)
      modifies this
      ensures text == document == Compact(root, yaml) + "\n"
      ensures Laid(text, 0, Tokens(root))
      ensures !yaml ==> text == Concat(Tokens(root)) + "\n"
    {
      hide Laid, Compact, Tokens, Concat;
      document := "";
      WriteValue(root);
      CompactDocument(root, yaml);
      document := document + "\n";
      text := document;
    }

    method WriteValue(value: Value)
      requires WellFormed(value)
      modifies this
      ensures document == old(document) + Compact(value, yaml)
      decreases value, 1
    {
      hide Quoted, ItemTokens, MemberTokens, CompactItems, CompactMembers, IntText;
      OneToken(value);
      match value
      case Null => document := document + "null";
      case Int(i) =>
        var text := SignedToString(i);
        document := document + text;
      case UInt(u) =>
        var text := UnsignedToString(u);
        document := document + text;
      case Real(shown) => document := document + shown;
      case String(s) =>
        var text := ValueToQuotedString(s);
        document := document + text;
      case NullString => document := document + "";
      case Bool(b) => document := document + if b then "true" else "false";
      case Array(_) => WriteArray(value);
      case Object(_) => WriteObject(value);
    }

    method WriteArray(value: Value)
      requires value.Array? && WellFormed(value)
      modifies this
      ensures document == old(document) + Compact(value, yaml)
      decreases value, 0
    {
      hide Compact, CompactItems;
      var items := value.items;
      ghost var start := old(document);
      CompactWhole(start, value, yaml);
      document := document + "[";
      for index := 0 to |items|
        invariant document == start + "[" + CompactItems(items[..index], yaml)
      {
        CompactItem(start + "[", items, index, yaml);
        if index > 0 {
          document := document + ",";
        }
        WriteValue(items[index]);
      }
      assert items[..|items|] == items;
      document := document + "]";
    }

    method WriteObject(value: Value)
      requires value.Object? && WellFormed(value)
      modifies this
      ensures document == old(document) + Compact(value, yaml)
      decreases value, 0
    {
      hide Compact, CompactMembers, Quoted;
      var members := value.members;
      ghost var start := old(document);
      CompactWhole(start, value, yaml);
      document := document + "{";
      for index := 0 to |members|
        invariant document == start + "{" + CompactMembers(members[..index], yaml)
      {
        CompactMember(start + "{", members, index, yaml);
        if index > 0 {
          document := document + ",";
        }
        var name := ValueToQuotedString(members[index].name);
        document := document + name;
        document := document + if yaml then ": " else ":";
        WriteValue(members[index].value);
      }
      assert members[..|members|] == members;
      document := document + "}";
    }
  }

  lemma CompactWhole(start: string, v: Value, yaml: bool)
    ensures v.Array? ==>
      start + Compact(v, yaml) == start + "[" + CompactItems(v.items, yaml) + "]"
          && CompactItems(v.items[..0], yaml) == ""
    ensures v.Object? ==>
      && start + Compact(v, yaml) == start + "{" + CompactMembers(v.members, yaml) + "}"
      && CompactMembers(v.members[..0], yaml) == ""
  {
    hide CompactItems, CompactMembers;
    if v.Array? {
      assert v.items[..0] == [];
      CompactNothing(yaml);
      Wrapped(start, "[", CompactItems(v.items, yaml), "]");
    } else if v.Object? {
      assert v.members[..0] == [];
      CompactNothing(yaml);
      Wrapped(start, "{", CompactMembers(v.members, yaml), "}");
    }
  }

  lemma CompactNothing(yaml: bool)
    ensures CompactItems([], yaml) == "" && CompactMembers([], yaml) == ""
  {
  }

  lemma CompactItem(start: string, items: seq<Value>, k: nat, yaml: bool)
    requires k < |items|
    ensures start + CompactItems(items[..k + 1], yaml)
         == start + CompactItems(items[..k], yaml) + Comma(k) + Compact(items[k], yaml)
    ensures k == 0 ==> start + CompactItems(items[..k], yaml) + Comma(k) == start + CompactItems(items[..k], yaml)
  {
    assert items[..k + 1][..k] == items[..k];
    Wrapped(start, CompactItems(items[..k], yaml), Comma(k), Compact(items[k], yaml));
  }

  lemma CompactMember(start: string, members: seq<Member>, k: nat, yaml: bool)
    requires k < |members|
    ensures
      var front := start + CompactMembers(members[..k], yaml);
      && start + CompactMembers(members[..k + 1], yaml)
         == front + Comma(k) + Quoted(CString(members[k].name)) + Colon(yaml) + Compact(members[k].value, yaml)
      && (k == 0 ==> front + Comma(k) == front)
  {
    hide Quoted;
    var m := members[k];
    var front := start + CompactMembers(members[..k], yaml);
    var name := Quoted(CString(m.name));
    assert members[..k + 1][..k] == members[..k];
    Wrapped(start, CompactMembers(members[..k], yaml), Comma(k), name + Colon(yaml) + Compact(m.value, yaml));
    Wrapped(front + Comma(k), name, Colon(yaml), Compact(m.value, yaml));
  }

  lemma CompactDocument(v: Value, yaml: bool)
    ensures Laid(Compact(v, yaml) + "\n", 0, Tokens(v))
    ensures !yaml ==> Compact(v, yaml) == Concat(Tokens(v))
  {
    hide Compact, Tokens, Concat;
    assert Laid("", 0, []);
    CompactLaid("", [], v, yaml);
    assert "" + Compact(v, yaml) == Compact(v, yaml) && [] + Tokens(v) == Tokens(v);
    LaidMore(Compact(v, yaml), 0, Tokens(v), "\n");
    CompactIs(v);
  }
}
