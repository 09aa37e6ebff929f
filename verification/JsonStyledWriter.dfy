/** The indenting printer of src/jsoncpp/json_writer.cpp, on values without comments. */
module JsonStyledWriter {
  import opened JsonValue
  import opened JsonText
  import opened JsonLayout
  import opened JsonWriter

  /** The texts of flat items, each on its own. */
  ghost predicate TextsOf(texts: seq<string>, items: seq<Value>) {
    && |texts| == |items|
    && forall k :: 0 <= k < |items| ==> Flat(items[k]) && texts[k] == Concat(Tokens(items[k]))
  }

  const IndentSize: nat := 3
  const RightMargin: int := 74

  class StyledWriter {
    var document: string
    var indentString: string
    var addChildValues: bool
    var childValues: seq<string>

    constructor ()
      ensures !addChildValues
    {
      document, indentString, addChildValues, childValues := "", "", false, [];
    }

    /** The next bracket goes where the document ends. */
    ghost predicate Ready()
      reads this
    {
      if document == "" then indentString == "" else document[|document| - 1] == ' '
    }

    /** The text is the indented text of the tree, and so shows its lexemes. */
    method Write(root: Value) returns (text: string)
      requires WellFormed(root)
      modifies this
      ensures text == document == Styled(root, 0) + "\n" && !addChildValues
      ensures Laid(text, 0, Tokens(root))
    {
      hide Laid, Styled, Tokens;
      document, addChildValues, indentString := "", false, "";
      assert Spaces(0) == "";
      WriteValue(root, 0);
      StyledDocument(root);
      document := document + "\n";
      text := document;
    }

    /** In the collecting mode the text of a flat value goes to the list of children; otherwise the
        document gets the indented text of the value. */
    method WriteValue(value: Value, ghost depth: nat)
      requires WellFormed(value)
      requires addChildValues ==> Flat(value)
      requires !addChildValues ==> indentString == Spaces(3 * depth) && (Ready() || Flat(value))
      modifies this
      ensures addChildValues == old(addChildValues) && indentString == old(indentString)
      ensures addChildValues ==>
          document == old(document) && childValues == old(childValues) + [Concat(Tokens(value))]
      ensures !addChildValues ==> document == old(document) + Styled(value, depth)
      decreases value, 2
    {
      hide Styled, Concat;
      if Flat(value) { FlatStyled(value, depth); }
      OneToken(value);
      match value
      case Null => PushValue("null");
      case Int(i) =>
        var text := SignedToString(i);
        PushValue(text);
      case UInt(u) =>
        var text := UnsignedToString(u);
        PushValue(text);
      case Real(shown) => PushValue(shown);
      case String(s) =>
        var text := ValueToQuotedString(s);
        PushValue(text);
      case NullString => PushValue("");
      case Bool(b) => PushValue(if b then "true" else "false");
      case Array(_) => WriteArrayValue(value, depth);
      case Object(members) =>
        if |members| == 0 {
          PushValue("{}");
        } else {
          WriteObjectValue(value, depth);
        }
    }

    method WriteObjectValue(value: Value, ghost depth: nat)
      requires value.Object? && value.members != [] && WellFormed(value)
      requires !addChildValues && indentString == Spaces(3 * depth) && Ready()
      modifies this
      ensures !addChildValues && indentString == old(indentString)
      ensures document == old(document) + Styled(value, depth)
      decreases value, 1
    {
      hide MemberLines, Styled, Spaces, NewLine, Break, Quoted, Indented, Concat, Tokens;
      var members := value.members;
      ghost var front := old(document) + "{";
      InPlace(document, indentString);
      WriteWithIndent("{");
      Indent();
      Deeper(depth);
      NoLines(front, depth + 1);
      assert members[..0] == [];
      var index := 0;
      while true
        invariant 0 <= index < |members|
        invariant !addChildValues && indentString == Spaces(3 * (depth + 1))
        invariant document == front + MemberLines(members[..index], depth + 1) + Comma(index)
        invariant index == 0 ==> MemberLines(members[..index], depth + 1) == ""
        decreases |members| - index
      {
        var member := members[index];
        LineDue(front, MemberLines(members[..index], depth + 1), index, depth + 1);
        MemberLine(front, members, index, depth + 1);
        WriteMember(member, depth + 1);
        index := index + 1;
        if index == |members| {
          break;
        }
        document := document + ",";
      }
      assert members[..|members|] == members;
      ObjectLines(old(document), members, depth);
      Unindent();
      WriteWithIndent("}");
    }

    /** A member on its line. */
    method WriteMember(member: Member, ghost depth: nat)
      requires WellFormed(member.value) && !addChildValues && indentString == Spaces(3 * depth)
      requires Indented(document, indentString) == document + NewLine(depth)
      modifies this
      ensures !addChildValues && indentString == old(indentString)
      ensures document
           == old(document) + NewLine(depth) + Quoted(CString(member.name)) + " : " + Styled(member.value, depth)
      decreases member.value, 3
    {
      hide Styled, Quoted, Indented, NewLine;
      var name := ValueToQuotedString(member.name);
      WriteWithIndent(name);
      document := document + " : ";
      WriteValue(member.value, depth);
    }

    method WriteArrayValue(value: Value, ghost depth: nat)
      requires value.Array? && WellFormed(value)
      requires addChildValues ==> Flat(value)
      requires !addChildValues ==> indentString == Spaces(3 * depth) && (Ready() || Flat(value))
      modifies this
      ensures addChildValues == old(addChildValues) && indentString == old(indentString)
      ensures addChildValues ==>
          document == old(document) && childValues == old(childValues) + [Concat(Tokens(value))]
      ensures !addChildValues ==> document == old(document) + Styled(value, depth)
      decreases value, 1
    {
      hide Styled, Concat, FitsLine;
      var items := value.items;
      if |items| == 0 {
        OneToken(value);
        FlatStyled(value, depth);
        PushValue("[]");
      } else {
        var isArrayMultiLine := IsMultilineArray(value, depth);
        if isArrayMultiLine {
          WriteLines(value, depth);
        } else {
          WriteOneLine(value, depth);
        }
      }
    }

    method WriteLines(value: Value, ghost depth: nat)
      requires value.Array? && value.items != [] && WellFormed(value) && !FitsLine(value.items)
      requires !addChildValues && indentString == Spaces(3 * depth) && Ready()
      requires childValues == [] || TextsOf(childValues, value.items)
      modifies this
      ensures !addChildValues && indentString == old(indentString)
      ensures document == old(document) + Styled(value, depth)
      decreases value, 0
    {
      hide ItemLines, Styled, Spaces, NewLine, Break, FitsLine, Concat, Tokens, Indented;
      var items := value.items;
      ghost var front := old(document) + "[";
      InPlace(document, indentString);
      WriteWithIndent("[");
      Indent();
      Deeper(depth);
      NoLines(front, depth + 1);
      assert items[..0] == [];
      var hasChildValue := childValues != [];
      var index := 0;
      while true
        invariant 0 <= index < |items|
        invariant !addChildValues && indentString == Spaces(3 * (depth + 1))
        invariant hasChildValue ==> TextsOf(childValues, items)
        invariant document == front + ItemLines(items[..index], depth + 1) + Comma(index)
        invariant index == 0 ==> ItemLines(items[..index], depth + 1) == ""
        decreases |items| - index
      {
        LineDue(front, ItemLines(items[..index], depth + 1), index, depth + 1);
        ItemLine(front, items, index, depth + 1);
        WriteItem(items[index], if hasChildValue then childValues[index] else "", hasChildValue, depth + 1);
        index := index + 1;
        if index == |items| {
          break;
        }
        document := document + ",";
      }
      assert items[..|items|] == items;
      ArrayLines(old(document), items, depth);
      Unindent();
      WriteWithIndent("]");
    }

    /** An item on its line, from its collected text or by writing it. */
    method WriteItem(item: Value, text: string, collected: bool, ghost depth: nat)
      requires WellFormed(item) && !addChildValues && indentString == Spaces(3 * depth)
      requires collected ==> Flat(item) && text == Concat(Tokens(item))
      requires Indented(document, indentString) == document + NewLine(depth) && depth > 0
      modifies this
      ensures !addChildValues && indentString == old(indentString) && (collected ==> childValues == old(childValues))
      ensures document == old(document) + NewLine(depth) + Styled(item, depth)
      decreases item, 3
    {
      hide Styled, Concat, Tokens, Indented;
      SpacesEnd(3 * depth);
      if collected {
        FlatStyled(item, depth);
        WriteWithIndent(text);
      } else {
        WriteIndent();
        WriteValue(item, depth);
      }
    }

    method WriteOneLine(value: Value, ghost depth: nat)
      requires value.Array? && value.items != [] && WellFormed(value) && FitsLine(value.items)
      requires TextsOf(childValues, value.items)
      modifies this`document
      ensures document == old(document) + Styled(value, depth)
    {
      hide Joined, Concat, Tokens, Styled, FitsLine;
      var items := value.items;
      ghost var front := old(document) + "[ ";
      NothingJoined(front);
      assert items[..0] == [];
      document := document + "[ ";
      for index := 0 to |items|
        invariant document == front + Joined(items[..index])
      {
        JoinedItem(front, items, index);
        if index > 0 {
          document := document + ", ";
        }
        document := document + childValues[index];
      }
      assert items[..|items|] == items;
      OneLine(old(document), items, depth);
      document := document + " ]";
    }

    /** Either no child was collected, or all of them were; on one line they always are. */
    method IsMultilineArray(value: Value, ghost depth: nat) returns (isMultiLine: bool)
      requires value.Array? && value.items != [] && WellFormed(value)
      requires !addChildValues
      modifies this
      ensures !addChildValues && indentString == old(indentString) && document == old(document)
      ensures childValues == [] || TextsOf(childValues, value.items)
      ensures isMultiLine <==> !FitsLine(value.items)
      ensures !isMultiLine ==> TextsOf(childValues, value.items)
      decreases value, 0
    {
      hide Tokens, Concat, Joined, Styled;
      var items := value.items;
      var size := |items|;
      isMultiLine := size * 3 >= RightMargin;
      childValues := [];
      var index := 0;
      while index < size && !isMultiLine
        invariant 0 <= index <= size
        invariant !isMultiLine ==> size * 3 < RightMargin && forall k :: 0 <= k < index ==> Flat(items[k])
        invariant isMultiLine ==> !FitsLine(items)
      {
        isMultiLine := !Flat(items[index]);
        index := index + 1;
      }
      if !isMultiLine {
        addChildValues := true;
        var lineLength := 4 + (size - 1) * 2;
        assert items[..0] == [];
        NothingJoined("");
        for index := 0 to size
          invariant addChildValues
          invariant indentString == old(indentString) && document == old(document)
          invariant TextsOf(childValues, items[..index])
          invariant lineLength
                 == 4 + (size - 1) * 2 + |Joined(items[..index])| - (if index > 0 then 2 * (index - 1) else 0)
        {
          JoinedItem("", items, index);
          WriteValue(items[index], depth);
          lineLength := lineLength + |childValues[index]|;
        }
        assert items[..size] == items;
        addChildValues := false;
        isMultiLine := lineLength >= RightMargin;
      }
    }

    method PushValue(value: string)
      modifies this`document, this`childValues
      ensures addChildValues ==> document == old(document) && childValues == old(childValues) + [value]
      ensures !addChildValues ==> document == old(document) + value
    {
      if addChildValues {
        childValues := childValues + [value];
      } else {
        document := document + value;
      }
    }

    /** A new line at the current indentation, less what the document already ends with. */
    method WriteIndent()
      modifies this`document
      ensures document == Indented(old(document), indentString)
    {
      if document != "" {
        var last := document[|document| - 1];
        if last == ' ' {
          return;
        }
        if last != '\n' {
          document := document + "\n";
        }
      }
      document := document + indentString;
    }

    method WriteWithIndent(value: string)
      modifies this`document
      ensures document == Indented(old(document), indentString) + value
    {
      WriteIndent();
      document := document + value;
    }

    method Indent()
      modifies this`indentString
      ensures indentString == old(indentString) + "   "
    {
      indentString := indentString + "   ";
    }

    method Unindent()
      requires |indentString| >= IndentSize
      modifies this`indentString
      ensures indentString == old(indentString)[..|old(indentString)| - IndentSize]
    {
      indentString := indentString[..|indentString| - IndentSize];
    }
  }

  // ---------------------------------------------------------- the text as it grows

  function Indented(document: string, indent: string): string {
    if document == "" then indent
    else if document[|document| - 1] == ' ' then document
    else if document[|document| - 1] == '\n' then document + indent
    else document + "\n" + indent
  }

  // Where a bracket goes without a new line.
  lemma InPlace(document: string, indent: string)
    ensures (if document == "" then indent == "" else document[|document| - 1] == ' ') ==>
        Indented(document, indent) == document
  {
  }

  lemma Deeper(depth: nat)
    ensures Spaces(3 * depth) + "   " == Spaces(3 * (depth + 1))
    ensures |Spaces(3 * (depth + 1))| == 3 * depth + 3 && Spaces(3 * (depth + 1))[..3 * depth] == Spaces(3 * depth)
  {
  }

  lemma NoLines(front: string, depth: nat)
    ensures MemberLines([], depth) == ItemLines([], depth) == "" && front + "" + Comma(0) == front
  {
  }

  // Behind an opening bracket or a comma the next line is due.
  lemma LineDue(front: string, lines: string, index: nat, depth: nat)
    requires front != "" && (front[|front| - 1] == '{' || front[|front| - 1] == '[') && (index == 0 ==> lines == "")
    ensures var document := front + lines + Comma(index);
      Indented(document, Spaces(3 * depth)) == document + NewLine(depth)
    ensures depth > 0 ==> NewLine(depth)[|NewLine(depth)| - 1] == ' '
  {
    hide Spaces;
    var document := front + lines + Comma(index);
    if index == 0 {
      assert document == front;
    } else {
      assert document[|document| - 1] == ',';
    }
    assert document + "\n" + Spaces(3 * depth) == document + NewLine(depth);
    SpacesEnd(3 * depth);
  }

  lemma SpacesEnd(n: nat)
    ensures |Spaces(n)| == n && (n > 0 ==> Spaces(n)[n - 1] == ' ')
  {
  }

  lemma ItemLine(front: string, items: seq<Value>, k: nat, depth: nat)
    requires k < |items|
    ensures front + ItemLines(items[..k + 1], depth)
         == front + ItemLines(items[..k], depth) + Comma(k) + NewLine(depth) + Styled(items[k], depth)
  {
    hide Styled, NewLine;
    assert items[..k + 1][..k] == items[..k];
    Lined(front, ItemLines(items[..k], depth), Comma(k), NewLine(depth), Styled(items[k], depth));
  }

  lemma MemberLine(front: string, members: seq<Member>, k: nat, depth: nat)
    requires k < |members|
    ensures front + MemberLines(members[..k + 1], depth)
         == front + MemberLines(members[..k], depth) + Comma(k) + NewLine(depth) + Quoted(CString(members[k].name))
            + " : " + Styled(members[k].value, depth)
  {
    hide Styled, NewLine, Quoted;
    var m := members[k];
    var name, text := Quoted(CString(m.name)), Styled(m.value, depth);
    var line := front + MemberLines(members[..k], depth) + Comma(k) + NewLine(depth);
    assert members[..k + 1][..k] == members[..k];
    Lined(front, MemberLines(members[..k], depth), Comma(k), NewLine(depth), name + " : " + text);
    Wrapped(line, name, " : ", text);
  }

  // Before the closing bracket.
  lemma Closing(start: string, lines: string, depth: nat, close: string)
    requires lines != ""
    ensures Indented(start + lines, Spaces(3 * depth)) + close == start + (lines + Break(lines, depth) + close)
  {
    hide Spaces;
    var document := start + lines;
    assert document[|document| - 1] == lines[|lines| - 1];
    assert Indented(document, Spaces(3 * depth)) == document + Break(lines, depth);
    assert document + Break(lines, depth) + close == start + (lines + Break(lines, depth) + close);
  }

  lemma ObjectLines(start: string, members: seq<Member>, depth: nat)
    requires members != []
    ensures Indented(start + "{" + MemberLines(members, depth + 1), Spaces(3 * depth)) + "}"
         == start + Styled(Object(members), depth)
  {
    hide Spaces, MemberLines, Break, Indented;
    var lines := "{" + MemberLines(members, depth + 1);
    Closing(start, lines, depth, "}");
    Regroup(start, "{", MemberLines(members, depth + 1));
  }

  lemma ArrayLines(start: string, items: seq<Value>, depth: nat)
    requires items != [] && !FitsLine(items)
    ensures Indented(start + "[" + ItemLines(items, depth + 1), Spaces(3 * depth)) + "]"
         == start + Styled(Array(items), depth)
  {
    hide Spaces, ItemLines, Break, Indented, FitsLine;
    var lines := "[" + ItemLines(items, depth + 1);
    Closing(start, lines, depth, "]");
    Regroup(start, "[", ItemLines(items, depth + 1));
  }

  lemma OneLine(start: string, items: seq<Value>, depth: nat)
    requires items != [] && FitsLine(items)
    ensures start + "[ " + Joined(items) + " ]" == start + Styled(Array(items), depth)
  {
    hide Joined, FitsLine;
    Wrapped(start, "[ ", Joined(items), " ]");
  }

  lemma NothingJoined(front: string)
    ensures Joined([]) == "" && front + "" == front
  {
  }

  lemma JoinedItem(front: string, items: seq<Value>, k: nat)
    requires k < |items|
    ensures front + Joined(items[..k + 1])
         == front + Joined(items[..k]) + (if k > 0 then ", " else "") + Concat(Tokens(items[k]))
    ensures |Joined(items[..k + 1])| == |Joined(items[..k])| + (if k > 0 then 2 else 0) + |Concat(Tokens(items[k]))|
  {
    hide Concat, Tokens;
    assert items[..k + 1][..k] == items[..k];
    Wrapped(front, Joined(items[..k]), if k > 0 then ", " else "", Concat(Tokens(items[k])));
  }

  lemma StyledDocument(v: Value)
    ensures "" + Styled(v, 0) == Styled(v, 0) && Laid(Styled(v, 0) + "\n", 0, Tokens(v))
  {
    hide Styled, Tokens;
    assert Laid("", 0, []);
    StyledLaid("", [], v, 0);
    assert "" + Styled(v, 0) == Styled(v, 0) && [] + Tokens(v) == Tokens(v);
    LaidMore(Styled(v, 0), 0, Tokens(v), "\n");
  }
}
