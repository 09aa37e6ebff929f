/** The two texts of a tree, by recursion over it: on one line, and on indented lines. */
module JsonLayout {
  import opened JsonValue
  import opened JsonText

  // -------------------------------------------------------------- the compact text

  /** Everything on one line; with YAML compatibility a space behind the colon of each name. */
  function Compact(v: Value, yaml: bool): string
    decreases v
  {
    match v
    case Array(items) => "[" + CompactItems(items, yaml) + "]"
    case Object(members) => "{" + CompactMembers(members, yaml) + "}"
    case _ => Concat(Tokens(v))
  }

  function CompactItems(items: seq<Value>, yaml: bool): string
    decreases items
  {
    if items == [] then ""
    else
      var k := |items| - 1;
      CompactItems(items[..k], yaml) + Comma(k) + Compact(items[k], yaml)
  }

  function CompactMembers(members: seq<Member>, yaml: bool): string
    decreases members
  {
    if members == [] then ""
    else
      var k := |members| - 1;
      CompactMembers(members[..k], yaml) + Comma(k)
      + (Quoted(CString(members[k].name)) + Colon(yaml) + Compact(members[k].value, yaml))
  }

  /** What stands before entry k. */
  function Comma(k: nat): string { if k > 0 then "," else "" }

  function Colon(yaml: bool): string { if yaml then ": " else ":" }

  // -------------------------------------------------------------- the indented text

  function Spaces(n: nat): string { seq(n, i => ' ') }

  /** A new line at a depth. */
  function NewLine(depth: nat): string { "\n" + Spaces(3 * depth) }

  /** What a child needs to be to fit on one line with its siblings. */
  predicate Flat(v: Value) {
    !(v.Array? && v.items != []) && !(v.Object? && v.members != [])
  }

  /** The texts of flat items, separated by commas. */
  function Joined(items: seq<Value>): string {
    if items == [] then ""
    else
      var k := |items| - 1;
      Joined(items[..k]) + (if k > 0 then ", " else "") + Concat(Tokens(items[k]))
  }

  /** An array is shown on one line when it has fewer than 25 items, all of them flat, and the line
      is shorter than 74 characters. */
  predicate FitsLine(items: seq<Value>) {
    3 * |items| < 74 && (forall k :: 0 <= k < |items| ==> Flat(items[k])) && |"[ " + Joined(items) + " ]"| < 74
  }

  /** The indented text of a tree at a depth. */
  function Styled(v: Value, depth: nat): string
    decreases v
  {
    match v
    case Array(items) =>
      if items == [] then "[]"
      else if FitsLine(items) then "[ " + Joined(items) + " ]"
      else
        var lines := "[" + ItemLines(items, depth + 1);
        lines + Break(lines, depth) + "]"
    case Object(members) =>
      if members == [] then "{}"
      else
        var lines := "{" + MemberLines(members, depth + 1);
        lines + Break(lines, depth) + "}"
    case _ => Concat(Tokens(v))
  }

  /** Each item on a line of its own. */
  function ItemLines(items: seq<Value>, depth: nat): string
    decreases items
  {
    if items == [] then ""
    else
      var k := |items| - 1;
      ItemLines(items[..k], depth) + Comma(k) + NewLine(depth) + Styled(items[k], depth)
  }

  /** Each member on a line of its own. */
  function MemberLines(members: seq<Member>, depth: nat): string
    decreases members
  {
    if members == [] then ""
    else
      var k := |members| - 1;
      MemberLines(members[..k], depth) + Comma(k) + NewLine(depth)
      + (Quoted(CString(members[k].name)) + " : " + Styled(members[k].value, depth))
  }

  /** Before a closing bracket: a new line, less what the text already ends with. */
  function Break(text: string, depth: nat): string
    requires text != ""
  {
    var last := text[|text| - 1];
    if last == ' ' then "" else if last == '\n' then Spaces(3 * depth) else NewLine(depth)
  }

  /** A text that ends in no white space. */
  predicate EndsShown(text: string) {
    text != "" && text[|text| - 1] != ' ' && text[|text| - 1] != '\n'
  }

  /** Every value but a null string ends in a visible character, if its reals do. */
  lemma StyledEnds(v: Value, depth: nat)
    requires !v.NullString? && (v.Real? ==> EndsShown(v.shown))
    ensures EndsShown(Styled(v, depth))
  {
    hide ItemLines, MemberLines, Joined, FitsLine, Break, ItemTokens, MemberTokens;
    if v.Int? || v.UInt? {
      DigitsEnd(if v.Int? then (if v.i < 0 then -v.i else v.i) else if v.u < 0 then -v.u else v.u);
    }
    if !v.Array? && !v.Object? {
      assert Concat(Tokens(v)) == Tokens(v)[0];
    }
  }

  lemma DigitsEnd(n: nat)
    ensures EndsShown(Digits(n)) && EndsShown("-" + Digits(n))
  {
  }

  /** So a closing bracket stands on a line of its own at the depth of the opening one, unless the
      last entry is a null string. */
  lemma BracketsOnLines(v: Value, depth: nat)
    requires (v.Array? && v.items != [] && !FitsLine(v.items)) || (v.Object? && v.members != [])
    requires
      var last := if v.Array? then v.items[|v.items| - 1] else v.members[|v.members| - 1].value;
      !last.NullString? && (last.Real? ==> EndsShown(last.shown))
    ensures v.Array? ==> Styled(v, depth) == "[" + ItemLines(v.items, depth + 1) + NewLine(depth) + "]"
    ensures v.Object? ==> Styled(v, depth) == "{" + MemberLines(v.members, depth + 1) + NewLine(depth) + "}"
  {
    hide NewLine, Quoted, FitsLine, EndsShown;
    if v.Array? {
      var items := v.items;
      var k := |items| - 1;
      StyledEnds(items[k], depth + 1);
      EndBreaks("[" + (ItemLines(items[..k], depth + 1) + Comma(k) + NewLine(depth + 1)), Styled(items[k], depth + 1),
          depth);
      Regroup("[", ItemLines(items[..k], depth + 1) + Comma(k) + NewLine(depth + 1), Styled(items[k], depth + 1));
    } else {
      var members := v.members;
      var k := |members| - 1;
      var m := members[k];
      var front, name := MemberLines(members[..k], depth + 1) + Comma(k) + NewLine(depth + 1),
          Quoted(CString(m.name)) + " : ";
      StyledEnds(m.value, depth + 1);
      EndBreaks("{" + (front + name), Styled(m.value, depth + 1), depth);
      Regroup("{", front + name, Styled(m.value, depth + 1));
      Regroup(front, name, Styled(m.value, depth + 1));
    }
  }

  lemma EndBreaks(front: string, last: string, depth: nat)
    requires EndsShown(last)
    ensures front + last != "" && Break(front + last, depth) == NewLine(depth)
  {
    hide NewLine;
  }

  /** A flat value is one piece of text. */
  lemma FlatStyled(v: Value, depth: nat)
    requires Flat(v)
    ensures Styled(v, depth) == Concat(Tokens(v))
  {
    OneToken(v);
  }

  lemma OneToken(v: Value)
    ensures v == Array([]) ==> Concat(Tokens(v)) == "[]"
    ensures v == Object([]) ==> Concat(Tokens(v)) == "{}"
    ensures !v.Array? && !v.Object? ==> Tokens(v) == [Tokens(v)[0]] && Concat(Tokens(v)) == Tokens(v)[0]
  {
    if v == Array([]) {
      assert Tokens(v) == ["["] + ["]"];
      ConcatAppend(["["], ["]"]);
    } else if v == Object([]) {
      assert Tokens(v) == ["{"] + ["}"];
      ConcatAppend(["{"], ["}"]);
    }
  }

  // ------------------------------------------------- both are layouts of the lexemes

  // Appending white space, a token, and white space again.
  lemma LaidToken(doc: string, done: seq<string>, before: string, token: string, after: string)
    requires Laid(doc, 0, done) && AllSpace(before) && AllSpace(after)
    ensures Laid(doc + (before + token + after), 0, done + [token])
  {
    hide Laid;
    LaidMore(doc, 0, done, before);
    LaidMore(doc + before, 0, done, token);
    LaidMore(doc + before + token, 0, done + [token], after);
    assert doc + before + token + after == doc + (before + token + after);
  }

  lemma LaidComma(doc: string, done: seq<string>, k: nat)
    requires Laid(doc, 0, done)
    ensures Laid(doc + Comma(k), 0, done + Separator(k == 0))
  {
    hide Laid;
    LaidMore(doc, 0, done, ",");
    assert doc + "" == doc && done + [] == done;
  }

  lemma SpacesShown(n: nat)
    ensures AllSpace(Spaces(n)) && AllSpace(NewLine(n))
  {
    var spaces, line := Spaces(n), NewLine(n);
    forall k | 0 <= k < |spaces| ensures IsSpace(spaces[k]) {
      assert spaces[k] == ' ';
    }
    forall k | 0 <= k < |line| ensures IsSpace(line[k]) {
      assert k > 0 ==> line[k] == Spaces(3 * n)[k - 1] == ' ';
    }
  }

  /** The compact text shows the tokens of the tree and nothing else but white space, and without
      YAML compatibility not even that. */
  lemma {:induction false} CompactLaid(doc: string, done: seq<string>, v: Value, yaml: bool)
    requires Laid(doc, 0, done)
    ensures Laid(doc + Compact(v, yaml), 0, done + Tokens(v))
    decreases v, 1
  {
    hide Laid, CompactItems, CompactMembers, ItemTokens, MemberTokens;
    match v
    case Array(items) =>
      LaidMore(doc, 0, done, "[");
      CompactItemsLaid(doc + "[", done + ["["], items, yaml);
      LaidMore(doc + "[" + CompactItems(items, yaml), 0, done + ["["] + ItemTokens(items, true), "]");
      Wrapped(doc, "[", CompactItems(items, yaml), "]");
      ArrayShown(done, items);
    case Object(members) =>
      LaidMore(doc, 0, done, "{");
      CompactMembersLaid(doc + "{", done + ["{"], members, yaml);
      LaidMore(doc + "{" + CompactMembers(members, yaml), 0, done + ["{"] + MemberTokens(members, true), "}");
      Wrapped(doc, "{", CompactMembers(members, yaml), "}");
      ObjectShown(done, members);
    case _ => LaidText(doc, done, Tokens(v));
  }

  lemma Wrapped(doc: string, open: string, inner: string, close: string)
    ensures doc + open + inner + close == doc + (open + inner + close)
    ensures "" + open + "" == open && "" + close + "" == close
  {
  }

  lemma {:induction false} CompactItemsLaid(doc: string, done: seq<string>, items: seq<Value>, yaml: bool)
    requires Laid(doc, 0, done)
    ensures Laid(doc + CompactItems(items, yaml), 0, done + ItemTokens(items, true))
    decreases items, 0
  {
    hide Laid, Compact, Tokens, ItemTokens;
    if items == [] {
      NoItems(items, done);
      assert items[..0] == items && doc + "" == doc;
    } else {
      var k := |items| - 1;
      var front, shown := CompactItems(items[..k], yaml), done + ItemTokens(items[..k], true);
      CompactItemsLaid(doc, done, items[..k], yaml);
      LaidComma(doc + front, shown, k);
      CompactLaid(doc + front + Comma(k), shown + Separator(k == 0), items[k], yaml);
      ItemShown(items, k, done);
      assert items[..k + 1] == items;
      Wrapped(doc, front, Comma(k), Compact(items[k], yaml));
    }
  }

  lemma {:induction false} CompactMembersLaid(doc: string, done: seq<string>, members: seq<Member>, yaml: bool)
    requires Laid(doc, 0, done)
    ensures Laid(doc + CompactMembers(members, yaml), 0, done + MemberTokens(members, true))
    decreases members, 0
  {
    hide Laid, Compact, Tokens, MemberTokens, NameTokens, Quoted;
    if members == [] {
      NoMembers(members, done);
      assert members[..0] == members && doc + "" == doc;
    } else {
      var k := |members| - 1;
      var m := members[k];
      var front, shown := CompactMembers(members[..k], yaml), done + MemberTokens(members[..k], true);
      var name := Quoted(CString(m.name)) + Colon(yaml);
      CompactMembersLaid(doc, done, members[..k], yaml);
      LaidComma(doc + front, shown, k);
      LaidName(doc + front + Comma(k), shown + Separator(k == 0), m.name, Colon(yaml), "", if yaml then " " else "");
      CompactLaid(doc + front + Comma(k) + name, shown + Separator(k == 0) + NameTokens(m.name), m.value, yaml);
      MemberShown(members, k, done);
      assert members[..k + 1] == members;
      Wrapped(doc, front, Comma(k), name + Compact(m.value, yaml));
      Regroup(doc + front + Comma(k), name, Compact(m.value, yaml));
    }
  }

  // A name and its colon.
  lemma LaidName(doc: string, done: seq<string>, name: string, colon: string, before: string, after: string)
    requires Laid(doc, 0, done) && AllSpace(before) && AllSpace(after) && colon == before + ":" + after
    ensures Laid(doc + (Quoted(CString(name)) + colon), 0, done + NameTokens(name))
  {
    hide Laid, Quoted;
    var quoted := Quoted(CString(name));
    LaidMore(doc, 0, done, quoted);
    LaidToken(doc + quoted, done + [quoted], before, ":", after);
    assert done + [quoted] + [":"] == done + NameTokens(name);
    assert doc + quoted + colon == doc + (quoted + colon);
  }

  lemma {:induction false} CompactIs(v: Value)
    ensures Compact(v, false) == Concat(Tokens(v))
    decreases v, 1
  {
    hide CompactItems, CompactMembers, ItemTokens, MemberTokens, Concat;
    match v
    case Array(items) =>
      CompactItemsAre(items);
      ConcatAppend(["["] + ItemTokens(items, true), ["]"]);
      ConcatAppend(["["], ItemTokens(items, true));
      ConcatOne("[");
      ConcatOne("]");
    case Object(members) =>
      CompactMembersAre(members);
      ConcatAppend(["{"] + MemberTokens(members, true), ["}"]);
      ConcatAppend(["{"], MemberTokens(members, true));
      ConcatOne("{");
      ConcatOne("}");
    case _ =>
  }

  lemma ConcatOne(token: string)
    ensures Concat([token]) == token && Concat([]) == ""
  {
  }

  lemma ConcatComma(k: nat)
    ensures Concat(Separator(k == 0)) == Comma(k)
  {
  }

  lemma {:induction false} CompactItemsAre(items: seq<Value>)
    ensures CompactItems(items, false) == Concat(ItemTokens(items, true))
    decreases items, 0
  {
    hide Compact, Tokens, ItemTokens, Concat;
    if items == [] {
      NoItems(items, []);
      assert items[..0] == items && [] + ItemTokens(items, true) == ItemTokens(items, true);
      ConcatOne("");
    } else {
      var k := |items| - 1;
      var shown := ItemTokens(items[..k], true);
      CompactItemsAre(items[..k]);
      CompactIs(items[k]);
      ItemTokensLast(items[..k], true, items[k]);
      assert items[..k] + [items[k]] == items;
      ConcatAppend(shown, Separator(k == 0) + Tokens(items[k]));
      ConcatAppend(Separator(k == 0), Tokens(items[k]));
      ConcatComma(k);
      Regroup(Concat(shown), Comma(k), Concat(Tokens(items[k])));
    }
  }

  lemma {:induction false} CompactMembersAre(members: seq<Member>)
    ensures CompactMembers(members, false) == Concat(MemberTokens(members, true))
    decreases members, 0
  {
    hide Compact, Tokens, MemberTokens, NameTokens, Concat, Quoted;
    if members == [] {
      NoMembers(members, []);
      assert members[..0] == members && [] + MemberTokens(members, true) == MemberTokens(members, true);
      ConcatOne("");
    } else {
      var k := |members| - 1;
      var m := members[k];
      var shown, head := MemberTokens(members[..k], true), Separator(k == 0) + NameTokens(m.name);
      CompactMembersAre(members[..k]);
      CompactIs(m.value);
      MemberTokensLast(members[..k], true, m);
      assert members[..k] + [m] == members;
      ConcatAppend(shown, head + Tokens(m.value));
      ConcatAppend(head, Tokens(m.value));
      ConcatAppend(Separator(k == 0), NameTokens(m.name));
      ConcatComma(k);
      ConcatName(m.name);
      var name := Quoted(CString(m.name)) + Colon(false);
      Regroup(Concat(shown), Comma(k), name + Concat(Tokens(m.value)));
      Regroup(Comma(k), name, Concat(Tokens(m.value)));
    }
  }

  lemma ConcatName(name: string)
    ensures Concat(NameTokens(name)) == Quoted(CString(name)) + Colon(false)
  {
    hide Quoted;
    var quoted := Quoted(CString(name));
    assert NameTokens(name) == [quoted] + [":"];
    ConcatAppend([quoted], [":"]);
    ConcatOne(quoted);
    ConcatOne(":");
  }

  /** The indented text shows the tokens of the tree and nothing else but white space. */
  lemma {:induction false} StyledLaid(doc: string, done: seq<string>, v: Value, depth: nat)
    requires Laid(doc, 0, done)
    ensures Laid(doc + Styled(v, depth), 0, done + Tokens(v))
    decreases v, 1
  {
    hide Laid, ItemLines, MemberLines, ItemTokens, MemberTokens, Joined, FitsLine, Break, Concat, Tokens;
    if Flat(v) {
      FlatStyled(v, depth);
      LaidText(doc, done, Tokens(v));
    } else if v.Object? {
      var members := v.members;
      LaidMore(doc, 0, done, "{");
      MemberLinesLaid(doc + "{", done + ["{"], members, depth + 1);
      var lines := "{" + MemberLines(members, depth + 1);
      Regroup(doc, "{", MemberLines(members, depth + 1));
      Closed(doc, lines, done + ["{"] + MemberTokens(members, true), depth, "}");
      ObjectShown(done, members);
    } else if FitsLine(v.items) {
      var items := v.items;
      LaidToken(doc, done, "", "[", " ");
      assert "" + "[" + " " == "[ " && " " + "]" + "" == " ]";
      JoinedLaid(doc + "[ ", done + ["["], items);
      LaidToken(doc + "[ " + Joined(items), done + ["["] + ItemTokens(items, true), " ", "]", "");
      Wrapped(doc, "[ ", Joined(items), " ]");
      ArrayShown(done, items);
    } else {
      var items := v.items;
      LaidMore(doc, 0, done, "[");
      ItemLinesLaid(doc + "[", done + ["["], items, depth + 1);
      var lines := "[" + ItemLines(items, depth + 1);
      Regroup(doc, "[", ItemLines(items, depth + 1));
      Closed(doc, lines, done + ["["] + ItemTokens(items, true), depth, "]");
      ArrayShown(done, items);
    }
  }

  lemma Closed(doc: string, lines: string, done: seq<string>, depth: nat, close: string)
    requires lines != "" && Laid(doc + lines, 0, done)
    ensures Laid(doc + (lines + Break(lines, depth) + close), 0, done + [close])
  {
    hide Laid;
    SpacesShown(depth);
    SpacesShown(3 * depth);
    LaidToken(doc + lines, done, Break(lines, depth), close, "");
    assert doc + lines + (Break(lines, depth) + close + "") == doc + (lines + Break(lines, depth) + close);
  }

  lemma {:induction false} JoinedLaid(doc: string, done: seq<string>, items: seq<Value>)
    requires Laid(doc, 0, done)
    ensures Laid(doc + Joined(items), 0, done + ItemTokens(items, true))
  {
    hide Laid, Tokens, ItemTokens, Concat;
    if items == [] {
      NoItems(items, done);
      assert items[..0] == items && doc + "" == doc;
    } else {
      var k := |items| - 1;
      var front, shown := Joined(items[..k]), done + ItemTokens(items[..k], true);
      var comma := if k > 0 then ", " else "";
      JoinedLaid(doc, done, items[..k]);
      LaidToken(doc + front, shown, "", ",", " ");
      assert doc + front + "" == doc + front && shown + [] == shown && "" + "," + " " == ", ";
      assert Laid(doc + front + comma, 0, shown + Separator(k == 0));
      LaidText(doc + front + comma, shown + Separator(k == 0), Tokens(items[k]));
      ItemShown(items, k, done);
      assert items[..k + 1] == items;
      Wrapped(doc, front, comma, Concat(Tokens(items[k])));
    }
  }

  lemma {:induction false} ItemLinesLaid(doc: string, done: seq<string>, items: seq<Value>, depth: nat)
    requires Laid(doc, 0, done)
    ensures Laid(doc + ItemLines(items, depth), 0, done + ItemTokens(items, true))
    decreases items, 0
  {
    hide Laid, Styled, Tokens, ItemTokens, NewLine;
    if items == [] {
      NoItems(items, done);
      assert items[..0] == items && doc + "" == doc;
    } else {
      var k := |items| - 1;
      var front, shown := ItemLines(items[..k], depth), done + ItemTokens(items[..k], true);
      ItemLinesLaid(doc, done, items[..k], depth);
      LaidComma(doc + front, shown, k);
      SpacesShown(depth);
      LaidMore(doc + front + Comma(k), 0, shown + Separator(k == 0), NewLine(depth));
      StyledLaid(doc + front + Comma(k) + NewLine(depth), shown + Separator(k == 0), items[k], depth);
      ItemShown(items, k, done);
      assert items[..k + 1] == items;
      Lined(doc, front, Comma(k), NewLine(depth), Styled(items[k], depth));
    }
  }

  lemma Lined(doc: string, front: string, comma: string, line: string, last: string)
    ensures doc + front + comma + line + last == doc + (front + comma + line + last)
  {
  }

  lemma {:induction false} MemberLinesLaid(doc: string, done: seq<string>, members: seq<Member>, depth: nat)
    requires Laid(doc, 0, done)
    ensures Laid(doc + MemberLines(members, depth), 0, done + MemberTokens(members, true))
    decreases members, 0
  {
    hide Laid, Styled, Tokens, MemberTokens, NameTokens, Quoted, NewLine;
    if members == [] {
      NoMembers(members, done);
      assert members[..0] == members && doc + "" == doc;
    } else {
      var k := |members| - 1;
      var m := members[k];
      var front, shown := MemberLines(members[..k], depth), done + MemberTokens(members[..k], true);
      var name, text := Quoted(CString(m.name)) + " : ", Styled(m.value, depth);
      MemberLinesLaid(doc, done, members[..k], depth);
      LaidComma(doc + front, shown, k);
      SpacesShown(depth);
      LaidMore(doc + front + Comma(k), 0, shown + Separator(k == 0), NewLine(depth));
      var line := doc + front + Comma(k) + NewLine(depth);
      LaidName(line, shown + Separator(k == 0), m.name, " : ", " ", " ");
      StyledLaid(line + name, shown + Separator(k == 0) + NameTokens(m.name), m.value, depth);
      MemberShown(members, k, done);
      assert members[..k + 1] == members;
      Regroup(line, name, text);
      Lined(doc, front, Comma(k), NewLine(depth), name + text);
    }
  }

  // --------------------------------------- token lists as the printers build them

  lemma NoItems(items: seq<Value>, out: seq<string>)
    ensures out + ItemTokens(items[..0], true) == out
  {
  }

  lemma NoMembers(members: seq<Member>, out: seq<string>)
    ensures out + MemberTokens(members[..0], true) == out
  {
  }

  lemma ItemShown(items: seq<Value>, index: nat, out: seq<string>)
    requires index < |items|
    ensures var shown := out + ItemTokens(items[..index], true);
      && shown + Separator(index == 0) == (if index > 0 then shown + [","] else shown)
      && shown + Separator(index == 0) + Tokens(items[index]) == out + ItemTokens(items[..index + 1], true)
  {
    hide ItemTokens, Tokens;
    var listed, last := ItemTokens(items[..index], true), Tokens(items[index]);
    assert items[..index + 1] == items[..index] + [items[index]];
    ItemTokensLast(items[..index], true, items[index]);
    Regroup(out, listed, Separator(index == 0) + last);
    Regroup(out + listed, Separator(index == 0), last);
  }

  lemma MemberShown(members: seq<Member>, index: nat, out: seq<string>)
    requires index < |members|
    ensures var shown := out + MemberTokens(members[..index], true);
      && shown + Separator(index == 0) == (if index > 0 then shown + [","] else shown)
      && shown + Separator(index == 0) + NameTokens(members[index].name) + Tokens(members[index].value)
         == out + MemberTokens(members[..index + 1], true)
  {
    hide MemberTokens, NameTokens, Tokens;
    var listed, sep, m := MemberTokens(members[..index], true), Separator(index == 0), members[index];
    assert members[..index + 1] == members[..index] + [m];
    MemberTokensLast(members[..index], true, m);
    Regroup(out, listed, sep + NameTokens(m.name) + Tokens(m.value));
    Regroup(out + listed, sep, NameTokens(m.name));
    Regroup(out + listed, sep + NameTokens(m.name), Tokens(m.value));
  }

  lemma ArrayShown(done: seq<string>, items: seq<Value>)
    ensures done + ["["] + ItemTokens(items, true) + ["]"] == done + Tokens(Array(items))
  {
    hide ItemTokens;
  }

  lemma ObjectShown(done: seq<string>, members: seq<Member>)
    ensures done + ["{"] + MemberTokens(members, true) + ["}"] == done + Tokens(Object(members))
  {
    hide MemberTokens;
  }
}
