/** What the recursive-descent reader of src/jsoncpp/json_reader.cpp makes of a document:
    its result, its errors and where it stops, at every position. */
module JsonParser {
  import opened JsonValue
  import opened JsonLexer
  import opened JsonStrings

  /** `behind` is the byte behind the document: a NUL when it is given as a string, any byte when it
      is given by two pointers. */
  datatype Config = Config(allowComments: bool, strictRoot: bool, scan: RealScanner, behind: char)

  datatype ErrorInfo = ErrorInfo(message: Message, token: Token)

  /** The verdict of a call, the value it leaves in its node, where it leaves the cursor, and
      the errors it adds. */
  datatype Parsed = Parsed(ok: bool, value: Value, end: nat, errors: seq<ErrorInfo>)

  function FirstToken(allowComments: bool, doc: string, pos: nat): (t: Token)
    requires pos <= |doc|
    ensures pos <= t.start <= t.end <= |doc|
    ensures t.start == t.end ==> t.kind.EndOfStream? && t.end == |doc|
    ensures t.kind.Number? ==> IsNumberText(doc[t.start..t.end])
    ensures t.kind.Str? ==> t.end - t.start >= 2
  {
    TokenShape(doc, pos);
    if allowComments then SkipComments(doc, pos) else ReadToken(doc, pos)
  }

  /** An error at a token, and the cursor behind the closing token that ends the recovery. */
  function Failure(doc: string, value: Value, message: Message, token: Token, closing: Kind): (r: Parsed)
    requires token.end <= |doc|
    ensures !r.ok && r.errors != [] && token.end <= r.end <= |doc|
  {
    Parsed(false, value, Recover(doc, token.end, closing), [ErrorInfo(message, token)])
  }

  /** A scalar decoded from a token; the node keeps its value when that fails. */
  function Scalar(d: Decoded<Value>, was: Value, token: Token): (r: Parsed)
    ensures r.ok <==> r.errors == []
    ensures r.end == token.end
  {
    match d
    case Good(v) => Parsed(true, v, token.end, [])
    case Bad(m) => Parsed(false, was, token.end, [ErrorInfo(m, token)])
  }

  function AsString(d: Decoded<string>): Decoded<Value> {
    match d
    case Good(s) => Good(String(CString(s)))
    case Bad(m) => Bad(m)
  }

  /** The value read at `pos` into a node that holds `was`. */
  function ReadValue(cfg: Config, doc: string, pos: nat, was: Value): (r: Parsed)
    requires pos <= |doc|
    ensures pos <= r.end <= |doc|
    ensures r.ok <==> r.errors == []
    decreases |doc| - pos, 0
  {
    var t := FirstToken(cfg.allowComments, doc, pos);
    match t.kind
    case ObjectBegin => ReadMembers(cfg, doc, t.end, [], true)
    case ArrayBegin =>
      var p := AfterSpaces(doc, t.end);
      if Peek(doc, cfg.behind, p) == ']' then Parsed(true, Array([]), ReadToken(doc, p).end, [])
      else ReadItems(cfg, doc, p, [])
    case Number => Scalar(DecodeNumber(cfg.scan, doc[t.start..t.end]), was, t)
    case Str => Scalar(AsString(DecodeString(doc, t)), was, t)
    case True => Parsed(true, Bool(true), t.end, [])
    case False => Parsed(true, Bool(false), t.end, [])
    case Null => Parsed(true, Value.Null, t.end, [])
    case _ => Parsed(false, was, t.end, [ErrorInfo(ValueExpected, t)])
  }

  /** The rest of an object that has these members so far; `unnamed` while the last name is empty. */
  function ReadMembers(cfg: Config, doc: string, pos: nat, members: seq<Member>, unnamed: bool): (r: Parsed)
    requires pos <= |doc|
    ensures pos <= r.end <= |doc|
    ensures r.ok <==> r.errors == []
    decreases |doc| - pos, 1
  {
    var t := SkipComments(doc, pos);
    if t.kind.ObjectEnd? && unnamed then Parsed(true, Object(members), t.end, [])
    else if !t.kind.Str? then Failure(doc, Object(members), MissingNameOrBrace, t, ObjectEnd)
    else
      match DecodeString(doc, t)
      case Bad(m) => Failure(doc, Object(members), m, t, ObjectEnd)
      case Good(full) =>
        var colon := ReadToken(doc, t.end);
        if !colon.kind.Colon? then Failure(doc, Object(members), MissingColon, colon, ObjectEnd)
        else
          var name := CString(full);
          var child := ReadValue(cfg, doc, colon.end, Find(members, name));
          AfterMember(cfg, doc, pos, Put(members, name, child.value), full == "", child)
  }

  /** Behind the value of a member. */
  function AfterMember(cfg: Config, doc: string, ghost pos: nat, members: seq<Member>, unnamed: bool,
      child: Parsed): (r: Parsed)
    requires pos < child.end <= |doc|
    requires child.ok <==> child.errors == []
    ensures pos <= r.end <= |doc|
    ensures r.ok <==> r.errors == []
    decreases |doc| - pos, 0
  {
    if !child.ok then Parsed(false, Object(members), Recover(doc, child.end, ObjectEnd), child.errors)
    else
      var t := ReadToken(doc, child.end);
      if !(t.kind.ObjectEnd? || t.kind.Comma? || t.kind.Comment?) then
        Failure(doc, Object(members), MissingCommaOrBrace, t, ObjectEnd)
      else
        var last := if t.kind.Comment? then SkipComments(doc, t.end) else t;
        if last.kind.ObjectEnd? then Parsed(true, Object(members), last.end, [])
        else ReadMembers(cfg, doc, last.end, members, unnamed)
  }

  /** The rest of an array that has these items so far. */
  function ReadItems(cfg: Config, doc: string, pos: nat, items: seq<Value>): (r: Parsed)
    requires pos <= |doc|
    ensures pos <= r.end <= |doc|
    ensures r.ok <==> r.errors == []
    decreases |doc| - pos, 1
  {
    var child := ReadValue(cfg, doc, pos, Value.Null);
    var all := items + [child.value];
    if !child.ok then Parsed(false, Array(all), Recover(doc, child.end, ArrayEnd), child.errors)
    else
      var t := SkipComments(doc, child.end);
      if t.kind.ArrayEnd? then Parsed(true, Array(all), t.end, [])
      else if t.kind.Comma? then ReadItems(cfg, doc, t.end, all)
      else Failure(doc, Array(all), MissingCommaOrBracket, t, ArrayEnd)
  }

  /** The whole document, into a root that holds `was`. */
  function Parse(cfg: Config, doc: string, was: Value): (r: Parsed)
    ensures r.ok <==> r.errors == []
    ensures r.end <= |doc|
  {
    var r := ReadValue(cfg, doc, 0, was);
    var end := FirstToken(cfg.allowComments, doc, r.end).end;
    if cfg.strictRoot && !r.value.Array? && !r.value.Object? then
      Parsed(false, r.value, end, r.errors + [ErrorInfo(RootNotContainer, Token(Error, 0, |doc|))])
    else r.(end := end)
  }

  // ------------------------------------------------------ what every read produces

  /** Trees the reader can produce: well formed, every integer in the type it is read back in,
      every string a C string and none of them null. */
  ghost predicate Readable(v: Value) {
    WellFormed(v) && Stored(v) == v && NullFree(v)
  }

  ghost predicate ReadableMembers(members: seq<Member>) {
    && Ascending(members)
    && forall k :: 0 <= k < |members| ==> NulFree(members[k].name) && Readable(members[k].value)
  }

  lemma {:induction false} FindReadable(members: seq<Member>, name: string)
    requires forall k :: 0 <= k < |members| ==> Readable(members[k].value)
    ensures Readable(Find(members, name))
  {
    hide Readable;
    if members == [] {
      NullReadable();
    } else if members[0].name != name {
      FindReadable(members[1..], name);
    }
  }

  lemma NullReadable()
    ensures Readable(Value.Null)
  {
  }

  lemma PutReadable(members: seq<Member>, name: string, value: Value)
    requires ReadableMembers(members) && NulFree(name) && Readable(value)
    ensures ReadableMembers(Put(members, name, value))
  {
    hide Readable;
    PutKeeps(members, name, value);
    var after := Put(members, name, value);
    forall k | 0 <= k < |after|
      ensures NulFree(after[k].name) && Readable(after[k].value)
    {
      assert after[k] in after;
    }
  }

  lemma ContainersReadable(members: seq<Member>, items: seq<Value>)
    ensures ReadableMembers(members) ==> Readable(Object(members))
    ensures (forall k :: 0 <= k < |items| ==> Readable(items[k])) ==> Readable(Array(items))
  {
    hide Stored;
    if forall k :: 0 <= k < |items| ==> Readable(items[k]) {
      assert StoredItems(items) == items;
      StoredContainers(members, items);
    }
    if ReadableMembers(members) {
      assert StoredMembers(members) == members;
      StoredContainers(members, items);
    }
  }

  lemma StoredContainers(members: seq<Member>, items: seq<Value>)
    ensures Stored(Object(members)) == Object(StoredMembers(members))
    ensures Stored(Array(items)) == Array(StoredItems(items))
  {
  }

  /** Whatever the document, and whether or not reading succeeds, the tree left behind is one
      the value classes admit. */
  lemma {:induction false} ReadValueReadable(cfg: Config, doc: string, pos: nat, was: Value)
    requires pos <= |doc| && Readable(was)
    ensures Readable(ReadValue(cfg, doc, pos, was).value)
    decreases |doc| - pos, 0
  {
    hide Readable, FirstToken, ReadToken, ReadMembers, ReadItems, AfterSpaces;
    var t := FirstToken(cfg.allowComments, doc, pos);
    if t.kind.ObjectBegin? {
      ReadMembersReadable(cfg, doc, t.end, [], true);
    } else if t.kind.ArrayBegin? {
      ContainersReadable([], []);
      ReadItemsReadable(cfg, doc, AfterSpaces(doc, t.end), []);
    } else {
      ScalarReadable(cfg, doc, pos, was);
    }
  }

  lemma ScalarReadable(cfg: Config, doc: string, pos: nat, was: Value)
    requires pos <= |doc| && Readable(was)
    requires var k := FirstToken(cfg.allowComments, doc, pos).kind; !k.ObjectBegin? && !k.ArrayBegin?
    ensures Readable(ReadValue(cfg, doc, pos, was).value)
  {
    hide Readable, FirstToken, IsNumberText, DecodeNumber, DecodeString, AsString, Scalar, ReadMembers, ReadItems;
    hide AfterSpaces;
    var t := FirstToken(cfg.allowComments, doc, pos);
    ConstantsReadable();
    if t.kind.Number? {
      NumberReadable(cfg, doc[t.start..t.end], was, t);
    } else if t.kind.Str? {
      StringReadable(DecodeString(doc, t), was, t);
    }
  }

  lemma NumberReadable(cfg: Config, s: string, was: Value, t: Token)
    requires IsNumberText(s) && Readable(was)
    ensures Readable(Scalar(DecodeNumber(cfg.scan, s), was, t).value)
  {
  }

  lemma StringReadable(d: Decoded<string>, was: Value, t: Token)
    requires Readable(was)
    ensures Readable(Scalar(AsString(d), was, t).value)
  {
    if d.Good? {
      assert CString(CString(d.value)) == CString(d.value);
    }
  }

  lemma ConstantsReadable()
    ensures Readable(Value.Null) && Readable(Bool(true)) && Readable(Bool(false))
  {
  }

  lemma {:induction false} ReadMembersReadable(cfg: Config, doc: string, pos: nat, members: seq<Member>, unnamed: bool)
    requires pos <= |doc| && ReadableMembers(members)
    ensures Readable(ReadMembers(cfg, doc, pos, members, unnamed).value)
    decreases |doc| - pos, 1
  {
    hide Readable, WellFormed, Stored, ReadToken, Failure;
    ContainersReadable(members, []);
    var t := SkipComments(doc, pos);
    FailureValue(doc, Object(members));
    if t.kind.Str? && DecodeString(doc, t).Good? && ReadToken(doc, t.end).kind.Colon? {
      var full := DecodeString(doc, t).value;
      var name, colon := CString(full), ReadToken(doc, t.end);
      FindReadable(members, name);
      var child := ReadValue(cfg, doc, colon.end, Find(members, name));
      ReadValueReadable(cfg, doc, colon.end, Find(members, name));
      PutReadable(members, name, child.value);
      AfterMemberReadable(cfg, doc, pos, Put(members, name, child.value), full == "", child);
    }
  }

  lemma FailureValue(doc: string, value: Value)
    ensures forall m, t: Token, k | t.end <= |doc| :: Failure(doc, value, m, t, k).value == value
  {
  }

  lemma {:induction false} AfterMemberReadable(cfg: Config, doc: string, pos: nat, members: seq<Member>,
      unnamed: bool, child: Parsed)
    requires pos < child.end <= |doc| && (child.ok <==> child.errors == []) && ReadableMembers(members)
    ensures Readable(AfterMember(cfg, doc, pos, members, unnamed, child).value)
    decreases |doc| - pos, 0
  {
    hide Readable, WellFormed, Stored, ReadToken, ReadMembers;
    ContainersReadable(members, []);
    var t := ReadToken(doc, child.end);
    if child.ok && (t.kind.Comma? || t.kind.Comment?) {
      var last := if t.kind.Comment? then SkipComments(doc, t.end) else t;
      ReadMembersReadable(cfg, doc, last.end, members, unnamed);
    }
  }

  lemma {:induction false} ReadItemsReadable(cfg: Config, doc: string, pos: nat, items: seq<Value>)
    requires pos <= |doc| && forall k :: 0 <= k < |items| ==> Readable(items[k])
    ensures Readable(ReadItems(cfg, doc, pos, items).value)
    decreases |doc| - pos, 1
  {
    hide Readable, ReadValue, SkipComments;
    ConstantsReadable();
    ReadValueReadable(cfg, doc, pos, Value.Null);
    var child := ReadValue(cfg, doc, pos, Value.Null);
    var all := items + [child.value];
    ContainersReadable([], all);
    var t := SkipComments(doc, child.end);
    if child.ok && t.kind.Comma? {
      ReadItemsReadable(cfg, doc, t.end, all);
    }
  }

  lemma ParseReadable(cfg: Config, doc: string, was: Value)
    requires Readable(was)
    ensures Readable(Parse(cfg, doc, was).value)
  {
    hide Readable, ReadValue;
    ReadValueReadable(cfg, doc, 0, was);
  }

  /** What the root held before matters only when nothing is written to it. */
  lemma OldRoot(cfg: Config, doc: string, pos: nat, was: Value)
    requires pos <= |doc|
    ensures var r := ReadValue(cfg, doc, pos, was);
      r.value == was || r == ReadValue(cfg, doc, pos, Value.Null)
  {
    hide FirstToken, ReadToken, ReadMembers, ReadItems, DecodeNumber, DecodeString;
  }

  /** The reader never produces a null string. */
  lemma ParseNullFree(cfg: Config, doc: string, was: Value)
    requires NullFree(was)
    ensures NullFree(Parse(cfg, doc, was).value)
  {
    hide ReadValue, FirstToken, NullFree, WellFormed, Stored;
    ConstantsReadable();
    ReadValueReadable(cfg, doc, 0, Value.Null);
    OldRoot(cfg, doc, 0, was);
  }
}
