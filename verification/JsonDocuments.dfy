/** The printers and the reader together. */
module JsonDocuments {
  import opened JsonValue
  import opened JsonText
  import opened JsonLayout
  import opened JsonParser
  import opened JsonRoundTrip
  import opened JsonWriter
  import opened JsonStyledWriter
  import opened JsonReader

  /** The two printers show one tree with the same lexemes: they differ in white space outside
      strings only. */
  method PrintBoth(v: Value, yaml: bool) returns (compact: string, styled: string)
    requires WellFormed(v)
    ensures compact == Compact(v, yaml) + "\n" && styled == Styled(v, 0) + "\n"
    ensures Laid(compact, 0, Tokens(v)) && Laid(styled, 0, Tokens(v))
    ensures RealsPlain(v) ==> Strip(compact, Outside) == Strip(styled, Outside)
    ensures RealsPlain(v) && !yaml ==> compact == Strip(styled, Outside) + "\n"
  {
    hide Laid, Strip, Tokens, Concat, Compact, Styled;
    var fast := new FastWriter(yaml);
    compact := fast.Write(v);
    var writer := new StyledWriter();
    styled := writer.Write(v);
    if RealsPlain(v) {
      SameLexemes(v, compact, styled);
    }
  }

  /** What either printer writes, the reader reads back, whatever its root held before: the same
      tree, integers by value, exactly when no string of it is null and none holds a NUL. */
  method WriteThenRead(cfg: Config, v: Value, yaml: bool, was: Value) returns (ok: bool, compact: Value, styled: Value)
    requires WellFormed(v) && RealFree(v) && NullFree(was)
    ensures NullFree(v) ==> (ok <==> RootAllowed(cfg, v)) && compact == styled == Stored(v)
    ensures SameTree(v, compact) <==> StringsNulFree(v) && NullFree(v)
    ensures SameTree(v, styled) <==> StringsNulFree(v) && NullFree(v)
  {
    hide Laid, Strip, Tokens, Parse, WellFormed, RealFree, NullFree, SameTree, StringsNulFree, Stored, RealsPlain;
    var text, pretty := PrintBoth(v, yaml);
    var reader := new Reader(cfg);
    var again;
    ok, compact := reader.ParseDocument(text, was);
    again, styled := reader.ParseDocument(pretty, was);
    if NullFree(v) {
      LayoutParses(cfg, text, was, v);
      LayoutParses(cfg, pretty, was, v);
    }
    RoundTrip(cfg, text, was, v);
    RoundTrip(cfg, pretty, was, v);
  }
}
