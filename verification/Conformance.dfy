/** The writer and the reader of the program, put together. */
module Conformance {
  import opened Bytes
  import opened JsonValue
  import opened Quoting
  import opened Lexer
  import opened Parser
  import opened Rendering
  import opened RoundTrip
  import opened Canonical
  import opened Styling
  import opened Writers
  import opened Reader

  /** The settings a stream writer is built from; comment styles are `None` and `All`. */
  datatype Settings = Settings(
    indentation: Text,
    allComments: bool,
    enableYAMLCompatibility: bool,
    dropNullPlaceholders: bool,
    realText: Printer)

  /** What the program sets for its replies: no indentation, no comments. */
  predicate IsCompact(s: Settings) {
    s.indentation == [] && !s.enableYAMLCompatibility && !s.dropNullPlaceholders
  }

  function SettingsColon(s: Settings): Text {
    if s.enableYAMLCompatibility then [COLON, SPACE]
    else if s.indentation == [] then [COLON]
    else [SPACE, COLON, SPACE]
  }

  function SettingsFormat(s: Settings): Format {
    Format(SettingsColon(s), if s.dropNullPlaceholders then [] else NULL_TEXT, s.realText)
  }

  /** The plain writer's format with all defaults. */
  function TightFormat(realText: Printer): Format {
    Format([COLON], NULL_TEXT, realText)
  }

  /** The colon is written `: `, ` : ` or `:`, and null as `null` or not at all. */
  lemma SymbolsOfSettings(s: Settings)
    ensures SettingsFormat(s).colon
         == Ascii(if s.enableYAMLCompatibility then ": " else if s.indentation == [] then ":" else " : ")
    ensures SettingsFormat(s).nullSymbol == Ascii(if s.dropNullPlaceholders then "" else "null")
  {
  }

  lemma ColonIsPadded(s: Settings)
    ensures IsPadded(SettingsColon(s), COLON)
  {
    var none: Text, one: Text := [], [SPACE];
    assert Blank(none) && Blank(one);
    if s.enableYAMLCompatibility {
      assert SettingsColon(s) == none + [COLON] + one;
    } else if s.indentation == [] {
      assert SettingsColon(s) == none + [COLON] + none;
    } else {
      assert SettingsColon(s) == one + [COLON] + one;
    }
  }

  /** Layout independence: a legible layout of a value has the value's tokens, so deleting what is between
      the tokens gives the plain writer's text, and the reader makes the same value of all layouts. */
  lemma LayoutIsIrrelevant(style: Style, v: Value, d: Text, f: Features, root: Value)
    requires Spelled(style.fmt.realText, v) && Legible(style) && LaysValue(style, d, v)
    ensures var p := style.fmt.realText;
            Lex(d) == Tokens(p, v) && Glued(Lex(d)) == Compact(TightFormat(p), v)
    ensures ReadsDocument(ParseDocument(f, d, root), f, d, Converts(f, style.fmt.realText, v),
                          Height(v) <= STACK_LIMIT, Echo(f, style.fmt.realText, v))
  {
    var p := style.fmt.realText;
    assert d + [] == d;
    assert Lex(d + []) == Tokens(p, v) + Lex([]);
    assert Tokens(p, v) + [] == Tokens(p, v);
    hide Lex, Tokens, Compact, ParseDocument, Spells, Converts, Echo;
    GluedTokens(TightFormat(p), v);
    AnyLayoutParses(f, p, v, d, [], root);
  }

  /** The settings whose text can be read back: white space for indentation, null written out. */
  predicate IsLegible(s: Settings) {
    Blank(s.indentation) && !s.dropNullPlaceholders
  }

  /** `writeString`: build a stream writer from the settings, write one value. The compact settings give
      the plain writer's text; any white space as indentation, either comment style and either colon
      give a layout that reads back as the same value. Without comments the text is exactly the styled one. */
  method WriteString(s: Settings, root: Value, commented: bool) returns (text: Text)
    ensures !commented ==> text == Styled(Style(s.indentation, SettingsFormat(s)), s.allComments, [], true, root)
    ensures IsCompact(s) ==> text == Compact(TightFormat(s.realText), root)
    ensures IsLegible(s) && Spelled(s.realText, root) ==> Glued(Lex(text)) == Compact(TightFormat(s.realText), root)
    ensures IsLegible(s) && Spelled(s.realText, root) ==>
              forall f: Features, prior: Value ::
                ReadsDocument(ParseDocument(f, text, prior), f, text, Converts(f, s.realText, root),
                              Height(root) <= STACK_LIMIT, Echo(f, s.realText, root))
  {
    hide Lex, Tokens, Compact, ParseDocument, Spelled, Converts, Glued, Readable, ReadsDocument, Echo, Height, Styled;
    var fmt := SettingsFormat(s);
    var writer := new BuiltStyledStreamWriter(s.indentation, s.allComments, fmt.colon, fmt.nullSymbol, [], s.realText,
                                              commented);
    ghost var d := writer.Write(root);
    text := writer.sout;
    assert text == d;
    if IsLegible(s) && Spelled(s.realText, root) {
      LegibleSettings(s);
      forall f: Features, prior: Value
        ensures ReadsDocument(ParseDocument(f, text, prior), f, text, Converts(f, s.realText, root),
                              Height(root) <= STACK_LIMIT, Echo(f, s.realText, root))
        ensures Glued(Lex(text)) == Compact(TightFormat(s.realText), root)
      {
        LayoutIsIrrelevant(Style(s.indentation, fmt), root, d, f, prior);
      }
      LayoutIsIrrelevant(Style(s.indentation, fmt), root, d, DefaultFeatures(_ => NoDouble), Null);
    }
  }

  /** The reader's default options. */
  function DefaultFeatures(readDouble: Text -> Reading): Features {
    Features(true, false, false, false, readDouble)
  }

  lemma LegibleSettings(s: Settings)
    requires IsLegible(s)
    ensures Legible(Style(s.indentation, SettingsFormat(s)))
  {
    ColonIsPadded(s);
  }

  // ---------------------------------------------------------------- the plain writer beside the styled one

  /** The doubles that two conversions give the same text. */
  ghost function Agreeing(p: Printer, q: Printer): iset<int> {
    iset bits: int | p(bits) == q(bits)
  }

  lemma {:induction false} SameText(p: Printer, q: Printer, v: Value)
    requires RealsIn(v, Agreeing(p, q))
    ensures Compact(TightFormat(p), v) == Compact(TightFormat(q), v)
    decreases v, 0
  {
    if !v.IsLeaf() && v.Arr? {
      SameElems(p, q, v.elems);
    } else if !v.IsLeaf() {
      SameMembers(p, q, v.members);
    }
  }

  lemma {:induction false} SameElems(p: Printer, q: Printer, es: seq<Value>)
    requires ElemsRealsIn(es, Agreeing(p, q))
    ensures CompactElems(TightFormat(p), es) == CompactElems(TightFormat(q), es)
    decreases es, 1
  {
    hide Compact;
    if es != [] {
      SameText(p, q, es[0]);
      SameElems(p, q, es[1..]);
    }
  }

  lemma {:induction false} SameMembers(p: Printer, q: Printer, ms: seq<Member>)
    requires MembersRealsIn(ms, Agreeing(p, q))
    ensures CompactMembers(TightFormat(p), ms) == CompactMembers(TightFormat(q), ms)
    decreases ms, 1
  {
    hide Compact, Quoted;
    if ms != [] {
      SameText(p, q, ms[0].value);
      SameMembers(p, q, ms[1..]);
    }
  }

  /** The plain writer and the styled one in compact mode. The plain one converts doubles with the default
      precision, the styled one with that of its settings: the two texts are the same when the
      conversions agree on the doubles inside, in particular when there are none. */
  method WriteBoth(s: Settings, plain: Printer, root: Value) returns (fast: Text, styled: Text)
    requires IsCompact(s)
    ensures fast == Compact(TightFormat(plain), root) && styled == Compact(TightFormat(s.realText), root)
    ensures RealsIn(root, Agreeing(plain, s.realText)) || RealFree(root) ==> fast == styled
  {
    hide Compact, RealsIn;
    var writer := new FastWriter(plain);
    writer.omitEndingLineFeed := true;
    fast := writer.Write(root);
    styled := WriteString(s, root, true);
    if RealFree(root) {
      RealsInMore(root, iset{}, Agreeing(plain, s.realText));
    }
    if RealsIn(root, Agreeing(plain, s.realText)) {
      SameText(plain, s.realText, root);
    }
  }

  // ---------------------------------------------------------------- a reply sent and received

  /** A reply of the program, read back by the reader of the program with its default options. With a
      double the reader cannot convert, the parse fails. Otherwise it throws for more than 1000 levels
      and else yields the echo of the value; that is the value itself exactly when it is normal and
      UTF-8 and its doubles come back. */
  method SendAndReceive(s: Settings, readDouble: Text -> Reading, root: Value, prior: Value)
    returns (flow: Flow, received: Value)
    requires IsCompact(s) && Spelled(s.realText, root)
    ensures var f := DefaultFeatures(readDouble);
            if !Converts(f, s.realText, root) then flow != Returned(true)
            else flow == (if Height(root) <= STACK_LIMIT then Returned(true) else Raised)
    ensures var f := DefaultFeatures(readDouble);
            flow == Returned(true) ==>
              && received == Echo(f, s.realText, root)
              && (received == root <==> Normal(root) && Clean(root) && Returns(f, s.realText, root))
  {
    hide Lex, Tokens, Compact, ParseDocument, Spelled, Converts, Readable, Echo, Height, Glued, Clean, Normal, Returns;
    var text := WriteString(s, root, true);
    var f := DefaultFeatures(readDouble);
    var reader := new Reader(f);
    flow, received := reader.Parse(text, prior);
    assert Blank(s.indentation);
    assert ReadsDocument(ParseDocument(f, text, prior), f, text, Converts(f, s.realText, root),
                         Height(root) <= STACK_LIMIT, Echo(f, s.realText, root));
    EchoFixesExactly(f, s.realText, root);
  }
}
