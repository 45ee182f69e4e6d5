/** The two writers: the plain recursive one, and the one with indentation, margins and cached child
    texts, which must agree with it. */
module Writers {
  import opened Bytes
  import opened JsonValue
  import opened Numbers
  import opened Quoting
  import opened Lexer
  import opened Rendering
  import opened Styling

  // ---------------------------------------------------------------- the plain writer

  /** What is still to come after the first `i` elements, separators included. */
  function ElemsFrom(fmt: Format, es: seq<Value>, i: nat): Text
    requires i <= |es|
  {
    if i == |es| then [] else if i == 0 then CompactElems(fmt, es) else [COMMA] + CompactElems(fmt, es[i..])
  }

  /** An element with the comma in front of it, if any. */
  function ElemPiece(fmt: Format, es: seq<Value>, i: nat): Text
    requires i < |es|
  {
    (if i > 0 then [COMMA] else []) + Compact(fmt, es[i])
  }

  lemma ElemsFromStep(fmt: Format, es: seq<Value>, i: nat)
    requires i < |es|
    ensures ElemsFrom(fmt, es, i) == ElemPiece(fmt, es, i) + ElemsFrom(fmt, es, i + 1)
  {
    hide Compact;
    assert es[i..][1..] == es[i + 1..] && es[i..][0] == es[i] && es[0..] == es;
    assert CompactElems(fmt, es[i..]) == Compact(fmt, es[i]) + ElemsFrom(fmt, es, i + 1);
  }

  function MembersFrom(fmt: Format, ms: seq<Member>, i: nat): Text
    requires i <= |ms|
  {
    if i == |ms| then [] else if i == 0 then CompactMembers(fmt, ms) else [COMMA] + CompactMembers(fmt, ms[i..])
  }

  function MemberPiece(fmt: Format, ms: seq<Member>, i: nat): Text
    requires i < |ms|
  {
    (if i > 0 then [COMMA] else []) + CompactMember(fmt, ms[i])
  }

  lemma MembersFromStep(fmt: Format, ms: seq<Member>, i: nat)
    requires i < |ms|
    ensures MembersFrom(fmt, ms, i) == MemberPiece(fmt, ms, i) + MembersFrom(fmt, ms, i + 1)
  {
    hide CompactMember;
    assert ms[i..][1..] == ms[i + 1..] && ms[i..][0] == ms[i] && ms[0..] == ms;
    assert CompactMembers(fmt, ms[i..]) == CompactMember(fmt, ms[i]) + MembersFrom(fmt, ms, i + 1);
  }

  lemma Surrounded(before: Text, open: Text, inside: Text, close: Text)
    ensures before + open + inside + close == before + (open + inside + close)
  {
    Assoc(before, open, inside);
    Assoc(before, open + inside, close);
  }

  class FastWriter {
    var document: Text
    var yamlCompatibilityEnabled: bool
    var dropNullPlaceholders: bool
    var omitEndingLineFeed: bool
    const realText: Printer

    constructor (realText: Printer)
      ensures document == [] && this.realText == realText
      ensures !yamlCompatibilityEnabled && !dropNullPlaceholders && !omitEndingLineFeed
    {
      this.realText := realText;
      document := [];
      yamlCompatibilityEnabled, dropNullPlaceholders, omitEndingLineFeed := false, false, false;
    }

    /** The colon is written `: ` or `:`, and null as `null` or not at all. */
    lemma SymbolsOfSwitches()
      ensures Fmt().colon == Ascii(if yamlCompatibilityEnabled then ": " else ":")
      ensures Fmt().nullSymbol == Ascii(if dropNullPlaceholders then "" else "null")
    {
    }

    function Fmt(): Format
      reads this
    {
      Format(if yamlCompatibilityEnabled then [COLON, SPACE] else [COLON],
             if dropNullPlaceholders then [] else NULL_TEXT, realText)
    }

    method Write(root: Value) returns (text: Text)
      modifies this`document
      ensures text == document == Compact(Fmt(), root) + if omitEndingLineFeed then [] else [LINE_FEED]
    {
      document := [];
      WriteValue(root);
      if !omitEndingLineFeed {
        document := document + [LINE_FEED];
      }
      text := document;
    }

    method WriteValue(value: Value)
      modifies this`document
      ensures document == old(document) + Compact(Fmt(), value)
      decreases value, 3
    {
      match value {
        case Null =>
          if !dropNullPlaceholders {
            document := document + NULL_TEXT;
          }
        case Int(i) =>
          var text := IntToString(i);
          document := document + text;
        case UInt(u) =>
          var text := UIntToString(u);
          document := document + text;
        case Real(bits) =>
          document := document + realText(bits);
        case Str(s) =>
          var text := ValueToQuotedStringN(s);
          document := document + text;
        case Bool(b) =>
          document := document + if b then TRUE_TEXT else FALSE_TEXT;
        case Arr(es) =>
          WriteArray(value);
        case Obj(ms) =>
          WriteObject(value);
      }
    }

    /** The array case of `writeValue`. */
    method WriteArray(value: Value)
      requires value.Arr?
      modifies this`document
      ensures document == old(document) + Compact(Fmt(), value)
      decreases value, 2
    {
      hide ElemsFrom, ElemPiece, CompactElems, Compact;
      var es := value.elems;
      ghost var fmt := Fmt();
      document := document + [OPEN_BRACKET];
      ghost var base, done: Text := document, [];
      for index := 0 to |es|
        invariant document == base + done && Fmt() == fmt
        invariant ElemsFrom(fmt, es, 0) == done + ElemsFrom(fmt, es, index)
      {
        ghost var piece := ElemPiece(fmt, es, index);
        ElemsFromStep(fmt, es, index);
        WriteElement(es, index);
        Assoc(done, piece, ElemsFrom(fmt, es, index + 1));
        Assoc(base, done, piece);
        done := done + piece;
      }
      document := document + [CLOSE_BRACKET];
      AllElems(fmt, es);
      assert done + [] == done;
      Surrounded(old(document), [OPEN_BRACKET], done, [CLOSE_BRACKET]);
    }

    /** One round of the array loop. */
    method WriteElement(es: seq<Value>, index: nat)
      requires index < |es|
      modifies this`document
      ensures document == old(document) + ElemPiece(Fmt(), es, index)
      decreases es[index], 4
    {
      hide Compact;
      if index > 0 {
        document := document + [COMMA];
      }
      WriteValue(es[index]);
    }

    lemma AllElems(fmt: Format, es: seq<Value>)
      ensures ElemsFrom(fmt, es, 0) == CompactElems(fmt, es) && ElemsFrom(fmt, es, |es|) == []
      ensures Compact(fmt, Arr(es)) == [OPEN_BRACKET] + CompactElems(fmt, es) + [CLOSE_BRACKET]
    {
    }

    /** The object case of `writeValue`. */
    method WriteObject(value: Value)
      requires value.Obj?
      modifies this`document
      ensures document == old(document) + Compact(Fmt(), value)
      decreases value, 2
    {
      hide MembersFrom, MemberPiece, CompactMembers, Compact;
      var ms := value.members;
      ghost var fmt := Fmt();
      document := document + [OPEN_BRACE];
      ghost var base, done: Text := document, [];
      for it := 0 to |ms|
        invariant document == base + done && Fmt() == fmt
        invariant MembersFrom(fmt, ms, 0) == done + MembersFrom(fmt, ms, it)
      {
        ghost var piece := MemberPiece(fmt, ms, it);
        MembersFromStep(fmt, ms, it);
        WriteMember(ms, it);
        Assoc(done, piece, MembersFrom(fmt, ms, it + 1));
        Assoc(base, done, piece);
        done := done + piece;
      }
      document := document + [CLOSE_BRACE];
      AllMembers(fmt, ms);
      assert done + [] == done;
      Surrounded(old(document), [OPEN_BRACE], done, [CLOSE_BRACE]);
    }

    /** One round of the object loop. */
    method WriteMember(ms: seq<Member>, it: nat)
      requires it < |ms|
      modifies this`document
      ensures document == old(document) + MemberPiece(Fmt(), ms, it)
      decreases ms[it], 1
    {
      hide Compact, Quoted;
      if it > 0 {
        document := document + [COMMA];
      }
      var name := ValueToQuotedStringN(ms[it].name);
      document := document + name;
      document := document + if yamlCompatibilityEnabled then [COLON, SPACE] else [COLON];
      WriteValue(ms[it].value);
    }

    lemma AllMembers(fmt: Format, ms: seq<Member>)
      ensures MembersFrom(fmt, ms, 0) == CompactMembers(fmt, ms) && MembersFrom(fmt, ms, |ms|) == []
      ensures Compact(fmt, Obj(ms)) == [OPEN_BRACE] + CompactMembers(fmt, ms) + [CLOSE_BRACE]
    {
    }
  }

  // ---------------------------------------------------------------- layouts

  /** The text can be read back: spaces for indentation, a padded colon, the word for null. */
  ghost predicate Legible(style: Style) {
    Blank(style.indentation) && Readable(style.fmt)
  }

  /** `d` is a layout of `text` and of its tokens: with no indentation it is `text` itself, and when
      legible it spells the tokens. `free` says that no double is involved. */
  ghost predicate Lays(style: Style, free: bool, d: Text, text: Text, tokens: seq<Token>) {
    && (style.indentation == [] ==> d == text)
    && (free && Legible(style) ==> Spells(d, tokens))
  }

  ghost predicate LaysClosed(style: Style, d: Text, text: Text, tokens: seq<Token>) {
    && (style.indentation == [] ==> d == text)
    && (Legible(style) ==> SpellsClosed(d, tokens))
  }

  /** White space that is only written when there is an indentation. */
  predicate IsGap(style: Style, w: Text) {
    (style.indentation == [] ==> w == []) && (Blank(style.indentation) ==> Blank(w))
  }

  ghost predicate LaysValue(style: Style, d: Text, v: Value) {
    var p := style.fmt.realText;
    Lays(style, Spelled(p, v), d, Compact(style.fmt, v), Tokens(p, v))
  }

  ghost predicate LaysEntry(style: Style, d: Text, m: Member) {
    var p := style.fmt.realText;
    Lays(style, Spelled(p, m.value), d, CompactMember(style.fmt, m), MemberTokens(p, m))
  }

  lemma GapThenPunct(style: Style, w: Text, c: Byte)
    requires IsGap(style, w) && IsPunctuation(c)
    ensures LaysClosed(style, w + [c], [c], [Punct(c)])
  {
    hide Lex, SpellsClosed;
    PunctuationSpells(c);
    if Legible(style) {
      BlankSpellsNothing(w);
      ClosedThenClosed(w, [], [c], [Punct(c)]);
      assert [] + [Punct(c)] == [Punct(c)];
    }
  }

  lemma GapThen(style: Style, free: bool, w: Text, d: Text, text: Text, tokens: seq<Token>)
    requires IsGap(style, w) && Lays(style, free, d, text, tokens)
    ensures Lays(style, free, w + d, text, tokens)
  {
    hide Lex, SpellsClosed, Spells;
    if free && Legible(style) {
      BlankSpellsNothing(w);
      ClosedThen(w, [], d, tokens);
      assert [] + tokens == tokens;
    }
    assert w == [] ==> w + d == d;
  }

  lemma GapThenValue(style: Style, w: Text, d: Text, v: Value)
    requires IsGap(style, w) && LaysValue(style, d, v)
    ensures LaysValue(style, w + d, v)
  {
    hide Lays;
    GapThen(style, Spelled(style.fmt.realText, v), w, d, Compact(style.fmt, v), Tokens(style.fmt.realText, v));
  }

  lemma LaysScalar(style: Style, v: Value)
    requires v.IsLeaf()
    ensures LaysValue(style, ScalarText(style.fmt, v), v)
  {
    if Spelled(style.fmt.realText, v) && Legible(style) {
      hide Lex, Spells, ScalarText;
      ScalarSpells(style.fmt, v);
    }
  }

  /** A piece, a comma, a piece. */
  lemma LaysSeparated(style: Style, free: bool, a: Text, at: Text, ats: seq<Token>,
                      more: bool, b: Text, bt: Text, bts: seq<Token>)
    requires Lays(style, free, a, at, ats) && Lays(style, more, b, bt, bts)
    ensures Lays(style, free && more, a + [COMMA] + b, at + [COMMA] + bt, ats + [Punct(COMMA)] + bts)
  {
    hide Lex, Spells;
    if free && more && Legible(style) {
      Separated(a, ats, b, bts);
    }
  }

  /** A container: the opening and the closing byte, each after a gap, around the contents. */
  lemma LaysContainer(style: Style, free: bool, w1: Text, open: Byte, d: Text, text: Text, tokens: seq<Token>,
                      w2: Text, close: Byte)
    requires IsGap(style, w1) && IsGap(style, w2) && Lays(style, free, d, text, tokens)
    requires IsPunctuation(open) && IsPunctuation(close)
    ensures Lays(style, free, w1 + [open] + d + (w2 + [close]), [open] + text + [close],
                 [Punct(open)] + tokens + [Punct(close)])
  {
    hide Lex, Spells, SpellsClosed;
    GapThenPunct(style, w1, open);
    GapThenPunct(style, w2, close);
    if free && Legible(style) {
      BlankEndsNumber(w2, close);
      Bracketed(w1 + [open], [Punct(open)], d, tokens, w2 + [close], [Punct(close)]);
      ClosedIsOpen(w1 + [open] + d + (w2 + [close]), [Punct(open)] + tokens + [Punct(close)]);
    }
  }

  lemma BlankEndsNumber(w: Text, c: Byte)
    requires Blank(w) && IsPunctuation(c)
    ensures EndsNumber(w + [c])
  {
    assert (w + [c])[0] == if w == [] then c else w[0];
  }

  /** A member: a gap and the name, the colon symbol, the value. */
  lemma LaysMember(style: Style, w: Text, m: Member, d: Text)
    requires IsGap(style, w) && LaysValue(style, d, m.value)
    ensures LaysEntry(style, w + Quoted(m.name) + style.fmt.colon + d, m)
  {
    hide Lex, Spells, SpellsClosed, Quoted, Compact, Tokens, RealsIn;
    var piece := Quoted(m.name) + style.fmt.colon + d;
    if Spelled(style.fmt.realText, m.value) && Legible(style) {
      MemberSpells(style.fmt, m, d);
    }
    assert LaysEntry(style, piece, m);
    GapThen(style, Spelled(style.fmt.realText, m.value), w, piece, CompactMember(style.fmt, m),
            MemberTokens(style.fmt.realText, m));
    assert w + piece == w + Quoted(m.name) + style.fmt.colon + d;
  }

  // ---------------------------------------------------------------- elements and members one by one

  ghost predicate LaysElems(style: Style, d: Text, es: seq<Value>) {
    var p := style.fmt.realText;
    Lays(style, SpelledElems(p, es), d, CompactElems(style.fmt, es), ElemTokens(p, es))
  }

  lemma {:induction false} AppendElem(fmt: Format, es: seq<Value>, v: Value)
    requires es != []
    ensures CompactElems(fmt, es + [v]) == CompactElems(fmt, es) + [COMMA] + Compact(fmt, v)
    ensures var p := fmt.realText;
            ElemTokens(p, es + [v]) == ElemTokens(p, es) + [Punct(COMMA)] + Tokens(p, v)
            && (SpelledElems(p, es + [v]) <==> SpelledElems(p, es) && Spelled(p, v))
  {
    hide Compact, Tokens, RealsIn;
    var longer, p := es + [v], fmt.realText;
    if |es| == 1 {
      assert longer[1..] == [v] && [v][1..] == [] && es[1..] == [];
      assert longer[1..][1..] == [];
      assert ElemsRealsIn(longer[1..], Legibles(p)) <==> Spelled(p, v);
    } else {
      AppendElem(fmt, es[1..], v);
      assert longer[1..] == es[1..] + [v];
      Assoc(Compact(fmt, es[0]) + [COMMA], CompactElems(fmt, es[1..]) + [COMMA], Compact(fmt, v));
      Assoc(Compact(fmt, es[0]) + [COMMA], CompactElems(fmt, es[1..]), [COMMA]);
      Assoc(Tokens(p, es[0]) + [Punct(COMMA)], ElemTokens(p, es[1..]) + [Punct(COMMA)], Tokens(p, v));
      Assoc(Tokens(p, es[0]) + [Punct(COMMA)], ElemTokens(p, es[1..]), [Punct(COMMA)]);
    }
  }

  /** One more element, after a comma unless it is the first. */
  lemma LaysOneMore(style: Style, items: Text, es: seq<Value>, d: Text, v: Value)
    requires if es == [] then items == [] else LaysElems(style, items, es)
    requires LaysValue(style, d, v)
    ensures LaysElems(style, if es == [] then d else items + [COMMA] + d, es + [v])
  {
    hide Lex, Spells, Compact, Tokens, RealsIn;
    if es == [] {
      assert [] + [v] == [v] && [v][1..] == [];
    } else {
      AppendElem(style.fmt, es, v);
      var p := style.fmt.realText;
      LaysSeparated(style, SpelledElems(p, es), items, CompactElems(style.fmt, es), ElemTokens(p, es),
                    Spelled(p, v), d, Compact(style.fmt, v), Tokens(p, v));
    }
  }

  ghost predicate LaysMembers(style: Style, d: Text, ms: seq<Member>) {
    var p := style.fmt.realText;
    Lays(style, SpelledMembers(p, ms), d, CompactMembers(style.fmt, ms), MembersTokens(p, ms))
  }

  lemma {:induction false} AppendMember(fmt: Format, ms: seq<Member>, m: Member)
    requires ms != []
    ensures CompactMembers(fmt, ms + [m]) == CompactMembers(fmt, ms) + [COMMA] + CompactMember(fmt, m)
    ensures var p := fmt.realText;
            MembersTokens(p, ms + [m]) == MembersTokens(p, ms) + [Punct(COMMA)] + MemberTokens(p, m)
            && (SpelledMembers(p, ms + [m]) <==> SpelledMembers(p, ms) && Spelled(p, m.value))
  {
    hide CompactMember, MemberTokens, RealsIn;
    var longer, p := ms + [m], fmt.realText;
    if |ms| == 1 {
      assert longer[1..] == [m] && [m][1..] == [] && ms[1..] == [];
      assert longer[1..][1..] == [];
      assert MembersRealsIn(longer[1..], Legibles(p)) <==> Spelled(p, m.value);
    } else {
      AppendMember(fmt, ms[1..], m);
      assert longer[1..] == ms[1..] + [m];
      Assoc(CompactMember(fmt, ms[0]) + [COMMA], CompactMembers(fmt, ms[1..]) + [COMMA], CompactMember(fmt, m));
      Assoc(CompactMember(fmt, ms[0]) + [COMMA], CompactMembers(fmt, ms[1..]), [COMMA]);
      Assoc(MemberTokens(p, ms[0]) + [Punct(COMMA)], MembersTokens(p, ms[1..]) + [Punct(COMMA)], MemberTokens(p, m));
      Assoc(MemberTokens(p, ms[0]) + [Punct(COMMA)], MembersTokens(p, ms[1..]), [Punct(COMMA)]);
    }
  }

  lemma LaysOneMoreMember(style: Style, items: Text, ms: seq<Member>, d: Text, m: Member)
    requires if ms == [] then items == [] else LaysMembers(style, items, ms)
    requires LaysEntry(style, d, m)
    ensures LaysMembers(style, if ms == [] then d else items + [COMMA] + d, ms + [m])
  {
    hide Lex, Spells, CompactMember, MemberTokens, RealsIn;
    if ms == [] {
      assert [] + [m] == [m] && [m][1..] == [];
    } else {
      AppendMember(style.fmt, ms, m);
      var p := style.fmt.realText;
      LaysSeparated(style, SpelledMembers(p, ms), items, CompactMembers(style.fmt, ms), MembersTokens(p, ms),
                    Spelled(p, m.value), d, CompactMember(style.fmt, m), MemberTokens(p, m));
    }
  }

  /** An array that is not empty, from the layout of its elements. */
  lemma LaysArray(style: Style, w1: Text, items: Text, es: seq<Value>, w2: Text)
    requires IsGap(style, w1) && IsGap(style, w2) && LaysElems(style, items, es) && es != []
    ensures LaysValue(style, w1 + [OPEN_BRACKET] + items + (w2 + [CLOSE_BRACKET]), Arr(es))
  {
    hide Lays, IsGap, CompactElems, ElemTokens, ElemsRealsIn;
    var p := style.fmt.realText;
    LaysContainer(style, SpelledElems(p, es), w1, OPEN_BRACKET, items, CompactElems(style.fmt, es), ElemTokens(p, es),
                  w2, CLOSE_BRACKET);
  }

  /** The same with a gap in front of the elements. */
  lemma LaysElemsAfterGap(style: Style, w: Text, items: Text, es: seq<Value>)
    requires IsGap(style, w) && LaysElems(style, items, es)
    ensures LaysElems(style, w + items, es)
  {
    hide Lays, IsGap, CompactElems, ElemTokens, ElemsRealsIn;
    var p := style.fmt.realText;
    GapThen(style, SpelledElems(p, es), w, items, CompactElems(style.fmt, es), ElemTokens(p, es));
  }

  lemma LaysObject(style: Style, w1: Text, items: Text, ms: seq<Member>, w2: Text)
    requires IsGap(style, w1) && IsGap(style, w2) && LaysMembers(style, items, ms) && ms != []
    ensures LaysValue(style, w1 + [OPEN_BRACE] + items + (w2 + [CLOSE_BRACE]), Obj(ms))
  {
    hide Lays, IsGap, CompactMembers, MembersTokens, MembersRealsIn;
    var p := style.fmt.realText;
    LaysContainer(style, SpelledMembers(p, ms), w1, OPEN_BRACE, items, CompactMembers(style.fmt, ms),
                  MembersTokens(p, ms), w2, CLOSE_BRACE);
  }

  // ---------------------------------------------------------------- the styled writer

  const RIGHT_MARGIN := 74
  const TWO_TO_32 := 0x1_0000_0000

  class BuiltStyledStreamWriter {
    const indentation: Text
    const allComments: bool
    const colonSymbol: Text
    const nullSymbol: Text
    const endingLineFeedSymbol: Text
    const realText: Printer
    const commented: bool
    var sout: Text
    var childValues: seq<Text>
    var indentString: Text
    var addChildValues: bool
    var indented: bool

    /** `commented` says that values may carry comments, which can force several lines. The cache is only ever
        filled where the margin is looked at, never with all comments on; the current indentation is white space
        if its unit is. */
    ghost predicate Valid()
      reads this
    {
      && (allComments ==> childValues == [])
      && IsGap(Layout(), indentString)
    }

    ghost function Layout(): Style {
      Style(indentation, Format(colonSymbol, nullSymbol, realText))
    }

    constructor (indentation: Text, allComments: bool, colonSymbol: Text, nullSymbol: Text,
                 endingLineFeedSymbol: Text, realText: Printer, commented: bool)
      ensures Valid() && sout == [] && this.endingLineFeedSymbol == endingLineFeedSymbol
      ensures this.allComments == allComments && this.commented == commented
      ensures Layout() == Style(indentation, Format(colonSymbol, nullSymbol, realText))
    {
      this.indentation, this.allComments := indentation, allComments;
      this.colonSymbol, this.nullSymbol := colonSymbol, nullSymbol;
      this.endingLineFeedSymbol, this.realText, this.commented := endingLineFeedSymbol, realText, commented;
      sout, childValues, indentString, addChildValues, indented := [], [], [], false, false;
    }

    method WriteIndent() returns (ghost w: Text)
      requires Valid()
      modifies this`sout
      ensures sout == old(sout) + w && IsGap(Layout(), w) && w == NewLine(Layout(), indentString)
    {
      w := [];
      if indentation != [] {
        w := [LINE_FEED] + indentString;
        sout := sout + [LINE_FEED] + indentString;
      }
    }

    method WriteWithIndent(value: Text) returns (ghost w: Text)
      requires Valid()
      modifies this`sout, this`indented
      ensures sout == old(sout) + w + value && IsGap(Layout(), w) && !indented
      ensures w == if old(indented) then [] else NewLine(Layout(), indentString)
    {
      w := [];
      if !indented {
        w := WriteIndent();
      }
      sout := sout + value;
      indented := false;
    }

    method Indent()
      requires Valid()
      modifies this`indentString
      ensures Valid() && indentString == old(indentString) + indentation
    {
      indentString := indentString + indentation;
    }

    /** The assertion of the original that the string is long enough is this precondition. */
    method Unindent()
      requires Valid() && |indentString| >= |indentation|
      modifies this`indentString
      ensures Valid() && indentString == old(indentString)[..|old(indentString)| - |indentation|]
    {
      assert |indentString| >= |indentation|;
      indentString := indentString[..|indentString| - |indentation|];
    }

    method PushValue(value: Text)
      modifies this`sout, this`childValues
      ensures if addChildValues then sout == old(sout) && childValues == old(childValues) + [value]
              else sout == old(sout) + value && childValues == old(childValues)
    {
      if addChildValues {
        childValues := childValues + [value];
      } else {
        sout := sout + value;
      }
    }

    /** What writing a value does: into the cache its one piece of text and nothing else, into the
        stream a layout `d` of it, with the indentation as it was; without comments, exactly the styled text. */
    twostate predicate Wrote(value: Value, d: Text)
      reads this
    {
      && Valid() && addChildValues == old(addChildValues) && indentString == old(indentString)
      && if addChildValues then
           sout == old(sout) && indented == old(indented)
           && childValues == old(childValues) + [ScalarText(Layout().fmt, value)]
         else
           sout == old(sout) + d && (indented ==> old(indented))
           && LaysValue(Layout(), d, value)
           && (!commented ==> d == Styled(Layout(), allComments, old(indentString), old(indented), value))
    }

    method WriteValue(value: Value) returns (ghost d: Text)
      requires Valid() && (addChildValues ==> value.IsLeaf() && !allComments)
      modifies this`sout, this`childValues, this`indentString, this`addChildValues, this`indented
      ensures Wrote(value, d)
      decreases value, 5
    {
      hide Lays, Styled;
      if value.IsLeaf() {
        LaysScalar(Layout(), value);
        StyledLeaf(Layout(), allComments, indentString, indented, value);
      }
      d := ScalarText(Layout().fmt, value);
      match value {
        case Null =>
          PushValue(nullSymbol);
        case Int(i) =>
          var text := IntToString(i);
          PushValue(text);
        case UInt(u) =>
          var text := UIntToString(u);
          PushValue(text);
        case Real(bits) =>
          PushValue(realText(bits));
        case Str(s) =>
          var text := ValueToQuotedStringN(s);
          PushValue(text);
        case Bool(b) =>
          PushValue(if b then TRUE_TEXT else FALSE_TEXT);
        case Arr(es) =>
          d := WriteArrayValue(value);
        case Obj(ms) =>
          if ms == [] {
            PushValue([OPEN_BRACE, CLOSE_BRACE]);
          } else {
            d := WriteMembers(value);
          }
      }
    }

    /** The object case of `writeValue`, for at least one member. */
    method WriteMembers(value: Value) returns (ghost d: Text)
      requires Valid() && !addChildValues && value.Obj? && value.members != []
      modifies this`sout, this`childValues, this`indentString, this`addChildValues, this`indented
      ensures Wrote(value, d) && !addChildValues
      decreases value, 4
    {
      hide Lays, LaysMembers, Compact, Tokens, Spelled, IsGap, StyledMembers, NewLine, Styled;
      var ms := value.members;
      StyledObject(Layout(), allComments, indentString, indented, ms);
      ghost var w1 := WriteWithIndent([OPEN_BRACE]);
      Indent();
      ghost var items := WriteMemberList(ms);
      Unindent();
      ghost var w2 := WriteWithIndent([CLOSE_BRACE]);
      LaysObject(Layout(), w1, items, ms, w2);
      d := w1 + [OPEN_BRACE] + items + (w2 + [CLOSE_BRACE]);
    }

    /** The object loop. */
    method WriteMemberList(ms: seq<Member>) returns (ghost items: Text)
      requires Valid() && !addChildValues && !indented && ms != []
      modifies this`sout, this`childValues, this`indentString, this`addChildValues, this`indented
      ensures Valid() && !addChildValues && !indented && indentString == old(indentString)
      ensures sout == old(sout) + items && LaysMembers(Layout(), items, ms)
      ensures !commented ==> items == StyledMembers(Layout(), allComments, indentString, ms)
      decreases ms, 2
    {
      hide Lays, LaysMembers, StyledMembers, StyledMember, IsGap, LaysEntry;
      items := [];
      StyledNothing(Layout(), allComments, indentString);
      assert ms[..0] == [];
      var it := 0;
      while true
        invariant 0 <= it < |ms| && Valid() && !addChildValues && !indented
        invariant indentString == old(indentString)
        invariant !commented ==> items == StyledMembers(Layout(), allComments, indentString, ms[..it])
        invariant if it == 0 then items == [] && sout == old(sout)
                  else LaysMembers(Layout(), items, ms[..it]) && sout == old(sout) + items + [COMMA]
        decreases |ms| - it
      {
        ghost var piece := WriteMember(ms[it]);
        LaysOneMoreMember(Layout(), items, ms[..it], piece, ms[it]);
        OneMoreMember(Layout(), allComments, indentString, ms[..it], ms[it]);
        assert ms[..it] + [ms[it]] == ms[..it + 1];
        items := if it == 0 then piece else items + [COMMA] + piece;
        it := it + 1;
        if it == |ms| {
          break;
        }
        sout := sout + [COMMA];
      }
      assert ms[..it] == ms;
    }

    /** One round of the object loop. */
    method WriteMember(m: Member) returns (ghost d: Text)
      requires Valid() && !addChildValues
      modifies this`sout, this`childValues, this`indentString, this`addChildValues, this`indented
      ensures Valid() && !addChildValues && indentString == old(indentString) && sout == old(sout) + d && !indented
      ensures LaysEntry(Layout(), d, m)
      ensures !commented && !old(indented) ==> d == StyledMember(Layout(), allComments, indentString, m)
      decreases m, 1
    {
      hide Lays, Compact, Tokens, Spelled, CompactMember, MemberTokens, Quoted, IsGap, NewLine, Styled;
      var name := ValueToQuotedStringN(m.name);
      ghost var w := WriteWithIndent(name);
      sout := sout + colonSymbol;
      ghost var piece := WriteValue(m.value);
      LaysMember(Layout(), w, m, piece);
      d := w + Quoted(m.name) + colonSymbol + piece;
    }

    /** The cache holds the one piece of text of every element, and all elements have one. */
    ghost predicate Cached(es: seq<Value>)
      reads this
    {
      |childValues| == |es| &&
      forall i :: 0 <= i < |es| ==> es[i].IsLeaf() && childValues[i] == ScalarText(Layout().fmt, es[i])
    }

    method WriteArrayValue(value: Value) returns (ghost d: Text)
      requires Valid() && value.Arr? && (addChildValues ==> value.IsLeaf() && !allComments)
      modifies this`sout, this`childValues, this`indentString, this`addChildValues, this`indented
      ensures Wrote(value, d)
      decreases value, 4
    {
      hide Lays, Styled, OnOneLine;
      var size := |value.elems|;
      if size == 0 {
        LaysScalar(Layout(), value);
        StyledLeaf(Layout(), allComments, indentString, indented, value);
        d := [OPEN_BRACKET, CLOSE_BRACKET];
        PushValue([OPEN_BRACKET, CLOSE_BRACKET]);
      } else {
        var isMultiLine := allComments;
        if !isMultiLine {
          isMultiLine := IsMultilineArray(value);
        }
        if isMultiLine {
          d := WriteLines(value);
        } else {
          d := WriteOneLine(value);
        }
      }
    }

    /** The branch of `writeArrayValue` with one line per element. */
    method WriteLines(value: Value) returns (ghost d: Text)
      requires Valid() && !addChildValues && value.Arr? && value.elems != []
      requires !commented ==> allComments || !OnOneLine(Layout().fmt, value.elems)
      requires childValues == [] || Cached(value.elems)
      modifies this`sout, this`childValues, this`indentString, this`addChildValues, this`indented
      ensures Wrote(value, d) && !addChildValues
      decreases value, 3
    {
      hide Lays, LaysElems, Compact, Tokens, Spelled, IsGap, StyledElems, NewLine, Styled, OnOneLine;
      var es := value.elems;
      if !commented {
        StyledLines(Layout(), allComments, indentString, indented, es);
      }
      ghost var w1 := WriteWithIndent([OPEN_BRACKET]);
      Indent();
      var hasChildValue := childValues != [];
      ghost var items := WriteElementList(es, hasChildValue);
      Unindent();
      ghost var w2 := WriteWithIndent([CLOSE_BRACKET]);
      LaysArray(Layout(), w1, items, es, w2);
      d := w1 + [OPEN_BRACKET] + items + (w2 + [CLOSE_BRACKET]);
    }

    /** The loop over the elements, one to a line. */
    method WriteElementList(es: seq<Value>, hasChildValue: bool) returns (ghost items: Text)
      requires Valid() && !addChildValues && !indented && es != [] && (hasChildValue ==> Cached(es))
      modifies this`sout, this`childValues, this`indentString, this`addChildValues, this`indented
      ensures Valid() && !addChildValues && !indented && indentString == old(indentString)
      ensures sout == old(sout) + items && LaysElems(Layout(), items, es)
      ensures !commented ==> items == StyledElems(Layout(), allComments, indentString, es)
      decreases es, 7
    {
      hide Lays, LaysElems, LaysValue, StyledElems, StyledElem, IsGap;
      items := [];
      StyledNothing(Layout(), allComments, indentString);
      assert es[..0] == [];
      var index := 0;
      while true
        invariant 0 <= index < |es| && Valid() && !addChildValues && !indented
        invariant hasChildValue ==> Cached(es)
        invariant indentString == old(indentString)
        invariant !commented ==> items == StyledElems(Layout(), allComments, indentString, es[..index])
        invariant if index == 0 then items == [] && sout == old(sout)
                  else LaysElems(Layout(), items, es[..index]) && sout == old(sout) + items + [COMMA]
        decreases |es| - index
      {
        ghost var piece := WriteElement(es, index, hasChildValue);
        LaysOneMore(Layout(), items, es[..index], piece, es[index]);
        OneMoreElem(Layout(), allComments, indentString, es[..index], es[index]);
        assert es[..index] + [es[index]] == es[..index + 1];
        items := if index == 0 then piece else items + [COMMA] + piece;
        index := index + 1;
        if index == |es| {
          break;
        }
        sout := sout + [COMMA];
      }
      assert es[..index] == es;
    }

    /** One line of an array: from the cache, or written now. */
    method WriteElement(es: seq<Value>, index: nat, hasChildValue: bool) returns (ghost d: Text)
      requires Valid() && !addChildValues && index < |es| && (hasChildValue ==> Cached(es))
      modifies this`sout, this`childValues, this`indentString, this`addChildValues, this`indented
      ensures Valid() && !addChildValues && indentString == old(indentString) && sout == old(sout) + d && !indented
      ensures hasChildValue ==> childValues == old(childValues)
      ensures LaysValue(Layout(), d, es[index])
      ensures !commented && !old(indented) ==> d == StyledElem(Layout(), allComments, indentString, es[index])
      decreases es[index], 6
    {
      hide Lays, Compact, Tokens, Spelled, ScalarText, NewLine, Styled;
      ghost var w: Text := [];
      if hasChildValue {
        StyledLeaf(Layout(), allComments, indentString, true, es[index]);
        w := WriteWithIndent(childValues[index]);
        d := w + childValues[index];
        LaysScalar(Layout(), es[index]);
        GapThenValue(Layout(), w, childValues[index], es[index]);
      } else {
        if !indented {
          w := WriteIndent();
        }
        indented := true;
        ghost var piece := WriteValue(es[index]);
        indented := false;
        GapThenValue(Layout(), w, piece, es[index]);
        d := w + piece;
      }
    }

    /** The branch of `writeArrayValue` with all elements on one line, from the cache. */
    method WriteOneLine(value: Value) returns (ghost d: Text)
      requires Valid() && !addChildValues && value.Arr? && value.elems != [] && Cached(value.elems)
      requires !commented ==> !allComments && OnOneLine(Layout().fmt, value.elems)
      modifies this`sout
      ensures Wrote(value, d)
    {
      hide Lays, LaysElems, Compact, Tokens, Spelled, ScalarText, Row, Styled, OnOneLine;
      var es := value.elems;
      var size := |es|;
      assert |childValues| == size;
      ghost var w1: Text, w2: Text := [], if indentation != [] then [SPACE] else [];
      sout := sout + [OPEN_BRACKET];
      if indentation != [] {
        sout := sout + [SPACE];
      }
      ghost var started := sout;
      ghost var items: Text := [];
      EmptyRow(Layout());
      for index := 0 to size
        invariant if index == 0 then items == [] && sout == started
                  else LaysElems(Layout(), items, es[..index]) && sout == started + items
        invariant items == Row(Layout(), es[..index])
      {
        OneMoreInRow(Layout(), es[..index], es[index]);
        ghost var piece := WriteCached(es, index);
        LaysOneMore(Layout(), items, es[..index], piece, es[index]);
        assert es[..index] + [es[index]] == es[..index + 1];
        items := if index == 0 then piece else items + [COMMA] + piece;
      }
      assert es[..size] == es;
      if indentation != [] {
        sout := sout + [SPACE];
      }
      sout := sout + [CLOSE_BRACKET];
      LaysElemsAfterGap(Layout(), w2, items, es);
      LaysArray(Layout(), w1, w2 + items, es, w2);
      d := w1 + [OPEN_BRACKET] + (w2 + items) + (w2 + [CLOSE_BRACKET]);
      if !commented {
        StyledRow(Layout(), indentString, indented, es);
      }
    }

    /** One round of the one-line loop: the separator, unless it is the first, and a cached text. */
    method WriteCached(es: seq<Value>, index: nat) returns (ghost d: Text)
      requires index < |es| && Cached(es)
      modifies this`sout
      ensures sout == old(sout) + (if index == 0 then [] else [COMMA]) + d
      ensures d == (if index == 0 then [] else Gap(Layout())) + ScalarText(Layout().fmt, es[index])
      ensures LaysValue(Layout(), d, es[index])
    {
      hide Lays, Compact, Tokens, Spelled, ScalarText;
      ghost var w: Text := if index > 0 && indentation != [] then [SPACE] else [];
      if index > 0 {
        sout := sout + if indentation != [] then [COMMA, SPACE] else [COMMA];
      }
      sout := sout + childValues[index];
      LaysScalar(Layout(), es[index]);
      GapThenValue(Layout(), w, childValues[index], es[index]);
      d := w + childValues[index];
    }

    /** Whether the array needs several lines. Lengths are 32-bit and may wrap; which elements have a comment
        attached, if any may, is left open. On the way the texts of the elements may be cached. */
    method IsMultilineArray(value: Value) returns (isMultiLine: bool)
      requires Valid() && !addChildValues && !allComments && value.Arr? && value.elems != []
      modifies this`sout, this`childValues, this`indentString, this`addChildValues, this`indented
      ensures Valid() && !addChildValues && sout == old(sout) && indented == old(indented)
      ensures indentString == old(indentString)
      ensures childValues == [] || Cached(value.elems)
      ensures !isMultiLine ==> Cached(value.elems)
      ensures !commented ==> (isMultiLine <==> !OnOneLine(Layout().fmt, value.elems))
      decreases value, 3
    {
      hide Lays, ScalarText, Widths, Styled;
      var es := value.elems;
      var size := |es|;
      isMultiLine := size * 3 % TWO_TO_32 >= RIGHT_MARGIN;
      childValues := [];
      var index := 0;
      while index < size && !isMultiLine
        invariant index <= size
        invariant !isMultiLine ==> forall i :: 0 <= i < index ==> es[i].IsLeaf()
        invariant !isMultiLine ==> size * 3 % TWO_TO_32 < RIGHT_MARGIN
        invariant isMultiLine ==> !OnOneLine(Layout().fmt, es)
      {
        var childValue := es[index];
        isMultiLine := (childValue.Arr? || childValue.Obj?) && !childValue.IsLeaf();
        index := index + 1;
      }
      if !isMultiLine {
        addChildValues := true;
        var lineLength := (4 + (size - 1) * 2) % TWO_TO_32;
        NoWidths(Layout().fmt);
        for i := 0 to size
          invariant !commented ==> !isMultiLine
          invariant lineLength == (4 + (size - 1) * 2 + Widths(Layout().fmt, es[..i])) % TWO_TO_32
          invariant Valid() && addChildValues && sout == old(sout) && indented == old(indented)
          invariant indentString == old(indentString) && |childValues| == i
          invariant forall j :: 0 <= j < i ==> childValues[j] == ScalarText(Layout().fmt, es[j])
        {
          if commented {
            var hasComment: bool := *;
            if hasComment {
              isMultiLine := true;
            }
          }
          ghost var piece := WriteValue(es[i]);
          OneMoreWidth(Layout().fmt, es, i);
          ghost var before := 4 + (size - 1) * 2 + Widths(Layout().fmt, es[..i]);
          WrappedSum(before, |childValues[i]|);
          lineLength := (lineLength + |childValues[i]|) % TWO_TO_32;
        }
        assert es[..size] == es;
        addChildValues := false;
        isMultiLine := isMultiLine || lineLength >= RIGHT_MARGIN;
      }
    }

    /** The whole document: a layout of the value, then the ending symbol. */
    method Write(root: Value) returns (ghost d: Text)
      requires Valid()
      modifies this
      ensures Valid() && sout == old(sout) + d + endingLineFeedSymbol
      ensures LaysValue(Layout(), d, root)
      ensures !commented ==> d == Styled(Layout(), allComments, [], true, root)
    {
      hide Lays, Compact, Tokens, Spelled, Styled;
      addChildValues := false;
      indented := true;
      indentString := [];
      d := WriteValue(root);
      sout := sout + endingLineFeedSymbol;
    }
  }
}
