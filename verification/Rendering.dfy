/** The compact text of a value, its tokens, and how the two agree. */
module Rendering {
  import opened Bytes
  import opened JsonValue
  import opened Numbers
  import opened Quoting
  import opened Unquoting
  import opened Lexer

  /** The (opaque) conversion of doubles to text. */
  type Printer = int -> Text

  /** What the writers are configured with: the colon symbol, the text of null, the conversion of
      doubles. */
  datatype Format = Format(colon: Text, nullSymbol: Text, realText: Printer)

  // ---------------------------------------------------------------- text

  function ScalarText(fmt: Format, v: Value): Text {
    match v
    case Null => fmt.nullSymbol
    case Int(i) => IntText(i)
    case UInt(u) => IntText(u)
    case Real(bits) => fmt.realText(bits)
    case Str(s) => Quoted(s)
    case Bool(b) => if b then TRUE_TEXT else FALSE_TEXT
    case Arr(_) => [OPEN_BRACKET, CLOSE_BRACKET]
    case Obj(_) => [OPEN_BRACE, CLOSE_BRACE]
  }

  function Compact(fmt: Format, v: Value): Text
    decreases v, 0
  {
    if v.IsLeaf() then ScalarText(fmt, v)
    else if v.Arr? then [OPEN_BRACKET] + CompactElems(fmt, v.elems) + [CLOSE_BRACKET]
    else [OPEN_BRACE] + CompactMembers(fmt, v.members) + [CLOSE_BRACE]
  }

  function CompactElems(fmt: Format, es: seq<Value>): Text
    decreases es, 1
  {
    if es == [] then []
    else if |es| == 1 then Compact(fmt, es[0])
    else Compact(fmt, es[0]) + [COMMA] + CompactElems(fmt, es[1..])
  }

  function CompactMember(fmt: Format, m: Member): Text
    decreases m, 1
  {
    Quoted(m.name) + fmt.colon + Compact(fmt, m.value)
  }

  function CompactMembers(fmt: Format, ms: seq<Member>): Text
    decreases ms, 2
  {
    if ms == [] then []
    else if |ms| == 1 then CompactMember(fmt, ms[0])
    else CompactMember(fmt, ms[0]) + [COMMA] + CompactMembers(fmt, ms[1..])
  }

  /** What each scalar and each empty container is written as. */
  lemma ScalarTexts(fmt: Format, i: Int64, u: UInt64, bits: int, s: Text)
    ensures Compact(fmt, Null) == fmt.nullSymbol && Compact(fmt, Real(bits)) == fmt.realText(bits)
    ensures Compact(fmt, Int(i)) == IntText(i) && Compact(fmt, UInt(u)) == IntText(u)
    ensures Compact(fmt, Str(s)) == Quoted(s)
    ensures Compact(fmt, Bool(true)) == Ascii("true") && Compact(fmt, Bool(false)) == Ascii("false")
    ensures Compact(fmt, Arr([])) == Ascii("[]") && Compact(fmt, Obj([])) == Ascii("{}")
  {
  }

  // ---------------------------------------------------------------- tokens

  function StringTok(s: Text): Token {
    Token(StringToken, Quoted(s))
  }

  /** A double is one number token, or the word for null, which stands for "not a number". */
  function RealTok(t: Text): Token {
    Token(if t == NULL_TEXT then NullToken else NumberToken, t)
  }

  /** The tokens of a value. */
  function Tokens(p: Printer, v: Value): seq<Token>
    decreases v, 0
  {
    match v
    case Null => [Token(NullToken, NULL_TEXT)]
    case Int(i) => [Token(NumberToken, IntText(i))]
    case UInt(u) => [Token(NumberToken, IntText(u))]
    case Real(bits) => [RealTok(p(bits))]
    case Str(s) => [StringTok(s)]
    case Bool(b) => [if b then Token(TrueToken, TRUE_TEXT) else Token(FalseToken, FALSE_TEXT)]
    case Arr(es) => [Punct(OPEN_BRACKET)] + ElemTokens(p, es) + [Punct(CLOSE_BRACKET)]
    case Obj(ms) => [Punct(OPEN_BRACE)] + MembersTokens(p, ms) + [Punct(CLOSE_BRACE)]
  }

  function ElemTokens(p: Printer, es: seq<Value>): seq<Token>
    decreases es, 1
  {
    if es == [] then []
    else if |es| == 1 then Tokens(p, es[0])
    else Tokens(p, es[0]) + [Punct(COMMA)] + ElemTokens(p, es[1..])
  }

  function MemberTokens(p: Printer, m: Member): seq<Token>
    decreases m, 1
  {
    [StringTok(m.name)] + [Punct(COLON)] + Tokens(p, m.value)
  }

  function MembersTokens(p: Printer, ms: seq<Member>): seq<Token>
    decreases ms, 2
  {
    if ms == [] then []
    else if |ms| == 1 then MemberTokens(p, ms[0])
    else MemberTokens(p, ms[0]) + [Punct(COMMA)] + MembersTokens(p, ms[1..])
  }

  // ---------------------------------------------------------------- the text spells the tokens

  /** A symbol that is `c` among spaces. */
  ghost predicate IsPadded(symbol: Text, c: Byte) {
    exists a: Text, b: Text :: Blank(a) && Blank(b) && symbol == a + [c] + b
  }

  /** Any format whose text can be read back: a colon among spaces and the word for null. */
  ghost predicate Readable(fmt: Format) {
    IsPadded(fmt.colon, COLON) && fmt.nullSymbol == NULL_TEXT
  }

  /** The doubles whose text can be read back as one token. */
  ghost function Legibles(p: Printer): iset<int> {
    iset bits: int | p(bits) == NULL_TEXT || IsNumberText(p(bits))
  }

  /** Every double inside has the text of a number or of null. */
  ghost predicate Spelled(p: Printer, v: Value) {
    RealsIn(v, Legibles(p))
  }

  ghost predicate SpelledElems(p: Printer, es: seq<Value>) {
    ElemsRealsIn(es, Legibles(p))
  }

  ghost predicate SpelledMembers(p: Printer, ms: seq<Member>) {
    MembersRealsIn(ms, Legibles(p))
  }

  /** Values without doubles are spelled whatever the conversion. */
  lemma RealFreeIsSpelled(p: Printer, v: Value)
    requires RealFree(v)
    ensures Spelled(p, v)
  {
    RealsInMore(v, iset{}, Legibles(p));
  }

  lemma TightIsReadable(p: Printer)
    ensures Readable(Format([COLON], NULL_TEXT, p))
  {
    var none: Text := [];
    assert Blank(none) && [COLON] == none + [COLON] + none;
  }

  lemma PaddedSpells(symbol: Text, c: Byte)
    requires IsPadded(symbol, c) && IsPunctuation(c)
    ensures SpellsClosed(symbol, [Punct(c)])
  {
    hide Lex, SpellsClosed;
    var a, b :| Blank(a) && Blank(b) && symbol == a + [c] + b;
    BlankSpellsNothing(a);
    PunctuationSpells(c);
    BlankSpellsNothing(b);
    ClosedThenClosed(a, [], [c], [Punct(c)]);
    ClosedThenClosed(a + [c], [] + [Punct(c)], b, []);
    assert [] + [Punct(c)] + [] == [Punct(c)];
  }

  lemma IntSpells(n: int)
    ensures Spells(IntText(n), [Token(NumberToken, IntText(n))])
  {
    hide Lex, Spells;
    if n < 0 {
      NumeralOfDigits(-n);
      NumberSpells(MINUS, Digits(-n));
    } else {
      NumeralOfDigits(n);
      var d := Digits(n);
      assert IsDigit(d[0]);
      NumberSpells(d[0], d[1..]);
      assert [d[0]] + d[1..] == d;
    }
  }

  lemma QuotedSpells(s: Text)
    ensures SpellsClosed(Quoted(s), [StringTok(s)])
  {
    QuoteRoundTrip(s);
    LiteralSpells(QuoteBody(s));
  }

  lemma ScalarSpells(fmt: Format, v: Value)
    requires v.IsLeaf() && Spelled(fmt.realText, v) && fmt.nullSymbol == NULL_TEXT
    ensures Spells(ScalarText(fmt, v), Tokens(fmt.realText, v))
  {
    hide Lex, Spells, SpellsClosed, Quoted, IntText;
    match v {
      case Null => WordSpells(NULL_TEXT, NullToken); ClosedIsOpen(NULL_TEXT, Tokens(fmt.realText, v));
      case Int(i) => IntSpells(i);
      case UInt(u) => IntSpells(u);
      case Real(bits) =>
        if fmt.realText(bits) == NULL_TEXT {
          WordSpells(NULL_TEXT, NullToken);
          ClosedIsOpen(NULL_TEXT, Tokens(fmt.realText, v));
        } else {
          NumberTextSpells(fmt.realText(bits));
        }
      case Str(s) => QuotedSpells(s); ClosedIsOpen(Quoted(s), Tokens(fmt.realText, v));
      case Bool(b) =>
        if b {
          WordSpells(TRUE_TEXT, TrueToken);
        } else {
          WordSpells(FALSE_TEXT, FalseToken);
        }
        ClosedIsOpen(ScalarText(fmt, v), Tokens(fmt.realText, v));
      case Arr(_) => PairSpells(OPEN_BRACKET, CLOSE_BRACKET);
      case Obj(_) => PairSpells(OPEN_BRACE, CLOSE_BRACE);
    }
  }

  lemma PairSpells(a: Byte, b: Byte)
    requires IsPunctuation(a) && IsPunctuation(b)
    ensures Spells([a, b], [Punct(a)] + [] + [Punct(b)])
  {
    hide Lex, Spells, SpellsClosed, IsPunctuation;
    PunctuationSpells(a);
    PunctuationSpells(b);
    ClosedThenClosed([a], [Punct(a)], [b], [Punct(b)]);
    ClosedIsOpen([a] + [b], [Punct(a)] + [Punct(b)]);
    assert [a] + [b] == [a, b] && [Punct(a)] + [Punct(b)] == [Punct(a)] + [] + [Punct(b)];
  }

  /** Pieces put together the way both writers do: opened, filled, closed. */
  lemma Bracketed(open: Text, ot: seq<Token>, d: Text, ts: seq<Token>, close: Text, ct: seq<Token>)
    requires SpellsClosed(open, ot) && Spells(d, ts) && SpellsClosed(close, ct)
    requires close != [] && EndsNumber(close)
    ensures SpellsClosed(open + d + close, ot + ts + ct)
  {
    hide Lex, Spells, SpellsClosed, EndsNumber;
    ClosedThen(open, ot, d, ts);
    OpenThenClosed(open + d, ot + ts, close, ct);
  }

  /** A piece, a comma, another piece. */
  lemma Separated(a: Text, ta: seq<Token>, b: Text, tb: seq<Token>)
    requires Spells(a, ta) && Spells(b, tb)
    ensures Spells(a + [COMMA] + b, ta + [Punct(COMMA)] + tb)
  {
    PunctuationSpells(COMMA);
    hide Lex, Spells, SpellsClosed;
    OpenThenClosed(a, ta, [COMMA], [Punct(COMMA)]);
    ClosedThen(a + [COMMA], ta + [Punct(COMMA)], b, tb);
  }

  lemma Enclosed(open: Byte, d: Text, ts: seq<Token>, close: Byte)
    requires IsPunctuation(open) && IsPunctuation(close) && Spells(d, ts)
    ensures Spells([open] + d + [close], [Punct(open)] + ts + [Punct(close)])
  {
    PunctuationSpells(open);
    PunctuationSpells(close);
    hide Lex, Spells, SpellsClosed;
    Bracketed([open], [Punct(open)], d, ts, [close], [Punct(close)]);
    ClosedIsOpen([open] + d + [close], [Punct(open)] + ts + [Punct(close)]);
  }

  /** A member from its name on: the name, the padded colon, the value. */
  lemma MemberSpells(fmt: Format, m: Member, d: Text)
    requires Readable(fmt) && Spells(d, Tokens(fmt.realText, m.value))
    ensures Spells(Quoted(m.name) + fmt.colon + d, MemberTokens(fmt.realText, m))
  {
    PaddedSpells(fmt.colon, COLON);
    hide Lex, Spells, SpellsClosed, Quoted;
    QuotedSpells(m.name);
    ClosedThenClosed(Quoted(m.name), [StringTok(m.name)], fmt.colon, [Punct(COLON)]);
    ClosedThen(Quoted(m.name) + fmt.colon, [StringTok(m.name)] + [Punct(COLON)], d, Tokens(fmt.realText, m.value));
  }

  /** The compact text of a value lexes to the tokens of the value, in any context. */
  lemma {:induction false} CompactSpells(fmt: Format, v: Value)
    requires Spelled(fmt.realText, v) && Readable(fmt)
    ensures Spells(Compact(fmt, v), Tokens(fmt.realText, v))
    decreases v, 0
  {
    hide Lex, Spells, SpellsClosed, ScalarText;
    if v.IsLeaf() {
      ScalarSpells(fmt, v);
    } else if v.Arr? {
      ElemsSpell(fmt, v.elems);
      Enclosed(OPEN_BRACKET, CompactElems(fmt, v.elems), ElemTokens(fmt.realText, v.elems), CLOSE_BRACKET);
    } else {
      MembersSpell(fmt, v.members);
      Enclosed(OPEN_BRACE, CompactMembers(fmt, v.members), MembersTokens(fmt.realText, v.members), CLOSE_BRACE);
    }
  }

  lemma {:induction false} ElemsSpell(fmt: Format, es: seq<Value>)
    requires SpelledElems(fmt.realText, es) && Readable(fmt) && es != []
    ensures Spells(CompactElems(fmt, es), ElemTokens(fmt.realText, es))
    decreases es, 1
  {
    hide Lex, Spells, SpellsClosed, Compact, Tokens;
    CompactSpells(fmt, es[0]);
    if |es| > 1 {
      ElemsSpell(fmt, es[1..]);
      var p := fmt.realText;
      Separated(Compact(fmt, es[0]), Tokens(p, es[0]), CompactElems(fmt, es[1..]), ElemTokens(p, es[1..]));
    }
  }

  lemma {:induction false} MembersSpell(fmt: Format, ms: seq<Member>)
    requires SpelledMembers(fmt.realText, ms) && Readable(fmt) && ms != []
    ensures Spells(CompactMembers(fmt, ms), MembersTokens(fmt.realText, ms))
    decreases ms, 2
  {
    hide Lex, Spells, SpellsClosed, Compact, Tokens;
    CompactSpells(fmt, ms[0].value);
    MemberSpells(fmt, ms[0], Compact(fmt, ms[0].value));
    if |ms| > 1 {
      MembersSpell(fmt, ms[1..]);
      var p := fmt.realText;
      Separated(CompactMember(fmt, ms[0]), MemberTokens(p, ms[0]),
                CompactMembers(fmt, ms[1..]), MembersTokens(p, ms[1..]));
    }
  }

  // ---------------------------------------------------------------- tokens glued together

  /** Deleting what is between the tokens of a value leaves the tightest compact text. */
  lemma {:induction false} GluedTokens(fmt: Format, v: Value)
    requires fmt.colon == [COLON] && fmt.nullSymbol == NULL_TEXT
    ensures Glued(Tokens(fmt.realText, v)) == Compact(fmt, v)
    decreases v, 0
  {
    match v {
      case Arr(es) =>
        if es != [] {
          GluedElems(fmt, es);
        }
        GluedEnclosed(Punct(OPEN_BRACKET), ElemTokens(fmt.realText, es), Punct(CLOSE_BRACKET));
      case Obj(ms) =>
        if ms != [] {
          GluedMembers(fmt, ms);
        }
        GluedEnclosed(Punct(OPEN_BRACE), MembersTokens(fmt.realText, ms), Punct(CLOSE_BRACE));
      case _ =>
        assert Tokens(fmt.realText, v)[1..] == [];
    }
  }

  lemma GluedEnclosed(a: Token, ts: seq<Token>, b: Token)
    ensures Glued([a] + ts + [b]) == a.text + Glued(ts) + b.text
  {
    GluedAppend([a] + ts, [b]);
    GluedAppend([a], ts);
    assert Glued([b]) == b.text + Glued([]);
    assert Glued([a]) == a.text + Glued([]);
  }

  lemma GluedSeparated(ta: seq<Token>, tb: seq<Token>)
    ensures Glued(ta + [Punct(COMMA)] + tb) == Glued(ta) + [COMMA] + Glued(tb)
  {
    GluedAppend(ta + [Punct(COMMA)], tb);
    GluedAppend(ta, [Punct(COMMA)]);
    assert Glued([Punct(COMMA)]) == [COMMA] + Glued([]);
  }

  lemma {:induction false} GluedElems(fmt: Format, es: seq<Value>)
    requires fmt.colon == [COLON] && fmt.nullSymbol == NULL_TEXT && es != []
    ensures Glued(ElemTokens(fmt.realText, es)) == CompactElems(fmt, es)
    decreases es, 1
  {
    hide Compact, Tokens, Glued;
    GluedTokens(fmt, es[0]);
    if |es| > 1 {
      GluedElems(fmt, es[1..]);
      GluedSeparated(Tokens(fmt.realText, es[0]), ElemTokens(fmt.realText, es[1..]));
    }
  }

  lemma {:induction false} GluedMembers(fmt: Format, ms: seq<Member>)
    requires fmt.colon == [COLON] && fmt.nullSymbol == NULL_TEXT && ms != []
    ensures Glued(MembersTokens(fmt.realText, ms)) == CompactMembers(fmt, ms)
    decreases ms, 2
  {
    hide Compact, Tokens, Quoted;
    var m := ms[0];
    GluedTokens(fmt, m.value);
    GluedAppend([StringTok(m.name)] + [Punct(COLON)], Tokens(fmt.realText, m.value));
    GluedAppend([StringTok(m.name)], [Punct(COLON)]);
    assert Glued([StringTok(m.name)]) == Quoted(m.name) + Glued([]);
    assert Glued([Punct(COLON)]) == [COLON] + Glued([]);
    assert Glued(MemberTokens(fmt.realText, m)) == CompactMember(fmt, m);
    if |ms| > 1 {
      GluedMembers(fmt, ms[1..]);
      GluedSeparated(MemberTokens(fmt.realText, m), MembersTokens(fmt.realText, ms[1..]));
    }
  }
}
