/** The token sequence of a document. */
module Lexer {
  import opened Bytes
  import opened Unquoting

  datatype Kind =
    | EndOfStream
    | ObjectBegin
    | ObjectEnd
    | ArrayBegin
    | ArrayEnd
    | StringToken
    | NumberToken
    | TrueToken
    | FalseToken
    | NullToken
    | ArraySeparator
    | MemberSeparator
    | Comment
    | ErrorToken

  /** A token with the bytes from its start to its end. */
  datatype Token = Token(kind: Kind, text: Text)

  const END := Token(EndOfStream, [])

  function SkipSpaces(s: Text): (rest: Text)
    ensures |rest| <= |s|
    ensures rest != [] ==> !IsSpace(rest[0])
  {
    if s != [] && IsSpace(s[0]) then SkipSpaces(s[1..]) else s
  }

  function SkipDigits(s: Text): (rest: Text)
    ensures |rest| <= |s|
    ensures rest != [] ==> !IsDigit(rest[0])
  {
    if s != [] && IsDigit(s[0]) then SkipDigits(s[1..]) else s
  }

  /** Digits, an optional fraction, an optional exponent, each part possibly without digits. */
  function ScanFraction(s: Text): (rest: Text)
    ensures |rest| <= |s|
  {
    if s != [] && s[0] == DOT then SkipDigits(s[1..]) else s
  }

  function ScanExponent(s: Text): (rest: Text)
    ensures |rest| <= |s|
  {
    if s != [] && (s[0] == 0x65 || s[0] == 0x45) then
      if |s| >= 2 && (s[1] == PLUS || s[1] == MINUS) then SkipDigits(s[2..]) else SkipDigits(s[1..])
    else s
  }

  function ScanNumber(s: Text): (rest: Text)
    ensures |rest| <= |s|
  {
    ScanExponent(ScanFraction(SkipDigits(s)))
  }

  /** Inside a block comment. At the end of the document a lone slash closes it too. */
  function ScanBlockComment(s: Text): (r: Scan)
    ensures |r.rest| <= |s|
  {
    if s == [] then Scan(false, [])
    else if |s| == 1 then Scan(s[0] == SLASH, [])
    else if s[0] == STAR && s[1] == SLASH then Scan(true, s[2..])
    else ScanBlockComment(s[1..])
  }

  function ScanLineComment(s: Text): (rest: Text)
    ensures |rest| <= |s|
  {
    if s == [] then []
    else if s[0] == LINE_FEED then s[1..]
    else if s[0] == CARRIAGE_RETURN then if |s| >= 2 && s[1] == LINE_FEED then s[2..] else s[1..]
    else ScanLineComment(s[1..])
  }

  function ScanComment(s: Text): (r: Scan)
    ensures |r.rest| <= |s|
  {
    if s == [] then Scan(false, [])
    else if s[0] == STAR then ScanBlockComment(s[1..])
    else if s[0] == SLASH then Scan(true, ScanLineComment(s[1..]))
    else Scan(false, s[1..])
  }

  function ScanWord(s: Text, word: Text): (r: Scan)
    ensures |r.rest| <= |s|
  {
    if |s| >= |word| && s[..|word|] == word then Scan(true, s[|word|..]) else Scan(false, s)
  }

  /** The kind of the tokens that are one byte long, `ErrorToken` for all other bytes. A zero byte
      counts as the end of the stream. */
  function SingleKind(c: Byte): Kind {
    if c == OPEN_BRACE then ObjectBegin
    else if c == CLOSE_BRACE then ObjectEnd
    else if c == OPEN_BRACKET then ArrayBegin
    else if c == CLOSE_BRACKET then ArrayEnd
    else if c == COMMA then ArraySeparator
    else if c == COLON then MemberSeparator
    else if c == 0 then EndOfStream
    else ErrorToken
  }

  datatype Lexed = Lexed(kind: Kind, rest: Text)

  function Judged(r: Scan, kind: Kind): Lexed {
    Lexed(if r.ok then kind else ErrorToken, r.rest)
  }

  /** A token whose first byte is `c` and that goes on somewhere in `s`. */
  function ScanToken(c: Byte, s: Text): (r: Lexed)
    ensures |r.rest| <= |s|
  {
    if c == QUOTE then Judged(ScanString(s), StringToken)
    else if c == SLASH then Judged(ScanComment(s), Comment)
    else if IsDigit(c) || c == MINUS then Lexed(NumberToken, ScanNumber(s))
    else if c == TRUE_TEXT[0] then Judged(ScanWord(s, TRUE_TEXT[1..]), TrueToken)
    else if c == FALSE_TEXT[0] then Judged(ScanWord(s, FALSE_TEXT[1..]), FalseToken)
    else if c == NULL_TEXT[0] then Judged(ScanWord(s, NULL_TEXT[1..]), NullToken)
    else Lexed(SingleKind(c), s)
  }

  /** A token and the bytes after it. */
  datatype Front = Front(token: Token, rest: Text)

  /** The token read at the front of `s`. */
  function NextToken(s: Text): (r: Front)
    ensures |r.rest| <= |s|
    ensures SkipSpaces(s) != [] ==> |r.rest| < |s|
    ensures SkipSpaces(s) == [] ==> r == Front(END, [])
  {
    var t := SkipSpaces(s);
    if t == [] then Front(END, [])
    else
      var r := ScanToken(t[0], t[1..]);
      Front(Token(r.kind, t[..|t| - |r.rest|]), r.rest)
  }

  /** All tokens of `s`, comments and errors included. */
  function Lex(s: Text): seq<Token>
    decreases |s|
  {
    if SkipSpaces(s) == [] then [] else [NextToken(s).token] + Lex(NextToken(s).rest)
  }

  function Head(ts: seq<Token>): Token {
    if ts == [] then END else ts[0]
  }

  function Tail(ts: seq<Token>): (rest: seq<Token>)
    ensures |rest| <= |ts|
    ensures ts != [] ==> |rest| < |ts|
  {
    if ts == [] then [] else ts[1..]
  }

  /** Reading one token is taking the head of the token sequence. */
  lemma LexFront(s: Text)
    ensures NextToken(s).token == Head(Lex(s)) && Lex(NextToken(s).rest) == Tail(Lex(s))
  {
  }

  lemma {:induction false} SkipSpacesTwice(s: Text)
    ensures SkipSpaces(SkipSpaces(s)) == SkipSpaces(s)
  {
    if s != [] && IsSpace(s[0]) {
      SkipSpacesTwice(s[1..]);
    }
  }

  lemma NextTokenAfterSpaces(s: Text)
    ensures NextToken(SkipSpaces(s)) == NextToken(s)
  {
    hide ScanToken;
    SkipSpacesTwice(s);
  }

  lemma LexAfterSpaces(s: Text)
    ensures Lex(SkipSpaces(s)) == Lex(s)
  {
    hide NextToken;
    SkipSpacesTwice(s);
    NextTokenAfterSpaces(s);
  }

  // ---------------------------------------------------------------- spelling tokens out

  /** A byte that cannot prolong a number. */
  predicate EndsNumber(k: Text) {
    k == [] || !(IsDigit(k[0]) || k[0] == DOT || k[0] == PLUS || k[0] == MINUS || k[0] == 0x65 || k[0] == 0x45)
  }

  /** The text of these tokens, one after the other. */
  function Glued(ts: seq<Token>): Text {
    if ts == [] then [] else ts[0].text + Glued(ts[1..])
  }

  lemma {:induction false} GluedAppend(a: seq<Token>, b: seq<Token>)
    ensures Glued(a + b) == Glued(a) + Glued(b)
  {
    if a == [] {
      assert a + b == b;
    } else {
      GluedAppend(a[1..], b);
      Assoc(a[0].text, Glued(a[1..]), Glued(b));
      assert (a + b)[1..] == a[1..] + b;
    }
  }

  /** `d` spells `ts`: in front of anything (of anything that does not prolong a number, if `d` may
      end in one) it contributes exactly these tokens. */
  ghost predicate Spells(d: Text, ts: seq<Token>) {
    forall k: Text :: EndsNumber(k) ==> Lex(d + k) == ts + Lex(k)
  }

  ghost predicate SpellsClosed(d: Text, ts: seq<Token>) {
    forall k: Text :: Lex(d + k) == ts + Lex(k)
  }

  lemma ClosedThen(a: Text, ta: seq<Token>, b: Text, tb: seq<Token>)
    requires SpellsClosed(a, ta) && Spells(b, tb)
    ensures Spells(a + b, ta + tb)
  {
    hide Lex;
    forall k: Text | EndsNumber(k)
      ensures Lex(a + b + k) == ta + tb + Lex(k)
    {
      assert a + b + k == a + (b + k);
      assert ta + (tb + Lex(k)) == ta + tb + Lex(k);
    }
  }

  lemma ClosedThenClosed(a: Text, ta: seq<Token>, b: Text, tb: seq<Token>)
    requires SpellsClosed(a, ta) && SpellsClosed(b, tb)
    ensures SpellsClosed(a + b, ta + tb)
  {
    hide Lex;
    forall k: Text
      ensures Lex(a + b + k) == ta + tb + Lex(k)
    {
      assert a + b + k == a + (b + k);
      assert ta + (tb + Lex(k)) == ta + tb + Lex(k);
    }
  }

  /** A piece that may end in a number is closed by one that starts with something else. */
  lemma OpenThenClosed(a: Text, ta: seq<Token>, b: Text, tb: seq<Token>)
    requires Spells(a, ta) && SpellsClosed(b, tb) && b != [] && EndsNumber(b)
    ensures SpellsClosed(a + b, ta + tb)
  {
    hide Lex;
    forall k: Text
      ensures Lex(a + b + k) == ta + tb + Lex(k)
    {
      assert a + b + k == a + (b + k);
      assert (b + k)[0] == b[0];
      assert ta + (tb + Lex(k)) == ta + tb + Lex(k);
    }
  }

  lemma ClosedIsOpen(a: Text, ta: seq<Token>)
    requires SpellsClosed(a, ta)
    ensures Spells(a, ta)
  {
  }

  predicate Blank(s: Text) {
    forall i :: 0 <= i < |s| ==> IsSpace(s[i])
  }

  lemma {:induction false} SkipBlank(s: Text, k: Text)
    requires Blank(s)
    ensures SkipSpaces(s + k) == SkipSpaces(k)
  {
    if s == [] {
      assert s + k == k;
    } else {
      SkipBlank(s[1..], k);
      assert (s + k)[1..] == s[1..] + k;
    }
  }

  lemma BlankSpellsNothing(s: Text)
    requires Blank(s)
    ensures SpellsClosed(s, [])
  {
    hide Lex;
    forall k: Text
      ensures Lex(s + k) == [] + Lex(k)
    {
      SkipBlank(s, k);
      LexAfterSpaces(s + k);
      LexAfterSpaces(k);
    }
  }

  /** A token whose scan ends exactly at its last byte, in front of this continuation. */
  lemma FrontToken(d: Text, kind: Kind, k: Text)
    requires d != [] && !IsSpace(d[0]) && ScanToken(d[0], d[1..] + k) == Lexed(kind, k)
    ensures SkipSpaces(d + k) != [] && NextToken(d + k) == Front(Token(kind, d), k)
  {
    hide ScanToken;
    var s := d + k;
    assert SkipSpaces(s) == s && s[0] == d[0] && s[1..] == d[1..] + k;
    assert s[..|s| - |k|] == d;
  }

  lemma LexToken(d: Text, kind: Kind, k: Text)
    requires d != [] && !IsSpace(d[0]) && ScanToken(d[0], d[1..] + k) == Lexed(kind, k)
    ensures Lex(d + k) == [Token(kind, d)] + Lex(k)
  {
    hide ScanToken, NextToken, SkipSpaces;
    FrontToken(d, kind, k);
  }

  function Punct(c: Byte): Token {
    Token(SingleKind(c), [c])
  }

  predicate IsPunctuation(c: Byte) {
    SingleKind(c) != ErrorToken && c != 0
  }

  lemma PunctuationSpells(c: Byte)
    requires IsPunctuation(c)
    ensures SpellsClosed([c], [Punct(c)])
  {
    hide Lex, NextToken, SkipSpaces, ScanString, ScanComment, ScanNumber, Body;
    forall k: Text
      ensures Lex([c] + k) == [Punct(c)] + Lex(k)
    {
      assert [c][1..] + k == k;
      LexToken([c], SingleKind(c), k);
    }
  }

  lemma WordSpells(word: Text, kind: Kind)
    requires (word == TRUE_TEXT && kind == TrueToken) || (word == FALSE_TEXT && kind == FalseToken)
          || (word == NULL_TEXT && kind == NullToken)
    ensures SpellsClosed(word, [Token(kind, word)])
  {
    hide Lex, NextToken, SkipSpaces, ScanString, ScanComment, ScanNumber;
    forall k: Text
      ensures Lex(word + k) == [Token(kind, word)] + Lex(k)
    {
      var s := word[1..] + k;
      assert s[..|word| - 1] == word[1..] && s[|word| - 1..] == k;
      LexToken(word, kind, k);
    }
  }

  lemma LiteralScans(body: Text, k: Text)
    requires Body(body)
    ensures ScanToken(QUOTE, body + [QUOTE] + k) == Lexed(StringToken, k)
  {
    assert body + [QUOTE] + k == body + ([QUOTE] + k);
    ScanFindsBody(body, k);
    hide ScanString, ScanComment, ScanNumber;
  }

  lemma LiteralSpells(body: Text)
    requires Body(body)
    ensures SpellsClosed([QUOTE] + body + [QUOTE], [Token(StringToken, [QUOTE] + body + [QUOTE])])
  {
    hide Lex, NextToken, SkipSpaces, ScanString, ScanComment, ScanNumber, Body;
    var d := [QUOTE] + body + [QUOTE];
    forall k: Text
      ensures Lex(d + k) == [Token(StringToken, d)] + Lex(k)
    {
      assert d[1..] + k == body + [QUOTE] + k;
      LiteralScans(body, k);
      LexToken(d, StringToken, k);
    }
  }

  /** Digits, in front of something that does not prolong them. */
  lemma {:induction false} SkipDigitsThen(s: Text, k: Text)
    requires EndsNumber(k)
    ensures SkipDigits(s + k) == SkipDigits(s) + k
  {
    if s == [] {
      assert s + k == k;
    } else if IsDigit(s[0]) {
      SkipDigitsThen(s[1..], k);
      assert (s + k)[1..] == s[1..] + k;
    } else {
      assert (s + k)[0] == s[0];
    }
  }

  /** What is left of a number by the scan is not changed by what follows the number. */
  lemma ScanNumberThen(s: Text, k: Text)
    requires EndsNumber(k)
    ensures ScanNumber(s + k) == ScanNumber(s) + k
  {
    hide SkipDigits, ScanFraction, ScanExponent;
    SkipDigitsThen(s, k);
    ScanFractionThen(SkipDigits(s), k);
    ScanExponentThen(ScanFraction(SkipDigits(s)), k);
  }

  lemma ScanFractionThen(s: Text, k: Text)
    requires EndsNumber(k)
    ensures ScanFraction(s + k) == ScanFraction(s) + k
  {
    if s == [] {
      assert s + k == k;
    } else {
      assert (s + k)[1..] == s[1..] + k;
      SkipDigitsThen(s[1..], k);
    }
  }

  lemma ScanExponentThen(s: Text, k: Text)
    requires EndsNumber(k)
    ensures ScanExponent(s + k) == ScanExponent(s) + k
  {
    if s == [] {
      assert s + k == k;
    } else {
      assert (s + k)[1..] == s[1..] + k;
      SkipDigitsThen(s[1..], k);
      if |s| >= 2 {
        assert (s + k)[2..] == s[2..] + k;
        SkipDigitsThen(s[2..], k);
      }
    }
  }

  /** The text of one number token. */
  predicate IsNumberText(t: Text) {
    t != [] && (IsDigit(t[0]) || t[0] == MINUS) && ScanNumber(t[1..]) == []
  }

  lemma NumberTextSpells(t: Text)
    requires IsNumberText(t)
    ensures Spells(t, [Token(NumberToken, t)])
  {
    hide Lex, NextToken, SkipSpaces, ScanString, ScanComment, ScanNumber, Body;
    forall k: Text | EndsNumber(k)
      ensures Lex(t + k) == [Token(NumberToken, t)] + Lex(k)
    {
      ScanNumberThen(t[1..], k);
      assert [] + k == k;
      LexToken(t, NumberToken, k);
    }
  }

  lemma {:induction false} SkipAllDigits(d: Text)
    requires forall i :: 0 <= i < |d| ==> IsDigit(d[i])
    ensures SkipDigits(d) == []
  {
    if d != [] {
      SkipAllDigits(d[1..]);
    }
  }

  lemma NumberSpells(c: Byte, d: Text)
    requires (IsDigit(c) || c == MINUS) && forall i :: 0 <= i < |d| ==> IsDigit(d[i])
    ensures Spells([c] + d, [Token(NumberToken, [c] + d)])
  {
    hide Spells;
    SkipAllDigits(d);
    assert ([c] + d)[1..] == d;
    NumberTextSpells([c] + d);
  }

  // ---------------------------------------------------------------- what the tokens look like

  /** A string token is a body between two quotes; the decoder is only ever given such tokens. */
  lemma StringTokenShape(s: Text)
    requires NextToken(s).token.kind == StringToken
    ensures var text := NextToken(s).token.text;
            |text| >= 2 && text[0] == QUOTE && text[|text| - 1] == QUOTE && Body(text[1..|text| - 1])
  {
    hide ScanString, ScanComment, ScanNumber, ScanWord, Body, SkipSpaces, Lex;
    var t := SkipSpaces(s);
    var text, rest := NextToken(s).token.text, NextToken(s).rest;
    ScanMeansBody(t[1..]);
    assert text[1..|text| - 1] == t[1..][..|text| - 2];
  }
}
