/** The tokens of the reader, byte by byte: what stands between tokens, where each kind of token begins and
    ends, and what is no token. Nothing here is said in terms of the scanning functions. */
module Lexemes {
  import opened Bytes
  import opened Unquoting
  import opened Lexer

  // ---------------------------------------------------------------- between tokens

  predicate IsBlank(b: Byte) {
    b == 0x20 || b == 0x09 || b == 0x0A || b == 0x0D
  }

  /** Spaces, tabs and line ends between tokens make no difference. */
  lemma BlanksAreSkipped(s: Text, k: Text)
    requires forall i :: 0 <= i < |s| ==> IsBlank(s[i])
    ensures NextToken(s + k) == NextToken(k) && Lex(s + k) == Lex(k)
  {
    hide NextToken;
    SkipBlank(s, k);
    NextTokenAfterSpaces(s + k);
    NextTokenAfterSpaces(k);
  }

  /** Any other byte begins a token, which is not empty, and what follows the token is what is read next. */
  lemma OthersBeginTokens(s: Text)
    requires s != [] && !IsBlank(s[0])
    ensures var n := NextToken(s); n.token.text != [] && n.token.text + n.rest == s
    ensures Lex(s) == [NextToken(s).token] + Lex(NextToken(s).rest)
  {
    TokenIsFront(s[0], s[1..]);
    StartsHere(s);
    hide ScanToken, NextToken, SkipSpaces;
    var rest := NextToken(s).rest;
    assert s[..|s| - |rest|] + s[|s| - |rest|..] == s;
    assert s[1..][|s| - 1 - |rest|..] == s[|s| - |rest|..];
  }

  lemma StartsHere(s: Text)
    requires s != [] && !IsBlank(s[0])
    ensures var n, r := NextToken(s), ScanToken(s[0], s[1..]);
            SkipSpaces(s) == s && n.rest == r.rest && n.token.text == s[..|s| - |r.rest|]
  {
    hide ScanToken;
  }

  /** Nothing is lost at the end of a token. */
  predicate Ends(rest: Text, s: Text) {
    |rest| <= |s| && rest == s[|s| - |rest|..]
  }

  lemma EndsTwice(r: Text, s: Text, t: Text)
    requires Ends(r, s) && Ends(s, t)
    ensures Ends(r, t)
  {
  }

  lemma TokenIsFront(c: Byte, s: Text)
    ensures Ends(ScanToken(c, s).rest, s)
  {
    hide ScanString, ScanComment, ScanNumber, ScanWord, SingleKind, Ends;
    StringIsFront(s);
    CommentIsFront(s);
    NumberIsFront(s);
    WordIsFront(s, TRUE_TEXT[1..]);
    WordIsFront(s, FALSE_TEXT[1..]);
    WordIsFront(s, NULL_TEXT[1..]);
    AllIsFront(s);
  }

  lemma AllIsFront(s: Text)
    ensures Ends(s, s)
  {
  }

  lemma WordIsFront(s: Text, word: Text)
    ensures Ends(ScanWord(s, word).rest, s)
  {
  }

  lemma {:induction false} StringIsFront(s: Text)
    ensures Ends(ScanString(s).rest, s)
  {
    if s == [] {
    } else if s[0] == BACKSLASH {
      if |s| > 1 {
        StringIsFront(s[2..]);
      }
    } else if s[0] != QUOTE {
      StringIsFront(s[1..]);
    }
  }

  lemma CommentIsFront(s: Text)
    ensures Ends(ScanComment(s).rest, s)
  {
    if s != [] {
      BlockIsFront(s[1..]);
      LineIsFront(s[1..]);
    }
  }

  lemma {:induction false} BlockIsFront(s: Text)
    ensures Ends(ScanBlockComment(s).rest, s)
  {
    if |s| > 1 {
      BlockIsFront(s[1..]);
    }
  }

  lemma {:induction false} LineIsFront(s: Text)
    ensures Ends(ScanLineComment(s), s)
  {
    if s != [] {
      LineIsFront(s[1..]);
    }
  }

  lemma {:induction false} DigitsAreFront(s: Text)
    ensures Ends(SkipDigits(s), s)
  {
    if s != [] {
      DigitsAreFront(s[1..]);
    }
  }

  lemma NumberIsFront(s: Text)
    ensures Ends(ScanNumber(s), s)
  {
    hide SkipDigits, Ends, ScanFraction, ScanExponent;
    var s1 := SkipDigits(s);
    var s2 := ScanFraction(s1);
    DigitsAreFront(s);
    FractionIsFront(s1);
    ExponentIsFront(s2);
    EndsTwice(s2, s1, s);
    EndsTwice(ScanExponent(s2), s2, s);
  }

  lemma FractionIsFront(s: Text)
    ensures Ends(ScanFraction(s), s)
  {
    hide SkipDigits;
    if s != [] {
      DigitsAreFront(s[1..]);
    }
  }

  lemma ExponentIsFront(s: Text)
    ensures Ends(ScanExponent(s), s)
  {
    hide SkipDigits;
    if |s| > 0 {
      DigitsAreFront(s[1..]);
    }
    if |s| > 1 {
      DigitsAreFront(s[2..]);
    }
  }

  // ---------------------------------------------------------------- tokens without a choice

  /** A byte of punctuation is a token of its own; a zero byte passes for the end of the stream. */
  lemma Punctuation(k: Text)
    ensures NextToken([0x7B] + k) == Front(Token(ObjectBegin, [0x7B]), k)
    ensures NextToken([0x7D] + k) == Front(Token(ObjectEnd, [0x7D]), k)
    ensures NextToken([0x5B] + k) == Front(Token(ArrayBegin, [0x5B]), k)
    ensures NextToken([0x5D] + k) == Front(Token(ArrayEnd, [0x5D]), k)
    ensures NextToken([0x2C] + k) == Front(Token(ArraySeparator, [0x2C]), k)
    ensures NextToken([0x3A] + k) == Front(Token(MemberSeparator, [0x3A]), k)
    ensures NextToken([0x00] + k) == Front(Token(EndOfStream, [0x00]), k)
  {
    hide NextToken;
    OneByte(0x7B, ObjectBegin, k);
    OneByte(0x7D, ObjectEnd, k);
    OneByte(0x5B, ArrayBegin, k);
    OneByte(0x5D, ArrayEnd, k);
    OneByte(0x2C, ArraySeparator, k);
    OneByte(0x3A, MemberSeparator, k);
    OneByte(0x00, EndOfStream, k);
  }

  lemma OneByte(c: Byte, kind: Kind, k: Text)
    requires !IsSpace(c) && ScanToken(c, k) == Lexed(kind, k)
    ensures NextToken([c] + k) == Front(Token(kind, [c]), k)
  {
    hide NextToken, ScanToken;
    assert [c][1..] + k == k;
    FrontToken([c], kind, k);
  }

  predicate BeginsToken(b: Byte) {
    || b == 0x22 || b == 0x2F || b == 0x2D || 0x30 <= b <= 0x39
    || b == 0x74 || b == 0x66 || b == 0x6E
    || b == 0x7B || b == 0x7D || b == 0x5B || b == 0x5D || b == 0x2C || b == 0x3A || b == 0x00
  }

  /** A byte that begins nothing else is an error of its own. */
  lemma StrayByte(b: Byte, k: Text)
    requires !IsBlank(b) && !BeginsToken(b)
    ensures NextToken([b] + k) == Front(Token(ErrorToken, [b]), k)
  {
    hide NextToken;
    OneByte(b, ErrorToken, k);
  }

  /** The three words, whatever follows them. */
  lemma Words(k: Text)
    ensures NextToken(Ascii("true") + k) == Front(Token(TrueToken, Ascii("true")), k)
    ensures NextToken(Ascii("false") + k) == Front(Token(FalseToken, Ascii("false")), k)
    ensures NextToken(Ascii("null") + k) == Front(Token(NullToken, Ascii("null")), k)
  {
    hide NextToken, ScanToken;
    assert Ascii("true") == TRUE_TEXT && Ascii("false") == FALSE_TEXT && Ascii("null") == NULL_TEXT;
    OneWord(TRUE_TEXT, TrueToken, k);
    OneWord(FALSE_TEXT, FalseToken, k);
    OneWord(NULL_TEXT, NullToken, k);
  }

  lemma OneWord(word: Text, kind: Kind, k: Text)
    requires (word == TRUE_TEXT && kind == TrueToken) || (word == FALSE_TEXT && kind == FalseToken)
          || (word == NULL_TEXT && kind == NullToken)
    ensures NextToken(word + k) == Front(Token(kind, word), k)
  {
    hide NextToken, ScanString, ScanComment, ScanNumber;
    var s := word[1..] + k;
    assert s[..|word| - 1] == word[1..] && s[|word| - 1..] == k;
    FrontToken(word, kind, k);
  }

  /** A byte that begins a word, but not the whole word, is an error of its own. */
  lemma BrokenWord(b: Byte, k: Text)
    requires b == 0x74 || b == 0x66 || b == 0x6E
    requires !(Ascii("true") <= [b] + k) && !(Ascii("false") <= [b] + k) && !(Ascii("null") <= [b] + k)
    ensures NextToken([b] + k) == Front(Token(ErrorToken, [b]), k)
  {
    hide NextToken, ScanString, ScanComment, ScanNumber;
    var word := if b == 0x74 then Ascii("true") else if b == 0x66 then Ascii("false") else Ascii("null");
    assert word == if b == 0x74 then TRUE_TEXT else if b == 0x66 then FALSE_TEXT else NULL_TEXT;
    WordInFront(word, k);
    OneByte(b, ErrorToken, k);
  }

  lemma WordInFront(word: Text, k: Text)
    requires word != []
    ensures word <= [word[0]] + k <==> |k| >= |word| - 1 && k[..|word| - 1] == word[1..]
  {
    var s := [word[0]] + k;
    if |k| >= |word| - 1 {
      assert s[..|word|] == [word[0]] + k[..|word| - 1];
      assert word == [word[0]] + word[1..];
      assert s[..|word|][1..] == k[..|word| - 1];
    }
  }

  // ---------------------------------------------------------------- numbers

  predicate Digital(s: Text) {
    forall i :: 0 <= i < |s| ==> 0x30 <= s[i] <= 0x39
  }

  /** The parts of a number: digits before and after the point, and the exponent's letter, sign and digits. */
  datatype Number = Number(minus: bool, whole: Text, point: bool, fraction: Text, letter: Text, sign: Text, power: Text)
  {
    predicate Valid() {
      && Digital(whole) && Digital(fraction) && Digital(power)
      && (minus || whole != []) && (point || fraction == [])
      && (letter == [] || letter == [0x65] || letter == [0x45])
      && (sign == [] || sign == [0x2B] || sign == [0x2D])
      && (letter == [] ==> sign == [] && power == [])
    }

    function Fraction(): Text {
      if point then [0x2E] + fraction else []
    }

    function Exponent(): Text {
      letter + (sign + power)
    }

    function Spelled(): Text {
      (if minus then [0x2D] else []) + (whole + (Fraction() + Exponent()))
    }

    /** A byte that would be read as part of this number if it came next. */
    predicate Continues(b: Byte) {
      || 0x30 <= b <= 0x39
      || (b == 0x2E && !point && letter == [])
      || ((b == 0x65 || b == 0x45) && letter == [])
      || ((b == 0x2B || b == 0x2D) && letter != [] && sign == [] && power == [])
    }

    predicate EndsBefore(k: Text) {
      k == [] || !Continues(k[0])
    }
  }

  lemma {:induction false} DigitsEnd(d: Text, k: Text)
    requires Digital(d) && (k == [] || !(0x30 <= k[0] <= 0x39))
    ensures SkipDigits(d + k) == k
  {
    if d == [] {
      assert d + k == k;
    } else {
      DigitsEnd(d[1..], k);
      assert (d + k)[1..] == d[1..] + k;
    }
  }

  lemma ExponentEnds(n: Number, k: Text)
    requires n.Valid() && n.EndsBefore(k)
    ensures ScanExponent(n.Exponent() + k) == k
  {
    hide SkipDigits;
    var s := n.Exponent() + k;
    if n.letter == [] {
      assert s == k;
    } else {
      DigitsEnd(n.power, k);
      assert s == n.letter + (n.sign + (n.power + k));
      assert s[1..] == n.sign + (n.power + k);
      if n.sign == [] {
        assert s[1..] == n.power + k;
      } else {
        assert s[2..] == n.power + k;
      }
    }
  }

  lemma FractionEnds(n: Number, k: Text)
    requires n.Valid() && n.EndsBefore(k)
    ensures ScanFraction(n.Fraction() + (n.Exponent() + k)) == n.Exponent() + k
  {
    hide SkipDigits;
    var tail := n.Exponent() + k;
    ExponentStart(n, k);
    if n.point {
      assert n.Fraction() + tail == [0x2E] + (n.fraction + tail);
      assert ([0x2E] + (n.fraction + tail))[1..] == n.fraction + tail;
      DigitsEnd(n.fraction, tail);
    } else {
      assert n.Fraction() + tail == tail;
    }
  }

  lemma ExponentStart(n: Number, k: Text)
    requires n.Valid() && n.EndsBefore(k)
    ensures var tail := n.Exponent() + k;
            tail == [] || (!(0x30 <= tail[0] <= 0x39) && (tail[0] != 0x2E || n.point))
  {
    var tail := n.Exponent() + k;
    if n.letter == [] {
      assert tail == k;
    } else {
      assert tail[0] == n.letter[0];
    }
  }

  lemma NumberEnds(n: Number, k: Text)
    requires n.Valid() && n.EndsBefore(k)
    ensures ScanNumber(n.whole + (n.Fraction() + (n.Exponent() + k))) == k
  {
    hide SkipDigits, ScanFraction, ScanExponent;
    var tail := n.Fraction() + (n.Exponent() + k);
    ExponentStart(n, k);
    if n.point {
      assert tail[0] == 0x2E;
    } else {
      assert tail == n.Exponent() + k;
    }
    DigitsEnd(n.whole, tail);
    FractionEnds(n, k);
    ExponentEnds(n, k);
  }

  /** A number is one token in front of anything that does not continue it. */
  lemma NumbersAreTokens(n: Number, k: Text)
    requires n.Valid() && n.EndsBefore(k)
    ensures NextToken(n.Spelled() + k) == Front(Token(NumberToken, n.Spelled()), k)
  {
    hide ScanNumber, ScanString, ScanComment, NextToken;
    var t := n.Spelled();
    var tail := n.Fraction() + n.Exponent();
    Assoc(n.Fraction(), n.Exponent(), k);
    Assoc(n.whole, tail, k);
    NumberEnds(n, k);
    if n.minus {
      assert t[1..] == n.whole + tail;
    } else {
      assert t == n.whole + tail;
      assert t[0] == n.whole[0] && t[1..] + k == (n.whole + (tail + k))[1..];
      AfterFirstDigit(n.whole + (tail + k));
    }
    FrontToken(t, NumberToken, k);
  }

  /** It does not matter that the first digit has been taken before the scan. */
  lemma AfterFirstDigit(s: Text)
    requires s != [] && 0x30 <= s[0] <= 0x39
    ensures ScanNumber(s[1..]) == ScanNumber(s)
  {
  }

  /** The digits at the front. */
  lemma {:induction false} DigitsBefore(s: Text) returns (d: Text)
    ensures Digital(d) && s == d + SkipDigits(s)
    ensures s != [] && 0x30 <= s[0] <= 0x39 ==> d != []
  {
    if s != [] && 0x30 <= s[0] <= 0x39 {
      var more := DigitsBefore(s[1..]);
      d := [s[0]] + more;
    } else {
      d := [];
    }
  }

  lemma FractionBefore(s: Text) returns (point: bool, fraction: Text)
    ensures Digital(fraction) && (point || fraction == [])
    ensures s == (if point then [0x2E] + fraction else []) + ScanFraction(s)
    ensures ScanFraction(s) != [] ==>
              (point ==> !(0x30 <= ScanFraction(s)[0] <= 0x39)) && (!point ==> ScanFraction(s)[0] != 0x2E)
  {
    hide SkipDigits;
    point, fraction := s != [] && s[0] == 0x2E, [];
    if point {
      fraction := DigitsBefore(s[1..]);
    }
  }

  lemma ExponentBefore(s: Text) returns (letter: Text, sign: Text, power: Text)
    ensures Digital(power) && (letter == [] || letter == [0x65] || letter == [0x45])
    ensures (sign == [] || sign == [0x2B] || sign == [0x2D]) && (letter == [] ==> sign == [] && power == [])
    ensures s == letter + (sign + power) + ScanExponent(s)
    ensures ScanExponent(s) != [] ==>
              var b := ScanExponent(s)[0];
              if letter == [] then b != 0x65 && b != 0x45
              else !(0x30 <= b <= 0x39) && (sign == [] && power == [] ==> b != 0x2B && b != 0x2D)
  {
    hide SkipDigits;
    letter, sign, power := [], [], [];
    if s != [] && (s[0] == 0x65 || s[0] == 0x45) {
      letter := [s[0]];
      if |s| >= 2 && (s[1] == 0x2B || s[1] == 0x2D) {
        sign := [s[1]];
        power := DigitsBefore(s[2..]);
      } else {
        power := DigitsBefore(s[1..]);
        assert s[1..] == power + ScanExponent(s);
      }
    }
  }

  lemma NumberTokenScan(s: Text)
    requires NextToken(s).token.kind == NumberToken
    ensures var t, n := SkipSpaces(s), NextToken(s);
            && t != [] && (t[0] == 0x2D || 0x30 <= t[0] <= 0x39) && n.rest == ScanNumber(t[1..])
            && n.token.text == t[..|t| - |n.rest|]
  {
    hide SkipSpaces, ScanNumber, ScanString, ScanComment, ScanWord;
  }

  /** The parts of what the scan takes, and why it takes no more. */
  lemma PartsBefore(minus: bool, body: Text) returns (n: Number)
    requires minus || (body != [] && 0x30 <= body[0] <= 0x39)
    ensures n.minus == minus && n.Valid() && n.EndsBefore(ScanNumber(body))
    ensures body == n.whole + (n.Fraction() + n.Exponent()) + ScanNumber(body)
  {
    hide SkipDigits, ScanFraction, ScanExponent;
    var whole := DigitsBefore(body);
    var s1 := SkipDigits(body);
    var point, fraction := FractionBefore(s1);
    var s2 := ScanFraction(s1);
    var letter, sign, power := ExponentBefore(s2);
    var rest := ScanExponent(s2);
    n := Number(minus, whole, point, fraction, letter, sign, power);
    Assoc(n.Fraction(), n.Exponent(), rest);
    Assoc(whole, n.Fraction() + n.Exponent(), rest);
  }

  /** Every number token is spelled by the parts of a number, and what follows does not continue it. */
  lemma TokensAreNumbers(s: Text) returns (n: Number)
    requires NextToken(s).token.kind == NumberToken
    ensures n.Valid() && n.Spelled() == NextToken(s).token.text && n.EndsBefore(NextToken(s).rest)
  {
    hide SkipSpaces, ScanNumber, NextToken;
    NumberTokenScan(s);
    var t := SkipSpaces(s);
    var minus := t[0] == 0x2D;
    var body := if minus then t[1..] else t;
    if !minus {
      AfterFirstDigit(t);
    }
    n := PartsBefore(minus, body);
    var rest := ScanNumber(body);
    var sign: Text := if minus then [0x2D] else [];
    Assoc(sign, n.whole + (n.Fraction() + n.Exponent()), rest);
    assert t == n.Spelled() + rest;
    assert t[..|t| - |rest|] == n.Spelled();
  }

  // ---------------------------------------------------------------- comments

  /** A star and a slash, from position `i` on. */
  predicate ClosesAt(s: Text, i: nat) {
    i + 1 < |s| && s[i] == 0x2A && s[i + 1] == 0x2F
  }

  ghost predicate Closes(s: Text) {
    exists i: nat :: ClosesAt(s, i)
  }

  lemma {:induction false} BlockCloses(s: Text, i: nat)
    requires ClosesAt(s, i) && forall j: nat :: j < i ==> !ClosesAt(s, j)
    ensures ScanBlockComment(s) == Scan(true, s[i + 2..])
  {
    if i > 0 {
      assert !ClosesAt(s, 0);
      forall j: nat | j < i - 1
        ensures !ClosesAt(s[1..], j)
      {
        assert !ClosesAt(s, j + 1);
      }
      BlockCloses(s[1..], i - 1);
    }
  }

  lemma {:induction false} BlockStaysOpen(s: Text)
    requires !Closes(s)
    ensures ScanBlockComment(s) == Scan(s != [] && s[|s| - 1] == 0x2F, [])
  {
    if |s| > 1 {
      assert !ClosesAt(s, 0);
      if i: nat :| ClosesAt(s[1..], i) {
        assert ClosesAt(s, i + 1);
      }
      BlockStaysOpen(s[1..]);
    }
  }

  /** A block comment goes from a slash and a star to the first star and slash after them. */
  lemma BlockComment(b: Text, k: Text)
    requires forall j: nat :: j < |b| ==> !ClosesAt(b + [0x2A, 0x2F], j)
    ensures var t := [0x2F, 0x2A] + b + [0x2A, 0x2F];
            NextToken(t + k) == Front(Token(Comment, t), k)
  {
    hide ScanBlockComment, ScanNumber, ScanString, NextToken;
    var t := [0x2F, 0x2A] + b + [0x2A, 0x2F];
    var s := b + [0x2A, 0x2F] + k;
    assert ClosesAt(s, |b|);
    forall j: nat | j < |b|
      ensures !ClosesAt(s, j)
    {
      assert !ClosesAt(b + [0x2A, 0x2F], j);
      assert s[j] == (b + [0x2A, 0x2F])[j] && s[j + 1] == (b + [0x2A, 0x2F])[j + 1];
    }
    BlockCloses(s, |b|);
    assert s[|b| + 2..] == k;
    assert t[1..] + k == [0x2A] + s;
    assert ([0x2A] + s)[1..] == s;
    FrontToken(t, Comment, k);
  }

  /** One that is never closed takes the rest of the document; it counts as a comment only when the very last
      byte is a slash. */
  lemma OpenComment(s: Text)
    requires !Closes(s)
    ensures var t := [0x2F, 0x2A] + s;
            NextToken(t) == Front(Token(if s != [] && s[|s| - 1] == 0x2F then Comment else ErrorToken, t), [])
  {
    hide ScanBlockComment, ScanNumber, ScanString, NextToken;
    var t := [0x2F, 0x2A] + s;
    BlockStaysOpen(s);
    assert t[1..] + [] == [0x2A] + s && ([0x2A] + s)[1..] == s && t + [] == t;
    FrontToken(t, if s != [] && s[|s| - 1] == 0x2F then Comment else ErrorToken, []);
  }

  /** The end of a line in each of its forms. */
  predicate LineEnd(e: Text, k: Text) {
    e == [0x0A] || e == [0x0D, 0x0A] || (e == [0x0D] && (k == [] || k[0] != 0x0A)) || (e == [] && k == [])
  }

  lemma {:induction false} LineEnds(b: Text, e: Text, k: Text)
    requires LineEnd(e, k) && forall i :: 0 <= i < |b| ==> b[i] != 0x0A && b[i] != 0x0D
    ensures ScanLineComment(b + (e + k)) == k
  {
    var s := b + (e + k);
    if b == [] {
      assert s == e + k;
      if e == [] {
        assert s == k;
      }
    } else {
      LineEnds(b[1..], e, k);
      assert s[1..] == b[1..] + (e + k);
    }
  }

  /** A line comment goes from two slashes to the end of the line, the line end included. */
  lemma LineComment(b: Text, e: Text, k: Text)
    requires LineEnd(e, k) && forall i :: 0 <= i < |b| ==> b[i] != 0x0A && b[i] != 0x0D
    ensures var t := [0x2F, 0x2F] + (b + e);
            NextToken(t + k) == Front(Token(Comment, t), k)
  {
    hide ScanLineComment, ScanNumber, ScanString, NextToken;
    var t := [0x2F, 0x2F] + (b + e);
    LineEnds(b, e, k);
    Assoc(b, e, k);
    assert t[1..] + k == [0x2F] + (b + (e + k));
    assert ([0x2F] + (b + (e + k)))[1..] == b + (e + k);
    FrontToken(t, Comment, k);
  }

  /** A slash with neither a star nor a slash after it is an error, together with that byte. */
  lemma LoneSlash(k: Text)
    requires k == [] || (k[0] != 0x2A && k[0] != 0x2F)
    ensures NextToken([0x2F] + k)
         == if k == [] then Front(Token(ErrorToken, [0x2F]), []) else Front(Token(ErrorToken, [0x2F, k[0]]), k[1..])
  {
    hide ScanNumber, ScanString;
    var s := [0x2F] + k;
    assert SkipSpaces(s) == s && s[1..] == k;
    assert k != [] ==> s[..2] == [0x2F, k[0]];
  }

  // ---------------------------------------------------------------- strings

  /** How many backslashes stand directly before position `i`. */
  function Backslashes(s: Text, i: nat): nat
    requires i <= |s|
  {
    if i > 0 && s[i - 1] == 0x5C then 1 + Backslashes(s, i - 1) else 0
  }

  /** A quote that an even number of backslashes precedes: it closes a string. */
  predicate QuoteAt(s: Text, i: nat) {
    i < |s| && s[i] == 0x22 && Backslashes(s, i) % 2 == 0
  }

  lemma {:induction false} BackslashesAfter(s: Text, i: nat)
    requires 0 < i <= |s|
    ensures Backslashes(s, i) == Backslashes(s[1..], i - 1)
                                 + if s[0] == 0x5C && Backslashes(s[1..], i - 1) == i - 1 then 1 else 0
    ensures Backslashes(s, i) <= i
  {
    if i > 1 && s[i - 1] == 0x5C {
      BackslashesAfter(s, i - 1);
    }
  }

  /** Looking at the text from a later position on changes no quote. */
  lemma QuoteAfterOne(s: Text, i: nat)
    requires 0 < i <= |s| && s[0] != 0x5C
    ensures QuoteAt(s, i) <==> QuoteAt(s[1..], i - 1)
  {
    BackslashesAfter(s, i);
  }

  lemma QuoteAfterTwo(s: Text, i: nat)
    requires 1 < i <= |s| && s[0] == 0x5C
    ensures QuoteAt(s, i) <==> QuoteAt(s[2..], i - 2)
  {
    BackslashesAfter(s, i);
    BackslashesAfter(s[1..], i - 1);
    assert s[1..][1..] == s[2..];
    if i > 2 {
      BackslashesAfter(s[2..], i - 2);
    }
  }

  lemma {:induction false} StringCloses(s: Text, i: nat)
    requires QuoteAt(s, i) && forall j: nat :: j < i ==> !QuoteAt(s, j)
    ensures ScanString(s) == Scan(true, s[i + 1..])
  {
    hide QuoteAt;
    QuoteIsThere(s, i);
    if s[0] == 0x5C {
      AfterBackslash(s);
      QuoteAfterTwo(s, i);
      forall j: nat | j < i - 2
        ensures !QuoteAt(s[2..], j)
      {
        QuoteAfterTwo(s, j + 2);
      }
      StringCloses(s[2..], i - 2);
    } else if i > 0 {
      NotAtFront(s);
      QuoteAfterOne(s, i);
      forall j: nat | j < i - 1
        ensures !QuoteAt(s[1..], j)
      {
        QuoteAfterOne(s, j + 1);
      }
      StringCloses(s[1..], i - 1);
    }
  }

  lemma QuoteIsThere(s: Text, i: nat)
    requires QuoteAt(s, i)
    ensures i < |s| && s[i] == 0x22
  {
  }

  lemma AfterBackslash(s: Text)
    requires s != [] && s[0] == 0x5C
    ensures !QuoteAt(s, 0) && !QuoteAt(s, 1)
  {
    assert |s| > 1 ==> Backslashes(s, 1) == 1;
  }

  lemma NotAtFront(s: Text)
    requires s != []
    ensures QuoteAt(s, 0) <==> s[0] == 0x22
  {
  }

  lemma {:induction false} StringStaysOpen(s: Text)
    requires forall j: nat :: !QuoteAt(s, j)
    ensures ScanString(s) == Scan(false, [])
  {
    hide QuoteAt;
    if s == [] {
    } else if s[0] == 0x5C {
      if |s| > 1 {
        forall j: nat
          ensures !QuoteAt(s[2..], j)
        {
          if j + 2 <= |s| {
            QuoteAfterTwo(s, j + 2);
          } else {
            PastTheEnd(s[2..], j);
          }
        }
        StringStaysOpen(s[2..]);
      }
    } else {
      NotAtFront(s);
      forall j: nat
        ensures !QuoteAt(s[1..], j)
      {
        if j + 1 <= |s| {
          QuoteAfterOne(s, j + 1);
        } else {
          PastTheEnd(s[1..], j);
        }
      }
      StringStaysOpen(s[1..]);
    }
  }

  lemma PastTheEnd(s: Text, j: nat)
    requires j >= |s|
    ensures !QuoteAt(s, j)
  {
  }

  /** A string goes from a quote to the first quote after it that an even number of backslashes precedes. */
  lemma StringIsToken(s: Text, i: nat)
    requires QuoteAt(s, i) && forall j: nat :: j < i ==> !QuoteAt(s, j)
    ensures NextToken([0x22] + s) == Front(Token(StringToken, [0x22] + s[..i + 1]), s[i + 1..])
  {
    hide ScanString, ScanComment, ScanNumber, NextToken, QuoteAt;
    QuoteIsThere(s, i);
    StringCloses(s, i);
    var t := [0x22] + s[..i + 1];
    assert t + s[i + 1..] == [0x22] + s && t[1..] + s[i + 1..] == s;
    FrontToken(t, StringToken, s[i + 1..]);
  }

  /** Without such a quote the rest of the document is one error. */
  lemma OpenString(s: Text)
    requires forall j: nat :: !QuoteAt(s, j)
    ensures NextToken([0x22] + s) == Front(Token(ErrorToken, [0x22] + s), [])
  {
    hide ScanString, ScanComment, ScanNumber, NextToken, QuoteAt;
    StringStaysOpen(s);
    var t := [0x22] + s;
    assert t[1..] + [] == s && t + [] == t;
    FrontToken(t, ErrorToken, []);
  }
}
