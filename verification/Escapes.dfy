/** Section 7 of RFC 8259, escape by escape and in literal bytes: what the reader makes of each, and which one
    the writer chooses. */
module Escapes {
  import opened Bytes
  import opened Utf8
  import opened Quoting
  import opened Unquoting

  // ---------------------------------------------------------------- the tables

  /** The letters of two-character escapes and the bytes they stand for. */
  predicate StandsFor(letter: Byte, b: Byte) {
    || (letter == 0x22 && b == 0x22)
    || (letter == 0x5C && b == 0x5C)
    || (letter == 0x2F && b == 0x2F)
    || (letter == 0x62 && b == 0x08)
    || (letter == 0x66 && b == 0x0C)
    || (letter == 0x6E && b == 0x0A)
    || (letter == 0x72 && b == 0x0D)
    || (letter == 0x74 && b == 0x09)
  }

  /** The digit `d` has the value `n`, in lower or in upper case. */
  predicate LowerHex(d: Byte, n: nat) {
    n < 16 && d == Ascii("0123456789abcdef")[n]
  }

  predicate AnyHex(d: Byte, n: nat) {
    LowerHex(d, n) || (n < 16 && d == Ascii("0123456789ABCDEF")[n])
  }

  predicate IsHex(d: Byte) {
    0x30 <= d <= 0x39 || 0x41 <= d <= 0x46 || 0x61 <= d <= 0x66
  }

  /** Four digits, the highest first, and the number they denote. */
  datatype Quad = Quad(a: nat, b: nat, c: nat, d: nat)
  {
    predicate Valid() {
      a < 16 && b < 16 && c < 16 && d < 16
    }

    function Value(): nat {
      a * 0x1000 + b * 0x100 + c * 0x10 + d
    }

    predicate Spelled(t: Text) {
      |t| == 4 && AnyHex(t[0], a) && AnyHex(t[1], b) && AnyHex(t[2], c) && AnyHex(t[3], d)
    }

    predicate SpelledLower(t: Text) {
      |t| == 4 && LowerHex(t[0], a) && LowerHex(t[1], b) && LowerHex(t[2], c) && LowerHex(t[3], d)
    }
  }

  // ---------------------------------------------------------------- the reader

  /** A byte that is neither a quote nor a backslash stands for itself. */
  lemma PlainByteDecodes(b: Byte, s: Text)
    requires b != 0x22 && b != 0x5C
    ensures DecodeBody([b] + s) == Prepend([b], DecodeBody(s))
  {
    assert ([b] + s)[1..] == s;
  }

  /** Each of the eight two-character escapes stands for its byte. */
  lemma ShortEscapeDecodes(letter: Byte, b: Byte, s: Text)
    requires StandsFor(letter, b)
    ensures DecodeBody([0x5C, letter] + s) == Prepend([b], DecodeBody(s))
  {
    assert ([0x5C, letter] + s)[2..] == s;
  }

  /** A backslash in front of any other letter, or of nothing, is an error. */
  lemma OtherEscapeFails(letter: Byte, s: Text)
    requires letter != 0x75 && forall b: Byte :: !StandsFor(letter, b)
    ensures DecodeBody([0x5C, letter] + s) == BadString(BadEscape)
    ensures DecodeBody([0x5C]) == BadString(EmptyEscape)
  {
    assert !StandsFor(letter, 0x22) && !StandsFor(letter, 0x5C) && !StandsFor(letter, 0x2F) && !StandsFor(letter, 0x08);
    assert !StandsFor(letter, 0x0C) && !StandsFor(letter, 0x0A) && !StandsFor(letter, 0x0D) && !StandsFor(letter, 0x09);
  }

  lemma HexDigitHasValue(d: Byte, n: nat)
    requires AnyHex(d, n)
    ensures HexValue(d) == n
  {
  }

  /** Four hexadecimal digits of either case decode to the number they denote. */
  lemma FourDigitsDecode(q: Quad, t: Text, s: Text)
    requires q.Valid() && q.Spelled(t)
    ensures |t| == 4 && DecodeHex4(t + s) == CodePoint(q.Value(), s)
  {
    hide HexValue;
    HexDigitHasValue(t[0], q.a);
    HexDigitHasValue(t[1], q.b);
    HexDigitHasValue(t[2], q.c);
    HexDigitHasValue(t[3], q.d);
    assert (t + s)[4..] == s;
  }

  /** Fewer than four digits are an error. */
  lemma BrokenDigitsFail(s: Text)
    ensures |s| < 4 ==> DecodeHex4(s) == BadCodePoint(FourDigitsExpected)
    ensures |s| >= 4 && !(IsHex(s[0]) && IsHex(s[1]) && IsHex(s[2]) && IsHex(s[3])) ==>
              DecodeHex4(s) == BadCodePoint(HexDigitExpected)
  {
  }

  /** An escape with four digits stands for its code point, unless it is a high surrogate. */
  lemma UnicodeEscapeDecodes(q: Quad, t: Text, s: Text)
    requires q.Valid() && q.Spelled(t) && !(0xD800 <= q.Value() <= 0xDBFF)
    ensures DecodeBody([0x5C, 0x75] + t + s) == Prepend(CodePointToUTF8(q.Value()), DecodeBody(s))
  {
    hide DecodeHex4, CodePointToUTF8;
    FourDigitsDecode(q, t, s);
    assert ([0x5C, 0x75] + t + s)[2..] == t + s;
  }

  lemma EscapeBody(head: Text)
    ensures DecodeBody([0x5C, 0x75] + head)
         == match DecodeEscape(head)
            case CodePoint(cp, rest) => Prepend(CodePointToUTF8(cp), DecodeBody(rest))
            case BadCodePoint(error) => BadString(error)
  {
    hide DecodeEscape, CodePointToUTF8;
    assert ([0x5C, 0x75] + head)[2..] == head;
  }

  /** What comes of a high surrogate, depending on what follows its digits. */
  lemma AfterHighSurrogate(head: Text, x: nat, tail: Text)
    requires DecodeHex4(head) == CodePoint(x, tail) && 0xD800 <= x <= 0xDBFF
    ensures |tail| < 6 ==> DecodeEscape(head) == BadCodePoint(SixMoreExpected)
    ensures |tail| >= 6 && !(tail[0] == 0x5C && tail[1] == 0x75) ==>
              DecodeEscape(head) == BadCodePoint(SecondEscapeExpected)
    ensures |tail| >= 6 && tail[0] == 0x5C && tail[1] == 0x75 ==>
              match DecodeHex4(tail[2..])
              case CodePoint(y, rest) =>
                DecodeEscape(head) == CodePoint(0x1_0000 + (x - 0xD800) * 0x400 + y % 0x400, rest)
              case BadCodePoint(error) => DecodeEscape(head) == BadCodePoint(error)
  {
    hide DecodeHex4;
    assert x % 0x400 == x - 0xD800;
  }

  /** A high surrogate and the escape after it stand for one code point, made of ten bits of each. */
  lemma SurrogatesDecode(q: Quad, t: Text, r: Quad, u: Text, s: Text)
    requires q.Valid() && q.Spelled(t) && 0xD800 <= q.Value() <= 0xDBFF && r.Valid() && r.Spelled(u)
    ensures var cp := 0x1_0000 + (q.Value() - 0xD800) * 0x400 + r.Value() % 0x400;
            DecodeBody([0x5C, 0x75] + (t + ([0x5C, 0x75] + (u + s)))) == Prepend(CodePointToUTF8(cp), DecodeBody(s))
  {
    hide DecodeHex4, DecodeEscape, DecodeBody, CodePointToUTF8, Quad.Value, Quad.Spelled, Prepend;
    var second := [0x5C, 0x75] + (u + s);
    FourDigitsDecode(q, t, second);
    FourDigitsDecode(r, u, s);
    assert second[2..] == u + s;
    EscapeBody(t + second);
    AfterHighSurrogate(t + second, q.Value(), second);
  }

  /** A high surrogate without a whole escape after it is an error. */
  lemma LoneSurrogateFails(q: Quad, t: Text, s: Text)
    requires q.Valid() && q.Spelled(t) && 0xD800 <= q.Value() <= 0xDBFF
    ensures |s| < 6 ==> DecodeBody([0x5C, 0x75] + (t + s)) == BadString(SixMoreExpected)
    ensures |s| >= 6 && !(s[0] == 0x5C && s[1] == 0x75) ==>
              DecodeBody([0x5C, 0x75] + (t + s)) == BadString(SecondEscapeExpected)
    ensures |s| >= 6 && s[0] == 0x5C && s[1] == 0x75 && !(IsHex(s[2]) && IsHex(s[3]) && IsHex(s[4]) && IsHex(s[5])) ==>
              DecodeBody([0x5C, 0x75] + (t + s)) == BadString(HexDigitExpected)
  {
    hide DecodeHex4, DecodeEscape, DecodeBody, CodePointToUTF8, Quad.Value, Quad.Spelled, IsHex;
    FourDigitsDecode(q, t, s);
    EscapeBody(t + s);
    AfterHighSurrogate(t + s, q.Value(), s);
    if |s| >= 6 {
      BrokenDigitsFail(s[2..]);
    }
  }

  // ---------------------------------------------------------------- the writer

  /** Printable ASCII without quotes and backslashes is written as it is. */
  lemma {:induction false} PlainTextIsQuotedAsItIs(s: Text)
    requires forall i :: 0 <= i < |s| ==> 0x20 <= s[i] <= 0x7F && s[i] != 0x22 && s[i] != 0x5C
    ensures Quoted(s) == [0x22] + s + [0x22]
  {
    PlainBody(s);
  }

  lemma {:induction false} PlainBody(s: Text)
    requires forall i :: 0 <= i < |s| ==> 0x20 <= s[i] <= 0x7F && s[i] != 0x22 && s[i] != 0x5C
    ensures QuoteBody(s) == s
  {
    if s != [] {
      PlainBody(s[1..]);
      hide DecodeUnit;
      assert s == [s[0]] + s[1..];
    }
  }

  /** The seven bytes that have a two-character escape get it; the slash does not. */
  lemma ShortEscapeIsWritten(letter: Byte, b: Byte, s: Text)
    requires StandsFor(letter, b) && b != 0x2F
    ensures QuoteBody([b] + s) == [0x5C, letter] + QuoteBody(s)
  {
    var t := [b] + s;
    assert DecodeUnit(t) == Unit(b, 1);
    hide DecodeUnit;
    assert t[1..] == s;
  }

  lemma LowerHexDigit(n: nat)
    requires n < 16
    ensures LowerHex(HexDigit(n), n)
  {
  }

  lemma EscapeSpells(x: nat, q: Quad)
    requires x < 0x1_0000 && q.Valid() && q.Value() == x
    ensures q.SpelledLower(ToHex16Bit(x)) && UnicodeEscape(x) == [0x5C, 0x75] + ToHex16Bit(x)
  {
    hide HexDigit, LowerHex;
    var hi, lo := x / 0x100, x % 0x100;
    assert hi == q.a * 0x10 + q.b && lo == q.c * 0x10 + q.d;
    assert hi / 0x10 == q.a && hi % 0x10 == q.b && lo / 0x10 == q.c && lo % 0x10 == q.d;
    LowerHexDigit(q.a);
    LowerHexDigit(q.b);
    LowerHexDigit(q.c);
    LowerHexDigit(q.d);
  }

  /** The other control bytes, and units beyond ASCII up to U+FFFF, are written as one escape with four digits
      in lower case. */
  lemma UnitIsOneEscape(s: Text, q: Quad) returns (t: Text)
    requires s != [] && q.Valid() && q.Value() == DecodeUnit(s).cp
    requires s[0] >= 0x80 || (s[0] < 0x20 && forall letter: Byte :: !StandsFor(letter, s[0]))
    ensures q.SpelledLower(t) && QuoteBody(s) == [0x5C, 0x75] + t + QuoteBody(s[DecodeUnit(s).used..])
  {
    hide ToHex16Bit, UnicodeEscape;
    t := ToHex16Bit(q.Value());
    EscapeSpells(q.Value(), q);
    NoShortEscape(s[0]);
    hide DecodeUnit, Quad.SpelledLower, Quad.Value;
  }

  lemma NoShortEscape(b: Byte)
    requires b >= 0x80 || (b < 0x20 && forall letter: Byte :: !StandsFor(letter, b))
    ensures ShortEscape(b) == 0
  {
    if b < 0x20 {
      assert !StandsFor(0x62, b) && !StandsFor(0x66, b) && !StandsFor(0x6E, b) && !StandsFor(0x72, b)
          && !StandsFor(0x74, b);
    }
  }

  /** A unit beyond U+FFFF is written as two escapes, each with ten bits of what is above U+FFFF. */
  lemma UnitIsTwoEscapes(s: Text, q: Quad, r: Quad) returns (t: Text, u: Text)
    requires s != [] && DecodeUnit(s).cp >= 0x1_0000 && q.Valid() && r.Valid()
    requires 0xDC00 <= r.Value() <= 0xDFFF
    requires DecodeUnit(s).cp == 0x1_0000 + (q.Value() - 0xD800) * 0x400 + (r.Value() - 0xDC00)
    ensures q.SpelledLower(t) && r.SpelledLower(u)
    ensures QuoteBody(s) == [0x5C, 0x75] + t + ([0x5C, 0x75] + u) + QuoteBody(s[DecodeUnit(s).used..])
  {
    var x, y := q.Value(), r.Value();
    t, u := ToHex16Bit(x), ToHex16Bit(y);
    EscapeSpells(x, q);
    EscapeSpells(y, r);
    BeyondIsPair(s, x, y);
    hide DecodeUnit, QuoteBody, ToHex16Bit, UnicodeEscape, Quad.SpelledLower, Quad.Value;
  }

  lemma BeyondIsPair(s: Text, x: nat, y: nat)
    requires s != [] && DecodeUnit(s).cp >= 0x1_0000 && x < 0x1_0000 && 0xDC00 <= y <= 0xDFFF
    requires DecodeUnit(s).cp == 0x1_0000 + (x - 0xD800) * 0x400 + (y - 0xDC00)
    ensures QuoteBody(s) == UnicodeEscape(x) + UnicodeEscape(y) + QuoteBody(s[DecodeUnit(s).used..])
  {
    assert s[0] >= 0x80;
    NoShortEscape(s[0]);
    hide DecodeUnit, UnicodeEscape;
    var cp := DecodeUnit(s).cp;
    assert (cp - 0x1_0000) / 0x400 == x - 0xD800 && (cp - 0x1_0000) % 0x400 == y - 0xDC00;
  }

}
