/** Writing a byte string as a JSON string literal (section 7 of RFC 8259). */
module Quoting {
  import opened Bytes
  import opened Utf8

  /** The digit of a value below 16, in lower case as in the writer's table. */
  function HexDigit(n: nat): (b: Byte)
    requires n < 0x10
    ensures n < 10 ==> b == ZERO + n
    ensures n >= 10 ==> b == 0x61 + n - 10
  {
    if n < 10 then ZERO + n else 0x61 + n - 10
  }

  /** Four hexadecimal digits: the two of the high byte, then the two of the low byte. */
  function ToHex16Bit(x: nat): (t: Text)
    requires x < 0x1_0000
    ensures |t| == 4
  {
    var hi, lo := x / 0x100, x % 0x100;
    [HexDigit(hi / 0x10), HexDigit(hi % 0x10), HexDigit(lo / 0x10), HexDigit(lo % 0x10)]
  }

  function UnicodeEscape(x: nat): (t: Text)
    requires x < 0x1_0000
    ensures |t| == 6
  {
    [BACKSLASH, LETTER_U] + ToHex16Bit(x)
  }

  /** A code point as it appears in a literal: itself, one escape, or a pair of escapes. */
  function EscapeCodePoint(cp: nat): (t: Text)
    requires cp <= 0x1F_FFFF
    ensures t != []
  {
    if 0x20 <= cp < 0x80 then [cp]
    else if cp < 0x1_0000 then UnicodeEscape(cp)
    else UnicodeEscape((cp - 0x1_0000) / 0x400 + 0xD800) + UnicodeEscape((cp - 0x1_0000) % 0x400 + 0xDC00)
  }

  /** The letter after the backslash for the bytes that have a two-character escape, 0 for the rest. */
  function ShortEscape(b: Byte): Byte {
    if b == QUOTE then QUOTE
    else if b == BACKSLASH then BACKSLASH
    else if b == BACKSPACE then 0x62
    else if b == FORM_FEED then 0x66
    else if b == LINE_FEED then 0x6E
    else if b == CARRIAGE_RETURN then 0x72
    else if b == TAB then 0x74
    else 0
  }

  /** The text that stands for the unit at the front of `s`. */
  function QuoteUnit(s: Text): (t: Text)
    requires s != []
    ensures t != []
  {
    if ShortEscape(s[0]) != 0 then [BACKSLASH, ShortEscape(s[0])] else EscapeCodePoint(DecodeUnit(s).cp)
  }

  function QuoteBody(s: Text): Text {
    if s == [] then [] else QuoteUnit(s) + QuoteBody(s[DecodeUnit(s).used..])
  }

  function Quoted(s: Text): Text {
    [QUOTE] + QuoteBody(s) + [QUOTE]
  }

  function SignedChar(b: Byte): int {
    if b < 0x80 then b else b - 0x100
  }

  /** `char` is signed on the target, so a byte from 0x80 up compares below the space. */
  method IsAnyCharRequiredQuoting(s: Text) returns (required: bool)
    ensures required <==> s != []
  {
    for cur := 0 to |s|
      invariant cur == 0
    {
      if s[cur] == BACKSLASH || s[cur] == QUOTE || SignedChar(s[cur]) < SPACE || s[cur] < 0x80 {
        return true;
      }
    }
    return false;
  }

  /** One round of the scan, on the text from position `c` on. */
  lemma QuoteStep(value: Text, c: nat)
    requires c < |value|
    ensures var next := c + DecodeUnit(value[c..]).used;
            next <= |value| && QuoteBody(value[c..]) == QuoteUnit(value[c..]) + QuoteBody(value[next..])
  {
    var u := DecodeUnit(value[c..]);
    assert value[c..][u.used..] == value[c + u.used..];
  }

  method AppendEscaped(result: Text, cp: nat) returns (longer: Text)
    requires cp <= 0x1F_FFFF
    ensures longer == result + EscapeCodePoint(cp)
  {
    if cp < 0x80 && cp >= 0x20 {
      longer := result + [cp];
    } else if cp < 0x1_0000 {
      longer := result + [BACKSLASH, LETTER_U];
      longer := longer + ToHex16Bit(cp);
    } else {
      var offset := cp - 0x1_0000;
      longer := result + [BACKSLASH, LETTER_U];
      longer := longer + ToHex16Bit(offset / 0x400 + 0xD800);
      longer := longer + [BACKSLASH, LETTER_U];
      longer := longer + ToHex16Bit(offset % 0x400 + 0xDC00);
    }
  }

  /** The body of the scan's loop: one byte with a short escape, or one unit. */
  method QuoteNext(value: Text, c: nat, result: Text) returns (longer: Text, last: nat)
    requires c < |value|
    ensures longer == result + QuoteUnit(value[c..])
    ensures last + 1 == c + DecodeUnit(value[c..]).used
  {
    last := c;
    var b := value[c];
    if b == QUOTE {
      longer := result + [BACKSLASH, QUOTE];
    } else if b == BACKSLASH {
      longer := result + [BACKSLASH, BACKSLASH];
    } else if b == BACKSPACE {
      longer := result + [BACKSLASH, 0x62];
    } else if b == FORM_FEED {
      longer := result + [BACKSLASH, 0x66];
    } else if b == LINE_FEED {
      longer := result + [BACKSLASH, 0x6E];
    } else if b == CARRIAGE_RETURN {
      longer := result + [BACKSLASH, 0x72];
    } else if b == TAB {
      longer := result + [BACKSLASH, 0x74];
    } else {
      var cp;
      cp, last := Utf8ToCodepoint(value, c);
      longer := AppendEscaped(result, cp);
    }
  }

  lemma NothingQuoted()
    ensures QuoteBody([]) == []
  {
  }

  method ValueToQuotedStringN(value: Text) returns (result: Text)
    ensures result == Quoted(value)
  {
    hide DecodeUnit, QuoteUnit, QuoteBody;
    NothingQuoted();
    var required := IsAnyCharRequiredQuoting(value);
    if !required {
      return [QUOTE] + value + [QUOTE];
    }
    result := [QUOTE];
    var c := 0;
    ghost var done: Text := [];
    assert value[0..] == value && done + QuoteBody(value) == QuoteBody(value);
    while c != |value|
      invariant c <= |value|
      invariant result == [QUOTE] + done
      invariant QuoteBody(value) == done + QuoteBody(value[c..])
      decreases |value| - c
    {
      QuoteStep(value, c);
      ghost var unit := QuoteUnit(value[c..]);
      result, c := QuoteNext(value, c, result);
      c := c + 1;
      Assoc(done, unit, QuoteBody(value[c..]));
      done := done + unit;
    }
    assert value[c..] == [] && done + [] == done;
    result := result + [QUOTE];
  }

  predicate IsPrintable(t: Text) {
    forall i :: 0 <= i < |t| ==> 0x20 <= t[i] <= 0x7F
  }

  lemma QuoteUnitIsShortAscii(s: Text)
    requires s != []
    ensures |QuoteUnit(s)| <= 6 * DecodeUnit(s).used && IsPrintable(QuoteUnit(s))
  {
    assert DecodeUnit(s).cp >= 0x1_0000 ==> DecodeUnit(s).used == 4;
    hide DecodeUnit, EscapeCodePoint;
    EscapeIsShortAscii(DecodeUnit(s).cp);
  }

  lemma EscapeIsShortAscii(cp: nat)
    requires cp <= 0x1F_FFFF
    ensures |EscapeCodePoint(cp)| <= (if cp < 0x1_0000 then 6 else 12) && IsPrintable(EscapeCodePoint(cp))
  {
    hide UnicodeEscape;
    if cp < 0x1_0000 {
      UnicodeEscapeIsPrintable(cp);
    } else {
      UnicodeEscapeIsPrintable((cp - 0x1_0000) / 0x400 + 0xD800);
      UnicodeEscapeIsPrintable((cp - 0x1_0000) % 0x400 + 0xDC00);
    }
  }

  lemma UnicodeEscapeIsPrintable(x: nat)
    requires x < 0x1_0000
    ensures IsPrintable(UnicodeEscape(x))
  {
  }

  /** A literal is printable ASCII of bounded length, whatever the bytes. */
  lemma {:induction false} QuoteBodyIsShortAscii(s: Text)
    ensures |QuoteBody(s)| <= 6 * |s| && IsPrintable(QuoteBody(s))
  {
    hide DecodeUnit, QuoteUnit;
    if s != [] {
      QuoteUnitIsShortAscii(s);
      QuoteBodyIsShortAscii(s[DecodeUnit(s).used..]);
    }
  }

  /** Re-quoting a repaired text gives the same literal back, within the Unicode range. */
  lemma {:induction false} QuoteAfterRepair(s: Text)
    requires InUnicodeRange(s)
    ensures QuoteBody(Repair(s)) == QuoteBody(s)
  {
    hide DecodeUnit, CodePointToUTF8, QuoteUnit;
    if s != [] {
      var u := DecodeUnit(s);
      var e, rest := CodePointToUTF8(u.cp), Repair(s[u.used..]);
      QuoteAfterRepair(s[u.used..]);
      EncodeDecode(u.cp, rest);
      QuoteUnitAfterRepair(s, rest);
      assert (e + rest)[|e|..] == rest;
    }
  }

  /** A lone surrogate in the text is quoted as the replacement character. */
  lemma SurrogateQuotes(cp: nat, k: Text)
    requires 0xD800 <= cp <= 0xDFFF
    ensures UnicodeEscape(REPLACEMENT_CHARACTER) <= QuoteBody(CodePointToUTF8(cp) + k)
  {
    DecodeSurrogate(cp, k);
    SurrogateLead(cp);
    hide DecodeUnit, CodePointToUTF8, UnicodeEscape;
  }

  lemma BeyondQuotes(s: Text)
    requires s != [] && DecodeUnit(s).cp > 0x10FFFF
    ensures UnicodeEscape((DecodeUnit(s).cp - 0x1_0000) / 0x400 + 0xD800) <= QuoteBody(s)
  {
    assert s[0] >= 0x80;
    hide DecodeUnit, UnicodeEscape;
  }

  /** A unit beyond the Unicode range comes back as two others, which quote as replacement characters. */
  lemma QuoteAfterSurrogate(s: Text, k: Text)
    requires s != [] && DecodeUnit(s).cp > 0x10FFFF
    ensures QuoteBody(UnitText(DecodeUnit(s).cp) + k) != QuoteBody(s)
  {
    hide DecodeUnit, CodePointToUTF8, UnicodeEscape, QuoteBody;
    var cp := DecodeUnit(s).cp;
    var high, low := (cp - 0x1_0000) / 0x400 + 0xD800, (cp - 0x1_0000) % 0x400 + 0xDC00;
    Assoc(CodePointToUTF8(high), CodePointToUTF8(low), k);
    SurrogateQuotes(high, CodePointToUTF8(low) + k);
    BeyondQuotes(s);
    ThirdByte(REPLACEMENT_CHARACTER);
    ThirdByte(high);
  }

  lemma ThirdByte(x: nat)
    requires x < 0x1_0000
    ensures UnicodeEscape(x)[2] == HexDigit(x / 0x1000)
  {
    assert x / 0x100 / 0x10 == x / 0x1000;
  }

  /** A repaired text quotes like the original exactly within the Unicode range. */
  lemma {:induction false} QuoteAfterRepairExactly(s: Text)
    ensures QuoteBody(Repair(s)) == QuoteBody(s) <==> InUnicodeRange(s)
  {
    hide DecodeUnit, CodePointToUTF8, QuoteUnit;
    if InUnicodeRange(s) {
      QuoteAfterRepair(s);
    } else if DecodeUnit(s).cp > 0x10FFFF {
      QuoteAfterSurrogate(s, Repair(s[DecodeUnit(s).used..]));
    } else {
      var u := DecodeUnit(s);
      var e, rest := CodePointToUTF8(u.cp), Repair(s[u.used..]);
      QuoteAfterRepairExactly(s[u.used..]);
      EncodeDecode(u.cp, rest);
      QuoteUnitAfterRepair(s, rest);
      assert (e + rest)[|e|..] == rest;
      SameFront(QuoteUnit(s), QuoteBody(rest), QuoteBody(s[u.used..]));
    }
  }

  lemma SameFront(a: Text, b: Text, c: Text)
    ensures a + b == a + c <==> b == c
  {
    assert (a + b)[|a|..] == b && (a + c)[|a|..] == c;
  }

  lemma QuoteUnitAfterRepair(s: Text, rest: Text)
    requires s != [] && DecodeUnit(s).cp <= 0x10FFFF
    ensures var e := CodePointToUTF8(DecodeUnit(s).cp); e != [] && QuoteUnit(e + rest) == QuoteUnit(s)
  {
    var cp := DecodeUnit(s).cp;
    EncodeDecode(cp, rest);
    assert cp < 0x80 <==> s[0] < 0x80;
    assert CodePointToUTF8(cp)[0] < 0x80 <==> cp < 0x80;
    hide DecodeUnit, EscapeCodePoint;
  }
}
