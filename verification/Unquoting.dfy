/** Finding the end of a string token and decoding the bytes between its quotes. */
module Unquoting {
  import opened Bytes
  import opened Utf8
  import opened Quoting

  // ---------------------------------------------------------------- the scan of the tokeniser

  /** Outcome of a scan that stops somewhere in its input. */
  datatype Scan = Scan(ok: bool, rest: Text)

  /** Where a string that was opened just before `s` ends: a backslash always takes the next byte
      with it, and only a bare quote closes. */
  function ScanString(s: Text): (r: Scan)
    ensures |r.rest| <= |s|
    ensures r.ok ==> |r.rest| < |s|
  {
    if s == [] then Scan(false, [])
    else if s[0] == BACKSLASH then
      if |s| == 1 then Scan(false, []) else ScanString(s[2..])
    else if s[0] == QUOTE then Scan(true, s[1..])
    else ScanString(s[1..])
  }

  /** The bytes that can stand between the quotes of a token: every backslash has a successor and
      no quote is bare. */
  predicate Body(s: Text) {
    s == [] ||
    (if s[0] == BACKSLASH then |s| >= 2 && Body(s[2..]) else s[0] != QUOTE && Body(s[1..]))
  }

  /** The scan closes exactly after a body and a quote. */
  lemma {:induction false} ScanFindsBody(s: Text, k: Text)
    requires Body(s)
    ensures ScanString(s + ([QUOTE] + k)) == Scan(true, k)
  {
    var tail := [QUOTE] + k;
    var whole := s + tail;
    if s == [] {
      assert whole == tail && tail[1..] == k;
    } else if s[0] == BACKSLASH {
      ScanFindsBody(s[2..], k);
      assert whole[0] == BACKSLASH && whole[2..] == s[2..] + tail;
    } else {
      ScanFindsBody(s[1..], k);
      assert whole[0] == s[0] && whole[1..] == s[1..] + tail;
    }
  }

  lemma {:induction false} ScanMeansBody(s: Text)
    requires ScanString(s).ok
    ensures var n := |s| - |ScanString(s).rest| - 1;
            s[n] == QUOTE && Body(s[..n])
  {
    var n := |s| - |ScanString(s).rest| - 1;
    if s[0] == BACKSLASH {
      ScanMeansBody(s[2..]);
      assert s[..n][2..] == s[2..][..n - 2];
    } else if s[0] != QUOTE {
      ScanMeansBody(s[1..]);
      assert s[..n][1..] == s[1..][..n - 1];
    }
  }

  // ---------------------------------------------------------------- decoding

  datatype DecodeError =
    | EmptyEscape
    | BadEscape
    | FourDigitsExpected
    | HexDigitExpected
    | SixMoreExpected
    | SecondEscapeExpected

  /** A code point and the bytes after it, or an error. */
  datatype CodePoint = CodePoint(cp: nat, rest: Text) | BadCodePoint(error: DecodeError)

  function HexValue(b: Byte): (n: int)
    ensures -1 <= n < 0x10
  {
    if ZERO <= b <= NINE then b - ZERO
    else if 0x61 <= b <= 0x66 then b - 0x61 + 10
    else if 0x41 <= b <= 0x46 then b - 0x41 + 10
    else -1
  }

  /** The four hexadecimal digits of an escape. */
  function DecodeHex4(s: Text): (r: CodePoint)
    ensures r.CodePoint? ==> |s| >= 4 && r.cp < 0x1_0000 && r.rest == s[4..]
  {
    if |s| < 4 then BadCodePoint(FourDigitsExpected)
    else if HexValue(s[0]) < 0 || HexValue(s[1]) < 0 || HexValue(s[2]) < 0 || HexValue(s[3]) < 0 then
      BadCodePoint(HexDigitExpected)
    else
      CodePoint(((HexValue(s[0]) * 0x10 + HexValue(s[1])) * 0x10 + HexValue(s[2])) * 0x10 + HexValue(s[3]), s[4..])
  }

  /** What follows a backslash and a `u`: one escape, or two when the first is a high surrogate. */
  function DecodeEscape(s: Text): (r: CodePoint)
    ensures r.CodePoint? ==> r.cp <= 0x10FFFF && |r.rest| < |s|
  {
    var first := DecodeHex4(s);
    if first.BadCodePoint? then first
    else if !(0xD800 <= first.cp <= 0xDBFF) then first
    else if |first.rest| < 6 then BadCodePoint(SixMoreExpected)
    else if first.rest[0] != BACKSLASH || first.rest[1] != LETTER_U then BadCodePoint(SecondEscapeExpected)
    else
      var second := DecodeHex4(first.rest[2..]);
      if second.BadCodePoint? then second
      else CodePoint(0x1_0000 + first.cp % 0x400 * 0x400 + second.cp % 0x400, second.rest)
  }

  /** The byte a two-character escape stands for, -1 for a letter that is none. */
  function ShortEscapeByte(letter: Byte): (b: int)
    ensures -1 <= b < 0x100
  {
    if letter == QUOTE then QUOTE
    else if letter == SLASH then SLASH
    else if letter == BACKSLASH then BACKSLASH
    else if letter == 0x62 then BACKSPACE
    else if letter == 0x66 then FORM_FEED
    else if letter == 0x6E then LINE_FEED
    else if letter == 0x72 then CARRIAGE_RETURN
    else if letter == 0x74 then TAB
    else -1
  }

  /** Where the loop stopped: at the end of the token, or at a bare quote with these bytes after it. */
  datatype Stop = AtEnd | AtQuote(unread: Text)

  /** The decoded bytes together with where the decoder stopped, or an error. */
  datatype Decoded = Decoded(text: Text, stop: Stop) | BadString(error: DecodeError)

  function Prepend(t: Text, d: Decoded): Decoded {
    if d.BadString? then d else d.(text := t + d.text)
  }

  function DecodeBody(s: Text): Decoded
    decreases |s|
  {
    if s == [] then Decoded([], AtEnd)
    else if s[0] == QUOTE then Decoded([], AtQuote(s[1..]))
    else if s[0] != BACKSLASH then Prepend([s[0]], DecodeBody(s[1..]))
    else if |s| == 1 then BadString(EmptyEscape)
    else if s[1] == LETTER_U then
      var r := DecodeEscape(s[2..]);
      if r.BadCodePoint? then BadString(r.error) else Prepend(CodePointToUTF8(r.cp), DecodeBody(r.rest))
    else if ShortEscapeByte(s[1]) >= 0 then Prepend([ShortEscapeByte(s[1])], DecodeBody(s[2..]))
    else BadString(BadEscape)
  }

  /** The loop over four digits; on success `cursor` has moved past them. */
  method DecodeUnicodeEscapeSequence(token: Text, start: nat, end: nat) returns (r: CodePoint, current: nat)
    requires start <= end <= |token|
    ensures r == DecodeHex4(token[start..end])
    ensures start <= current <= end
    ensures r.CodePoint? ==> current == start + 4
  {
    current := start;
    if end - current < 4 {
      return BadCodePoint(FourDigitsExpected), current;
    }
    var unicode := 0;
    ghost var s := token[start..end];
    for index := 0 to 4
      invariant current == start + index
      invariant forall i :: 0 <= i < index ==> HexValue(s[i]) >= 0
      invariant index == 1 ==> unicode == HexValue(s[0])
      invariant index == 2 ==> unicode == HexValue(s[0]) * 0x10 + HexValue(s[1])
      invariant index == 3 ==> unicode == (HexValue(s[0]) * 0x10 + HexValue(s[1])) * 0x10 + HexValue(s[2])
      invariant index == 4 ==> unicode
                               == ((HexValue(s[0]) * 0x10 + HexValue(s[1])) * 0x10 + HexValue(s[2])) * 0x10 + HexValue(s[3])
      invariant index == 0 ==> unicode == 0
    {
      var c: int := token[current];
      assert c == s[index];
      current := current + 1;
      unicode := unicode * 0x10;
      if ZERO <= c <= NINE {
        unicode := unicode + c - ZERO;
      } else if 0x61 <= c <= 0x66 {
        unicode := unicode + c - 0x61 + 10;
      } else if 0x41 <= c <= 0x46 {
        unicode := unicode + c - 0x41 + 10;
      } else {
        return BadCodePoint(HexDigitExpected), current;
      }
    }
    assert s[4..] == token[current..end];
    r := CodePoint(unicode, token[current..end]);
  }

  method DecodeUnicodeCodePoint(token: Text, start: nat, end: nat) returns (r: CodePoint, current: nat)
    requires start <= end <= |token|
    ensures r == DecodeEscape(token[start..end])
    ensures start <= current <= end
    ensures r.CodePoint? ==> current > start && r.rest == token[current..end]
  {
    r, current := DecodeUnicodeEscapeSequence(token, start, end);
    if r.BadCodePoint? {
      return;
    }
    var unicode := r.cp;
    assert token[start..end][4..] == token[current..end];
    if 0xD800 <= unicode <= 0xDBFF {
      if end - current < 6 {
        return BadCodePoint(SixMoreExpected), current;
      }
      if token[current] != BACKSLASH {
        return BadCodePoint(SecondEscapeExpected), current + 1;
      }
      if token[current + 1] != LETTER_U {
        return BadCodePoint(SecondEscapeExpected), current + 2;
      }
      assert token[current..end][2..] == token[current + 2..end];
      r, current := DecodeUnicodeEscapeSequence(token, current + 2, end);
      if r.BadCodePoint? {
        return;
      }
      assert r.rest == token[current..end];
      r := CodePoint(0x1_0000 + unicode % 0x400 * 0x400 + r.cp % 0x400, token[current..end]);
    }
  }

  lemma PrependPrepend(a: Text, b: Text, d: Decoded)
    ensures Prepend(a, Prepend(b, d)) == Prepend(a + b, d)
  {
    if d.Decoded? {
      assert a + (b + d.text) == a + b + d.text;
    }
  }

  /** The decoding loop over a token, quotes included. */
  method DecodeString(token: Text) returns (r: Decoded)
    requires |token| >= 2
    ensures r == DecodeBody(token[1..|token| - 1])
  {
    var decoded: Text := [];
    var current := 1;
    var end := |token| - 1;
    while current != end
      invariant 1 <= current <= end
      invariant Prepend(decoded, DecodeBody(token[current..end])) == DecodeBody(token[1..end])
      decreases end - current
    {
      ghost var s := token[current..end];
      var c := token[current];
      current := current + 1;
      assert s[1..] == token[current..end];
      if c == QUOTE {
        return Decoded(decoded, AtQuote(token[current..end]));
      }
      var piece;
      if c == BACKSLASH {
        if current == end {
          return BadString(EmptyEscape);
        }
        var escape := token[current];
        current := current + 1;
        assert s[2..] == token[current..end];
        if escape == LETTER_U {
          var u;
          u, current := DecodeUnicodeCodePoint(token, current, end);
          if u.BadCodePoint? {
            return BadString(u.error);
          }
          piece := CodePointToUTF8(u.cp);
        } else if ShortEscapeByte(escape) >= 0 {
          piece := [ShortEscapeByte(escape)];
        } else {
          return BadString(BadEscape);
        }
      } else {
        piece := [c];
      }
      PrependPrepend(decoded, piece, DecodeBody(token[current..end]));
      decoded := decoded + piece;
    }
    assert token[current..end] == [];
    r := Decoded(decoded, AtEnd);
  }

  // ---------------------------------------------------------------- the decoder against the tokeniser

  /** On what the tokeniser lets through, the decoder never meets a bare quote or a trailing
      backslash: it fails for another reason or reads every byte. */
  lemma {:induction false} DecoderReadsWholeBody(s: Text)
    requires Body(s)
    ensures DecodeBody(s) != BadString(EmptyEscape)
    ensures DecodeBody(s).Decoded? ==> DecodeBody(s).stop == AtEnd
    decreases |s|
  {
    if s != [] {
      if s[0] != BACKSLASH {
        DecoderReadsWholeBody(s[1..]);
      } else if s[1] == LETTER_U {
        var r := DecodeEscape(s[2..]);
        if r.CodePoint? {
          EscapeKeepsBody(s[2..]);
          DecoderReadsWholeBody(r.rest);
        }
      } else {
        DecoderReadsWholeBody(s[2..]);
      }
    }
  }

  /** Hexadecimal digits are ordinary bytes for the tokeniser, so both walks stay in step. */
  lemma HexKeepsBody(s: Text)
    requires Body(s) && DecodeHex4(s).CodePoint?
    ensures Body(s[4..])
  {
    assert s[1..][1..] == s[2..] && s[2..][1..] == s[3..] && s[3..][1..] == s[4..];
    assert Body(s[1..]);
    assert Body(s[2..]);
    assert Body(s[3..]);
  }

  lemma EscapeKeepsBody(s: Text)
    requires Body(s) && DecodeEscape(s).CodePoint?
    ensures Body(DecodeEscape(s).rest)
  {
    HexKeepsBody(s);
    var first := DecodeHex4(s);
    if 0xD800 <= first.cp <= 0xDBFF {
      HexKeepsBody(first.rest[2..]);
    }
  }

  // ---------------------------------------------------------------- the decoder against the writer

  lemma HexRoundTrip(x: nat, k: Text)
    requires x < 0x1_0000
    ensures DecodeHex4(ToHex16Bit(x) + k) == CodePoint(x, k)
  {
    var t := ToHex16Bit(x);
    var s := t + k;
    assert s[0] == t[0] && s[1] == t[1] && s[2] == t[2] && s[3] == t[3] && s[4..] == k;
    var hi, lo := x / 0x100, x % 0x100;
    assert HexValue(HexDigit(hi / 0x10)) == hi / 0x10 && HexValue(HexDigit(hi % 0x10)) == hi % 0x10;
    assert HexValue(HexDigit(lo / 0x10)) == lo / 0x10 && HexValue(HexDigit(lo % 0x10)) == lo % 0x10;
  }

  /** One escape of the writer is decoded as one code point, unless it is a high surrogate. */
  lemma EscapeRoundTrip(x: nat, k: Text)
    requires x < 0x1_0000 && !(0xD800 <= x <= 0xDBFF)
    ensures DecodeBody(UnicodeEscape(x) + k) == Prepend(CodePointToUTF8(x), DecodeBody(k))
  {
    var s := UnicodeEscape(x) + k;
    assert s[2..] == ToHex16Bit(x) + k;
    HexRoundTrip(x, k);
  }

  lemma PairDecodes(high: nat, low: nat, k: Text)
    requires 0xD800 <= high <= 0xDBFF && low < 0x1_0000
    ensures DecodeEscape(ToHex16Bit(high) + (UnicodeEscape(low) + k))
         == CodePoint(0x1_0000 + high % 0x400 * 0x400 + low % 0x400, k)
  {
    var second := UnicodeEscape(low) + k;
    HexRoundTrip(high, second);
    assert second[0] == BACKSLASH && second[1] == LETTER_U && second[2..] == ToHex16Bit(low) + k;
    HexRoundTrip(low, k);
    hide ToHex16Bit, DecodeHex4;
  }

  lemma PairRoundTrip(cp: nat, k: Text)
    requires 0x1_0000 <= cp <= 0x10FFFF
    ensures DecodeBody(EscapeCodePoint(cp) + k) == Prepend(CodePointToUTF8(cp), DecodeBody(k))
  {
    hide ToHex16Bit, DecodeEscape, CodePointToUTF8;
    var high, low := (cp - 0x1_0000) / 0x400 + 0xD800, (cp - 0x1_0000) % 0x400 + 0xDC00;
    var s := EscapeCodePoint(cp) + k;
    assert s[2..] == ToHex16Bit(high) + (UnicodeEscape(low) + k);
    PairDecodes(high, low, k);
    assert high % 0x400 == (cp - 0x1_0000) / 0x400 && low % 0x400 == (cp - 0x1_0000) % 0x400;
  }

  lemma AsciiText(cp: nat)
    requires cp < 0x80
    ensures CodePointToUTF8(cp) == [cp]
  {
  }

  /** Whatever stands for one unit in a literal is decoded to that unit's text. */
  lemma UnitRoundTrip(s: Text, k: Text)
    requires s != []
    ensures DecodeBody(QuoteUnit(s) + k) == Prepend(UnitText(DecodeUnit(s).cp), DecodeBody(k))
  {
    hide DecodeUnit, CodePointToUTF8, UnicodeEscape, DecodeEscape;
    var cp, q := DecodeUnit(s).cp, QuoteUnit(s) + k;
    if ShortEscape(s[0]) != 0 {
      assert q[2..] == k;
      assert ShortEscapeByte(ShortEscape(s[0])) == s[0];
      AsciiText(cp);
    } else if 0x20 <= cp < 0x80 {
      assert q[1..] == k;
      AsciiText(cp);
    } else if cp < 0x1_0000 {
      EscapeRoundTrip(cp, k);
    } else if cp <= 0x10FFFF {
      PairRoundTrip(cp, k);
    } else {
      var high, low := (cp - 0x1_0000) / 0x400 + 0xD800, (cp - 0x1_0000) % 0x400 + 0xDC00;
      assert q == UnicodeEscape(high) + (UnicodeEscape(low) + k);
      EscapeRoundTrip(high, UnicodeEscape(low) + k);
      EscapeRoundTrip(low, k);
      PrependPrepend(CodePointToUTF8(high), CodePointToUTF8(low), DecodeBody(k));
    }
  }

  /** A unit's text keeps the tokeniser inside the string. */
  lemma UnitIsBody(s: Text, k: Text)
    requires s != [] && Body(k)
    ensures Body(QuoteUnit(s) + k)
  {
    hide DecodeUnit, UnicodeEscape;
    var q := QuoteUnit(s) + k;
    var cp := DecodeUnit(s).cp;
    if ShortEscape(s[0]) != 0 {
      assert q[2..] == k;
    } else if 0x20 <= cp < 0x80 {
      assert q[1..] == k;
    } else if cp < 0x1_0000 {
      EscapeIsBody(cp, k);
    } else {
      var high, low := (cp - 0x1_0000) / 0x400 + 0xD800, (cp - 0x1_0000) % 0x400 + 0xDC00;
      EscapeIsBody(low, k);
      EscapeIsBody(high, UnicodeEscape(low) + k);
      assert q == UnicodeEscape(high) + (UnicodeEscape(low) + k);
    }
  }

  lemma EscapeIsBody(x: nat, k: Text)
    requires x < 0x1_0000 && Body(k)
    ensures Body(UnicodeEscape(x) + k)
  {
    var s := UnicodeEscape(x) + k;
    var h := ToHex16Bit(x);
    assert s[2..] == h + k;
    assert (h + k)[1..] == h[1..] + k && (h[1..] + k)[1..] == h[2..] + k;
    assert (h[2..] + k)[1..] == h[3..] + k && (h[3..] + k)[1..] == k;
    assert Body(h[3..] + k);
    assert Body(h[2..] + k);
    assert Body(h[1..] + k);
    assert Body(h + k);
  }

  /** Quoting any bytes gives a body that decodes, without error, to the repaired bytes. */
  lemma {:induction false} QuoteRoundTrip(s: Text)
    ensures Body(QuoteBody(s))
    ensures DecodeBody(QuoteBody(s)) == Decoded(Repair(s), AtEnd)
  {
    if s != [] {
      var rest := s[DecodeUnit(s).used..];
      QuoteRoundTrip(rest);
      UnitIsBody(s, QuoteBody(rest));
      UnitRoundTrip(s, QuoteBody(rest));
    }
  }
}
