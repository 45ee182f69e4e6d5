/** Strings through the writer and the reader: the statements for whole literals and tokens. */
module StringTheorems {
  import opened Bytes
  import opened Utf8
  import opened Quoting
  import opened Unquoting
  import opened Lexer
  import opened Parser

  /** Any bytes at all: the literal is printable ASCII of at most six times the length and two quotes, in
      front of anything it is read as one string token, and that token decodes without an error. */
  lemma AnyBytesQuote(s: Text, k: Text)
    ensures |Quoted(s)| <= 6 * |s| + 2 && IsPrintable(Quoted(s))
    ensures NextToken(Quoted(s) + k) == Front(Token(StringToken, Quoted(s)), k)
    ensures DecodeBody(Inner(Quoted(s))) == Decoded(Repair(s), AtEnd)
  {
    QuoteBodyIsShortAscii(s);
    QuoteRoundTrip(s);
    hide QuoteBody, DecodeBody, ScanToken, NextToken, Body, Repair;
    var d := Quoted(s);
    assert Inner(d) == QuoteBody(s);
    assert d[1..] + k == QuoteBody(s) + [QUOTE] + k;
    LiteralScans(QuoteBody(s), k);
    FrontToken(d, StringToken, k);
  }

  /** The string comes back byte for byte exactly when it is UTF-8. */
  lemma StringRoundTrip(s: Text)
    ensures DecodeBody(Inner(Quoted(s))) == Decoded(s, AtEnd) <==> WellFormed(s)
  {
    hide WellFormed, Repair, Quoted;
    AnyBytesQuote(s, []);
    RepairFixesExactlyWellFormed(s);
  }

  /** Quoting what was decoded gives the same literal exactly when no unit is beyond Unicode. */
  lemma QuoteIsStable(s: Text)
    ensures var r := DecodeBody(Inner(Quoted(s))); r.Decoded? && (Quoted(r.text) == Quoted(s) <==> InUnicodeRange(s))
  {
    hide QuoteBody, Repair, InUnicodeRange, DecodeBody;
    AnyBytesQuote(s, []);
    QuoteAfterRepairExactly(s);
    SameLiteral(QuoteBody(Repair(s)), QuoteBody(s));
  }

  lemma SameLiteral(a: Text, b: Text)
    ensures [QUOTE] + a + [QUOTE] == [QUOTE] + b + [QUOTE] <==> a == b
  {
    var x, y := [QUOTE] + a + [QUOTE], [QUOTE] + b + [QUOTE];
    assert x[1..|x| - 1] == a && y[1..|y| - 1] == b;
  }

  /** On a string token of any document the decoder stays inside the quotes: it never meets a bare quote
      or a backslash at the end, so it fails for another reason or reads every byte. */
  lemma TokenDecodesWithinQuotes(document: Text)
    requires NextToken(document).token.kind == StringToken
    ensures var r := DecodeBody(Inner(NextToken(document).token.text));
            r != BadString(EmptyEscape) && (r.Decoded? ==> r.stop == AtEnd)
  {
    hide DecodeBody, NextToken, Body;
    StringTokenShape(document);
    DecoderReadsWholeBody(Inner(NextToken(document).token.text));
  }
}
