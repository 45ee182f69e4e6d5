/** UTF-8 as RFC 3629 defines it, and the encoder and lenient decoder of the JSON library. */
module Utf8 {
  import opened Bytes

  const REPLACEMENT_CHARACTER := 0xFFFD

  /** The bytes of a code point; masks and shifts are written as remainders and quotients.
      Above U+10FFFF the result is empty. */
  function CodePointToUTF8(cp: nat): Text {
    if cp <= 0x7F then [cp]
    else if cp <= 0x7FF then [0xC0 + cp / 0x40 % 0x20, 0x80 + cp % 0x40]
    else if cp <= 0xFFFF then [0xE0 + cp / 0x1000 % 0x10, 0x80 + cp / 0x40 % 0x40, 0x80 + cp % 0x40]
    else if cp <= 0x10FFFF then
      [0xF0 + cp / 0x4_0000 % 8, 0x80 + cp / 0x1000 % 0x40, 0x80 + cp / 0x40 % 0x40, 0x80 + cp % 0x40]
    else []
  }

  /** The payload of a continuation byte, its low six bits. */
  function Low6(b: Byte): (n: nat)
    ensures n < 0x40
  {
    b % 0x40
  }

  /** A decoded unit: its code point and how many bytes the scan moves over. */
  datatype Unit = Unit(cp: nat, used: nat)

  /** The unit at the front of `s`, malformed input included. */
  function DecodeUnit(s: Text): (u: Unit)
    requires s != []
    ensures 1 <= u.used <= |s|
    ensures u.cp <= 0x1F_FFFF
    ensures !(0xD800 <= u.cp <= 0xDFFF)
    ensures s[0] < 0x80 ==> u == Unit(s[0], 1)
    ensures s[0] >= 0x80 ==> u.cp >= 0x80
  {
    var b: int := s[0];
    if b < 0x80 then Unit(b, 1)
    else if b < 0xE0 then
      if |s| < 2 then Unit(REPLACEMENT_CHARACTER, 1)
      else
        var calculated := b % 0x20 * 0x40 + Low6(s[1]);
        Unit(if calculated < 0x80 then REPLACEMENT_CHARACTER else calculated, 2)
    else if b < 0xF0 then
      if |s| < 3 then Unit(REPLACEMENT_CHARACTER, 1)
      else
        var calculated := b % 0x10 * 0x1000 + Low6(s[1]) * 0x40 + Low6(s[2]);
        Unit(if 0xD800 <= calculated <= 0xDFFF || calculated < 0x800
             then REPLACEMENT_CHARACTER else calculated, 3)
    else if b < 0xF8 then
      if |s| < 4 then Unit(REPLACEMENT_CHARACTER, 1)
      else
        var calculated := b % 8 * 0x4_0000 + Low6(s[1]) * 0x1000 + Low6(s[2]) * 0x40 + Low6(s[3]);
        Unit(if calculated < 0x1_0000 then REPLACEMENT_CHARACTER else calculated, 4)
    else Unit(REPLACEMENT_CHARACTER, 1)
  }

  /** The pointer-advancing form: on return `last` is the last byte of the unit that starts at `c`. */
  method Utf8ToCodepoint(value: Text, c: nat) returns (cp: nat, last: nat)
    requires c < |value|
    ensures c <= last < |value|
    ensures DecodeUnit(value[c..]) == Unit(cp, last + 1 - c)
  {
    var s := c;
    var firstByte: int := value[s];
    if firstByte < 0x80 {
      return firstByte, s;
    }
    if firstByte < 0xE0 {
      if |value| - s < 2 {
        return REPLACEMENT_CHARACTER, s;
      }
      var calculated := firstByte % 0x20 * 0x40 + Low6(value[s + 1]);
      s := s + 1;
      return if calculated < 0x80 then REPLACEMENT_CHARACTER else calculated, s;
    }
    if firstByte < 0xF0 {
      if |value| - s < 3 {
        return REPLACEMENT_CHARACTER, s;
      }
      var calculated := firstByte % 0x10 * 0x1000 + Low6(value[s + 1]) * 0x40 + Low6(value[s + 2]);
      s := s + 2;
      if 0xD800 <= calculated <= 0xDFFF {
        return REPLACEMENT_CHARACTER, s;
      }
      return if calculated < 0x800 then REPLACEMENT_CHARACTER else calculated, s;
    }
    if firstByte < 0xF8 {
      if |value| - s < 4 {
        return REPLACEMENT_CHARACTER, s;
      }
      var calculated := firstByte % 8 * 0x4_0000 + Low6(value[s + 1]) * 0x1000
                        + Low6(value[s + 2]) * 0x40 + Low6(value[s + 3]);
      s := s + 3;
      return if calculated < 0x1_0000 then REPLACEMENT_CHARACTER else calculated, s;
    }
    return REPLACEMENT_CHARACTER, s;
  }

  predicate IsTail(b: Byte) {
    0x80 <= b <= 0xBF
  }

  /** Length of the UTF8-char of section 4 of RFC 3629 that `s` starts with, 0 if there is none. */
  function GroupLength(s: Text): (n: nat)
    ensures n <= |s|
  {
    if |s| >= 1 && s[0] <= 0x7F then 1
    else if |s| >= 2 && 0xC2 <= s[0] <= 0xDF && IsTail(s[1]) then 2
    else if |s| >= 3 && IsTail(s[2]) && (
            || (s[0] == 0xE0 && 0xA0 <= s[1] <= 0xBF)
            || (0xE1 <= s[0] <= 0xEC && IsTail(s[1]))
            || (s[0] == 0xED && 0x80 <= s[1] <= 0x9F)
            || (0xEE <= s[0] <= 0xEF && IsTail(s[1]))) then 3
    else if |s| >= 4 && IsTail(s[2]) && IsTail(s[3]) && (
            || (s[0] == 0xF0 && 0x90 <= s[1] <= 0xBF)
            || (0xF1 <= s[0] <= 0xF3 && IsTail(s[1]))
            || (s[0] == 0xF4 && 0x80 <= s[1] <= 0x8F)) then 4
    else 0
  }

  /** UTF8-octets of section 4 of RFC 3629. */
  predicate WellFormed(s: Text) {
    s == [] || (GroupLength(s) > 0 && WellFormed(s[GroupLength(s)..]))
  }

  /** What the reader makes of a unit the writer has escaped: the code point itself, or, beyond
      U+10FFFF, the two halves of a pair that is no surrogate pair. */
  function UnitText(cp: nat): (t: Text)
    requires cp <= 0x1F_FFFF
    ensures t != []
  {
    if cp <= 0x10FFFF then CodePointToUTF8(cp)
    else CodePointToUTF8((cp - 0x1_0000) / 0x400 + 0xD800) + CodePointToUTF8((cp - 0x1_0000) % 0x400 + 0xDC00)
  }

  /** The text left after a string went out through the writer and back through the reader. */
  function Repair(s: Text): Text {
    if s == [] then [] else UnitText(DecodeUnit(s).cp) + Repair(s[DecodeUnit(s).used..])
  }

  /** Cutting the low six bits off, and the two wider shifts as repeated ones. */
  lemma Shift6(cp: nat, high: nat, low: nat)
    requires cp == high * 0x40 + low && low < 0x40
    ensures cp / 0x40 == high && cp % 0x40 == low
  {
  }

  lemma Shifts(cp: nat)
    ensures cp / 0x1000 == cp / 0x40 / 0x40 && cp / 0x4_0000 == cp / 0x40 / 0x40 / 0x40
  {
  }

  /** The encoder on a code point given by its payload fields. */
  lemma Encode2(x: nat, y: nat)
    requires 2 <= x < 0x20 && y < 0x40
    ensures CodePointToUTF8(x * 0x40 + y) == [0xC0 + x, 0x80 + y]
  {
    Shift6(x * 0x40 + y, x, y);
  }

  lemma Encode3(x: nat, y: nat, z: nat)
    requires x < 0x10 && y < 0x40 && z < 0x40 && x * 0x40 + y >= 0x20
    ensures CodePointToUTF8(x * 0x1000 + y * 0x40 + z) == [0xE0 + x, 0x80 + y, 0x80 + z]
  {
    var cp := x * 0x1000 + y * 0x40 + z;
    Shifts(cp);
    Shift6(cp, x * 0x40 + y, z);
    Shift6(x * 0x40 + y, x, y);
  }

  lemma Encode4(w: nat, x: nat, y: nat, z: nat)
    requires x < 0x40 && y < 0x40 && z < 0x40 && 0x10 <= w * 0x40 + x <= 0x10F
    ensures CodePointToUTF8(w * 0x4_0000 + x * 0x1000 + y * 0x40 + z) == [0xF0 + w, 0x80 + x, 0x80 + y, 0x80 + z]
  {
    var cp := w * 0x4_0000 + x * 0x1000 + y * 0x40 + z;
    Shifts(cp);
    Shift6(cp, (w * 0x40 + x) * 0x40 + y, z);
    Shift6((w * 0x40 + x) * 0x40 + y, w * 0x40 + x, y);
    Shift6(w * 0x40 + x, w, x);
  }

  lemma EncodeDecode2(cp: nat, k: Text)
    requires 0x80 <= cp <= 0x7FF
    ensures GroupLength(CodePointToUTF8(cp) + k) == 2 && DecodeUnit(CodePointToUTF8(cp) + k) == Unit(cp, 2)
  {
    var x, y := cp / 0x40, cp % 0x40;
    Encode2(x, y);
    hide CodePointToUTF8;
    assert (0xC0 + x) % 0x20 == x && Low6(0x80 + y) == y;
  }

  lemma EncodeDecode3(cp: nat, k: Text)
    requires 0x800 <= cp <= 0xFFFF && !(0xD800 <= cp <= 0xDFFF)
    ensures GroupLength(CodePointToUTF8(cp) + k) == 3 && DecodeUnit(CodePointToUTF8(cp) + k) == Unit(cp, 3)
  {
    Shifts(cp);
    var x, y, z := cp / 0x40 / 0x40, cp / 0x40 % 0x40, cp % 0x40;
    assert cp == x * 0x1000 + y * 0x40 + z && x < 0x10;
    Encode3(x, y, z);
    hide CodePointToUTF8;
    assert (0xE0 + x) % 0x10 == x && Low6(0x80 + y) == y && Low6(0x80 + z) == z;
  }

  lemma EncodeDecode4(cp: nat, k: Text)
    requires 0x1_0000 <= cp <= 0x10FFFF
    ensures GroupLength(CodePointToUTF8(cp) + k) == 4 && DecodeUnit(CodePointToUTF8(cp) + k) == Unit(cp, 4)
  {
    Shifts(cp);
    var w, x, y, z := cp / 0x40 / 0x40 / 0x40, cp / 0x40 / 0x40 % 0x40, cp / 0x40 % 0x40, cp % 0x40;
    assert cp == w * 0x4_0000 + x * 0x1000 + y * 0x40 + z && w < 8;
    Encode4(w, x, y, z);
    hide CodePointToUTF8;
    assert (0xF0 + w) % 8 == w && Low6(0x80 + x) == x && Low6(0x80 + y) == y && Low6(0x80 + z) == z;
  }

  /** Scalar values are encoded as groups of the RFC and decoded back by the lenient scan. */
  lemma EncodeDecode(cp: nat, k: Text)
    requires cp <= 0x10FFFF && !(0xD800 <= cp <= 0xDFFF)
    ensures var e := CodePointToUTF8(cp);
            GroupLength(e + k) == |e| && DecodeUnit(e + k) == Unit(cp, |e|)
  {
    if cp <= 0x7F {
    } else if cp <= 0x7FF {
      EncodeDecode2(cp, k);
    } else if cp <= 0xFFFF {
      EncodeDecode3(cp, k);
    } else {
      EncodeDecode4(cp, k);
    }
  }

  /** The lenient scan on a group, field by field. */
  lemma DecodeGroup2(s: Text)
    requires GroupLength(s) == 2
    ensures DecodeUnit(s) == Unit((s[0] as int - 0xC0) * 0x40 + (s[1] as int - 0x80), 2)
  {
    TailPayload(s[1]);
    hide Low6;
  }

  lemma DecodeGroup3(s: Text)
    requires GroupLength(s) == 3
    ensures DecodeUnit(s) == Unit((s[0] as int - 0xE0) * 0x1000 + (s[1] as int - 0x80) * 0x40 + (s[2] as int - 0x80), 3)
  {
    TailPayload(s[1]);
    TailPayload(s[2]);
    hide Low6;
  }

  lemma DecodeGroup4(s: Text)
    requires GroupLength(s) == 4
    ensures DecodeUnit(s)
         == Unit((s[0] as int - 0xF0) * 0x4_0000 + (s[1] as int - 0x80) * 0x1000 + (s[2] as int - 0x80) * 0x40
                 + (s[3] as int - 0x80), 4)
  {
    TailPayload(s[1]);
    TailPayload(s[2]);
    TailPayload(s[3]);
    hide Low6;
  }

  lemma TailPayload(b: Byte)
    requires IsTail(b)
    ensures Low6(b) == b as int - 0x80
  {
  }

  /** On a group of the RFC the lenient scan and the encoder are each other's inverses. */
  lemma GroupRoundTrip(s: Text)
    requires GroupLength(s) > 0
    ensures var u := DecodeUnit(s);
            u.used == GroupLength(s) && u.cp <= 0x10FFFF && CodePointToUTF8(u.cp) == s[..u.used]
  {
    match GroupLength(s)
    case 1 =>
    case 2 => GroupRoundTrip2(s);
    case 3 => GroupRoundTrip3(s);
    case _ => GroupRoundTrip4(s);
  }

  lemma GroupRoundTrip2(s: Text)
    requires GroupLength(s) == 2
    ensures var u := DecodeUnit(s); u.used == 2 && u.cp <= 0x7FF && CodePointToUTF8(u.cp) == s[..2]
  {
    DecodeGroup2(s);
    Encode2(s[0] - 0xC0, s[1] - 0x80);
    hide DecodeUnit, CodePointToUTF8;
  }

  lemma GroupRoundTrip3(s: Text)
    requires GroupLength(s) == 3
    ensures var u := DecodeUnit(s); u.used == 3 && u.cp <= 0xFFFF && CodePointToUTF8(u.cp) == s[..3]
  {
    DecodeGroup3(s);
    Encode3(s[0] - 0xE0, s[1] - 0x80, s[2] - 0x80);
    hide DecodeUnit, CodePointToUTF8;
  }

  lemma GroupRoundTrip4(s: Text)
    requires GroupLength(s) == 4
    ensures var u := DecodeUnit(s); u.used == 4 && u.cp <= 0x10FFFF && CodePointToUTF8(u.cp) == s[..4]
  {
    DecodeGroup4(s);
    Encode4(s[0] - 0xF0, s[1] - 0x80, s[2] - 0x80, s[3] - 0x80);
    hide DecodeUnit, CodePointToUTF8;
  }

  /** The UTF-8 image of a lone surrogate starts with 0xED. */
  lemma SurrogateLead(cp: nat)
    requires 0xD800 <= cp <= 0xDFFF
    ensures |CodePointToUTF8(cp)| == 3 && CodePointToUTF8(cp)[0] == 0xED
  {
  }

  /** The lenient scan reads those three bytes as the replacement character. */
  lemma DecodeSurrogate(cp: nat, k: Text)
    requires 0xD800 <= cp <= 0xDFFF
    ensures |CodePointToUTF8(cp)| == 3 && DecodeUnit(CodePointToUTF8(cp) + k) == Unit(REPLACEMENT_CHARACTER, 3)
  {
    Shifts(cp);
    var x, y, z := cp / 0x40 / 0x40, cp / 0x40 % 0x40, cp % 0x40;
    assert cp == x * 0x1000 + y * 0x40 + z && x == 0xD && 0x20 <= y;
    Encode3(x, y, z);
    hide CodePointToUTF8;
    assert Low6(0x80 + y) == y;
  }

  /** What replaces a unit that is no group of the RFC always differs from the bytes it replaces. */
  lemma BadUnitChanges(s: Text, k: Text)
    requires s != [] && GroupLength(s) == 0
    ensures UnitText(DecodeUnit(s).cp) + k != s
  {
    var cp := DecodeUnit(s).cp;
    if cp <= 0x10FFFF {
      EncodeDecode(cp, k);
    } else {
      SurrogateLead((cp - 0x1_0000) / 0x400 + 0xD800);
      assert UnitText(cp)[0] == 0xED;
      assert s[0] != 0xED;
    }
  }

  /** A text comes back unchanged exactly when it is UTF-8 in the sense of RFC 3629. */
  lemma {:induction false} RepairFixesExactlyWellFormed(s: Text)
    ensures Repair(s) == s <==> WellFormed(s)
  {
    hide DecodeUnit, CodePointToUTF8;
    if s != [] {
      var u := DecodeUnit(s);
      var rest := s[u.used..];
      if GroupLength(s) == 0 {
        BadUnitChanges(s, Repair(rest));
      } else {
        GroupRoundTrip(s);
        RepairFixesExactlyWellFormed(rest);
        assert s == s[..u.used] + rest;
        assert Repair(s) == s[..u.used] + Repair(rest);
        assert Repair(s)[u.used..] == Repair(rest);
      }
    }
  }

  /** No unit of the text stands for a number above U+10FFFF. */
  predicate InUnicodeRange(s: Text) {
    s == [] || (DecodeUnit(s).cp <= 0x10FFFF && InUnicodeRange(s[DecodeUnit(s).used..]))
  }

  /** Within the Unicode range the repaired text is well-formed, so a second repair changes nothing. */
  lemma {:induction false} RepairIsWellFormed(s: Text)
    requires InUnicodeRange(s)
    ensures WellFormed(Repair(s))
  {
    if s != [] {
      var u := DecodeUnit(s);
      RepairIsWellFormed(s[u.used..]);
      EncodeDecode(u.cp, Repair(s[u.used..]));
      assert Repair(s)[|UnitText(u.cp)|..] == Repair(s[u.used..]);
    }
  }

  // ---------------------------------------------------------------- malformed text, unit by unit

  /** A lead byte of a group that is cut off, and a byte that leads no group, are replaced by themselves. */
  lemma CutOffUnit(s: Text)
    requires s != []
    requires || s[0] >= 0xF8
             || (|s| < 2 && s[0] >= 0x80) || (|s| < 3 && s[0] >= 0xE0) || (|s| < 4 && s[0] >= 0xF0)
    ensures DecodeUnit(s) == Unit(0xFFFD, 1)
  {
  }

  /** Two bytes: five bits and six bits are taken, whatever the others say; overlong forms are replaced. */
  lemma TwoByteUnit(s: Text, lead: nat, x: nat, mark: nat, y: nat)
    requires |s| >= 2 && lead < 3 && x < 0x20 && mark < 4 && y < 0x40
    requires s[0] == 0x80 + lead * 0x20 + x && s[1] == mark * 0x40 + y
    ensures var v := x * 0x40 + y; DecodeUnit(s) == Unit(if v < 0x80 then 0xFFFD else v, 2)
  {
    assert s[0] % 0x20 == x && s[1] % 0x40 == y;
  }

  /** Three bytes: four bits and twice six; surrogates are replaced, too. */
  lemma ThreeByteUnit(s: Text, x: nat, mark: nat, y: nat, sign: nat, z: nat)
    requires |s| >= 3 && x < 0x10 && mark < 4 && y < 0x40 && sign < 4 && z < 0x40
    requires s[0] == 0xE0 + x && s[1] == mark * 0x40 + y && s[2] == sign * 0x40 + z
    ensures var v := x * 0x1000 + y * 0x40 + z;
            DecodeUnit(s) == Unit(if v < 0x800 || 0xD800 <= v <= 0xDFFF then 0xFFFD else v, 3)
  {
    assert s[0] % 0x10 == x && s[1] % 0x40 == y && s[2] % 0x40 == z;
  }

  /** Four bytes: three bits and three times six; nothing above U+10FFFF is replaced. */
  lemma FourByteUnit(s: Text, w: nat, m: nat, x: nat, n: nat, y: nat, o: nat, z: nat)
    requires |s| >= 4 && w < 8 && m < 4 && x < 0x40 && n < 4 && y < 0x40 && o < 4 && z < 0x40
    requires s[0] == 0xF0 + w && s[1] == m * 0x40 + x && s[2] == n * 0x40 + y && s[3] == o * 0x40 + z
    ensures var v := w * 0x4_0000 + x * 0x1000 + y * 0x40 + z;
            DecodeUnit(s) == Unit(if v < 0x1_0000 then 0xFFFD else v, 4)
  {
    assert s[0] % 8 == w && s[1] % 0x40 == x && s[2] % 0x40 == y && s[3] % 0x40 == z;
  }
}
