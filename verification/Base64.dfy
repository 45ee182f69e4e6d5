/** The base 64 encoding (section 4 of RFC 4648) of base64.cpp. Masks and shifts on bytes are written
    as remainders and quotients. */
module Base64 {
  import opened Bytes

  const PAD: Byte := 0x3D

  /** The digit of the table for a value below 64. */
  function Digit(i: nat): (c: Byte)
    requires i < 64
    ensures IsDigit64(c)
  {
    if i < 26 then 0x41 + i
    else if i < 52 then 0x61 + i - 26
    else if i < 62 then 0x30 + i - 52
    else if i == 62 then PLUS
    else SLASH
  }

  predicate IsDigit64(c: Byte) {
    0x41 <= c <= 0x5A || 0x61 <= c <= 0x7A || 0x30 <= c <= 0x39 || c == PLUS || c == SLASH
  }

  /** The place of a byte in the table; for a byte that is not there, what `npos` leaves in a byte. */
  function Find(c: Byte): (i: Byte)
    ensures IsDigit64(c) ==> i < 64 && Digit(i) == c
  {
    if 0x41 <= c <= 0x5A then c - 0x41
    else if 0x61 <= c <= 0x7A then c - 0x61 + 26
    else if 0x30 <= c <= 0x39 then c - 0x30 + 52
    else if c == PLUS then 62
    else if c == SLASH then 63
    else 0xFF
  }

  // ---------------------------------------------------------------- encoding

  /** The four 6-bit fields of three bytes. */
  function Field0(a: Byte): (n: nat)
    ensures n < 64
  {
    a / 4
  }

  function Field1(a: Byte, b: Byte): (n: nat)
    ensures n < 64
  {
    var high: int := a % 4;
    high * 16 + b / 16
  }

  function Field2(b: Byte, c: Byte): (n: nat)
    ensures n < 64
  {
    var high: int := b % 16;
    high * 4 + c / 64
  }

  function Field3(c: Byte): (n: nat)
    ensures n < 64
  {
    c % 64
  }

  function Group(a: Byte, b: Byte, c: Byte): (t: Text)
    ensures |t| == 4
  {
    [Digit(Field0(a)), Digit(Field1(a, b)), Digit(Field2(b, c)), Digit(Field3(c))]
  }

  function Encode(s: Text): Text {
    if |s| == 0 then []
    else if |s| == 1 then Group(s[0], 0, 0)[..2] + [PAD, PAD]
    else if |s| == 2 then Group(s[0], s[1], 0)[..3] + [PAD]
    else Group(s[0], s[1], s[2]) + Encode(s[3..])
  }

  /** The first `g` groups of three bytes. */
  function EncodeGroups(s: Text, g: nat): Text
    requires 3 * g <= |s|
  {
    if g == 0 then [] else EncodeGroups(s, g - 1) + Group(s[3 * g - 3], s[3 * g - 2], s[3 * g - 1])
  }

  lemma {:induction false} EncodeSplit(s: Text, g: nat)
    requires 3 * g <= |s|
    ensures Encode(s) == EncodeGroups(s, g) + Encode(s[3 * g..])
  {
    hide Group;
    if g == 0 {
      assert s[0..] == s;
    } else {
      EncodeSplit(s, g - 1);
      var t := s[3 * g - 3..];
      assert t[3..] == s[3 * g..];
      assert Encode(t) == Group(t[0], t[1], t[2]) + Encode(s[3 * g..]);
      Assoc(EncodeGroups(s, g - 1), Group(t[0], t[1], t[2]), Encode(s[3 * g..]));
    }
  }

  method Base64Encode(bytesToEncode: Text) returns (ret: Text)
    ensures ret == Encode(bytesToEncode)
  {
    hide Encode, EncodeGroups, Group;
    ret := [];
    var i := 0;
    var charArray3 := new Byte[3];
    var charArray4 := new Byte[4];
    var at := 0;
    var inLen := |bytesToEncode|;
    ghost var groups := 0;
    NoGroups(bytesToEncode);
    while inLen > 0
      invariant 0 <= inLen && at + inLen == |bytesToEncode| && 0 <= i < 3 && at == 3 * groups + i
      invariant forall k :: 0 <= k < i ==> charArray3[k] == bytesToEncode[3 * groups + k]
      invariant ret == EncodeGroups(bytesToEncode, groups)
    {
      inLen := inLen - 1;
      charArray3[i] := bytesToEncode[at];
      i := i + 1;
      at := at + 1;
      if i == 3 {
        ret := AppendGroup(charArray3, charArray4, 4, ret);
        groups := groups + 1;
        OneMoreGroup(bytesToEncode, groups);
        i := 0;
      }
    }
    ghost var rest := bytesToEncode[3 * groups..];
    EncodeSplit(bytesToEncode, groups);
    EncodeTail(rest);
    if i > 0 {
      assert rest[0] == charArray3[0] && (i == 2 ==> rest[1] == charArray3[1]);
      ret := AppendTail(charArray3, charArray4, i, ret);
    }
  }

  lemma NoGroups(s: Text)
    ensures EncodeGroups(s, 0) == []
  {
  }

  lemma OneMoreGroup(s: Text, g: nat)
    requires 0 < g && 3 * g <= |s|
    ensures EncodeGroups(s, g) == EncodeGroups(s, g - 1) + Group(s[3 * g - 3], s[3 * g - 2], s[3 * g - 1])[..4]
  {
    var group := Group(s[3 * g - 3], s[3 * g - 2], s[3 * g - 1]);
    assert group[..4] == group;
  }

  lemma EncodeTail(s: Text)
    requires |s| < 3
    ensures Encode(s) == if s == [] then [] else if |s| == 1 then Group(s[0], 0, 0)[..2] + [PAD, PAD]
                         else Group(s[0], s[1], 0)[..3] + [PAD]
  {
  }

  /** The four fields of three bytes, and the digits of the first `n` of them. */
  method AppendGroup(charArray3: array<Byte>, charArray4: array<Byte>, n: nat, ret: Text) returns (longer: Text)
    requires charArray3.Length == 3 && charArray4.Length == 4 && charArray3 != charArray4 && n <= 4
    modifies charArray4
    ensures longer == ret + Group(charArray3[0], charArray3[1], charArray3[2])[..n]
  {
    charArray4[0] := Field0(charArray3[0]);
    charArray4[1] := Field1(charArray3[0], charArray3[1]);
    charArray4[2] := Field2(charArray3[1], charArray3[2]);
    charArray4[3] := Field3(charArray3[2]);
    longer := AppendDigits(charArray4, n, ret);
  }

  /** One or two bytes that are left over: the rest of the group is zero, then come the pads. */
  method AppendTail(charArray3: array<Byte>, charArray4: array<Byte>, count: nat, ret: Text) returns (longer: Text)
    requires charArray3.Length == 3 && charArray4.Length == 4 && charArray3 != charArray4 && 0 < count < 3
    modifies charArray3, charArray4
    ensures old(charArray3[0]) == charArray3[0] && (count == 2 ==> old(charArray3[1]) == charArray3[1])
    ensures longer == ret + if count == 1 then Group(charArray3[0], 0, 0)[..2] + [PAD, PAD]
                            else Group(charArray3[0], charArray3[1], 0)[..3] + [PAD]
  {
    var i, j := count, count;
    while j < 3
      invariant count <= j <= 3
      invariant forall k :: 0 <= k < count ==> charArray3[k] == old(charArray3[k])
      invariant forall k :: count <= k < j ==> charArray3[k] == 0
    {
      charArray3[j] := 0;
      j := j + 1;
    }
    longer := AppendGroup(charArray3, charArray4, i + 1, ret);
    ghost var encoded := longer;
    while i < 3
      invariant count <= i <= 3
      invariant longer == encoded + if i == count then [] else if i == count + 1 then [PAD] else [PAD, PAD]
    {
      i := i + 1;
      longer := longer + [PAD];
    }
  }

  /** The digits of the first `n` fields, appended one by one. */
  method AppendDigits(fields: array<Byte>, n: nat, ret: Text) returns (longer: Text)
    requires n <= fields.Length == 4 && forall k :: 0 <= k < n ==> fields[k] < 64
    ensures longer == ret + Digits64(fields[..n])
  {
    longer := ret;
    for j := 0 to n
      invariant longer == ret + Digits64(fields[..j])
    {
      longer := longer + [Digit(fields[j])];
      assert fields[..j + 1] == fields[..j] + [fields[j]];
    }
  }

  function Digits64(fields: Text): (t: Text)
    requires forall k :: 0 <= k < |fields| ==> fields[k] < 64
    ensures |t| == |fields|
    ensures forall k :: 0 <= k < |t| ==> t[k] == Digit(fields[k])
  {
    seq(|fields|, k requires 0 <= k < |fields| => Digit(fields[k]))
  }

  // ---------------------------------------------------------------- decoding

  /** The three bytes four fields stand for; sums are cut to eight bits. */
  function Byte0(x0: nat, x1: nat): Byte {
    (x0 * 4 + x1 % 0x40 / 0x10) % 0x100
  }

  function Byte1(x1: nat, x2: nat): Byte {
    (x1 % 0x10 * 0x10 + x2 % 0x40 / 4) % 0x100
  }

  function Byte2(x2: nat, x3: nat): Byte {
    (x2 % 4 * 0x40 + x3) % 0x100
  }

  /** The longest front part that consists of digits: decoding stops at a pad or any other byte. */
  function DigitsOf(t: Text): (r: Text)
    ensures |r| <= |t| && forall k :: 0 <= k < |r| ==> IsDigit64(r[k])
  {
    if t == [] || t[0] == PAD || !IsDigit64(t[0]) then [] else [t[0]] + DigitsOf(t[1..])
  }

  predicate AllDigits64(t: Text) {
    forall k :: 0 <= k < |t| ==> IsDigit64(t[k])
  }

  function DecodeGroup(t: Text): (s: Text)
    requires |t| == 4
    ensures |s| == 3
  {
    [Byte0(Find(t[0]), Find(t[1])), Byte1(Find(t[1]), Find(t[2])), Byte2(Find(t[2]), Find(t[3]))]
  }

  /** A tail of one digit gives nothing, of two one byte, of three two bytes. */
  function DecodeDigits(t: Text): Text {
    if |t| <= 1 then []
    else if |t| == 2 then [Byte0(Find(t[0]), Find(t[1]))]
    else if |t| == 3 then [Byte0(Find(t[0]), Find(t[1])), Byte1(Find(t[1]), Find(t[2]))]
    else DecodeGroup(t[..4]) + DecodeDigits(t[4..])
  }

  function Decode(t: Text): Text {
    DecodeDigits(DigitsOf(t))
  }

  /** The first `g` groups of four digits. */
  function DecodeGroups(t: Text, g: nat): Text
    requires 4 * g <= |t|
  {
    if g == 0 then [] else DecodeGroups(t, g - 1) + DecodeGroup(t[4 * g - 4..4 * g])
  }

  lemma {:induction false} DecodeSplit(t: Text, g: nat)
    requires 4 * g <= |t|
    ensures DecodeDigits(t) == DecodeGroups(t, g) + DecodeDigits(t[4 * g..])
  {
    hide DecodeGroup;
    if g == 0 {
      assert t[0..] == t;
    } else {
      DecodeSplit(t, g - 1);
      var u := t[4 * g - 4..];
      assert u[..4] == t[4 * g - 4..4 * g] && u[4..] == t[4 * g..];
      Assoc(DecodeGroups(t, g - 1), DecodeGroup(t[4 * g - 4..4 * g]), DecodeDigits(t[4 * g..]));
    }
  }

  lemma {:induction false} DigitsOfStops(t: Text, n: nat)
    requires n <= |t| && AllDigits64(t[..n]) && (n < |t| ==> t[n] == PAD || !IsDigit64(t[n]))
    ensures DigitsOf(t) == t[..n]
  {
    if n > 0 {
      assert t[..n][0] == t[0];
      assert t[1..][..n - 1] == t[..n][1..];
      DigitsOfStops(t[1..], n - 1);
    }
  }

  method Base64Decode(encodedString: Text) returns (ret: Text)
    ensures ret == Decode(encodedString)
  {
    hide DecodeGroups, DecodeDigits, DecodeGroup, DigitsOf, IsDigit64;
    var inLen: int := |encodedString|;
    var i, in_ := 0, 0;
    var charArray4 := new Byte[4];
    var charArray3 := new Byte[3];
    ret := [];
    ghost var t, groups := encodedString, 0;
    NothingDecoded(t);
    while inLen > 0 && encodedString[in_] != PAD && IsDigit64(encodedString[in_])
      invariant 0 <= inLen && in_ + inLen == |t| && 0 <= i < 4 && in_ == 4 * groups + i
      invariant forall k :: 0 <= k < in_ ==> IsDigit64(t[k])
      invariant forall k :: 0 <= k < i ==> charArray4[k] == t[4 * groups + k]
      invariant ret == DecodeGroups(t, groups)
    {
      inLen := inLen - 1;
      charArray4[i] := encodedString[in_];
      i := i + 1;
      in_ := in_ + 1;
      if i == 4 {
        assert charArray4[..4] == t[4 * groups..4 * groups + 4];
        ret := AppendDecoded(charArray4, charArray3, 4, ret);
        groups := groups + 1;
        OneMoreDecoded(t, groups);
        i := 0;
      }
    }
    ghost var digits := t[..in_];
    DigitsOfStops(t, in_);
    GroupsOfPrefix(t, in_, groups);
    DecodeSplit(digits, groups);
    ghost var tail := t[4 * groups..in_];
    assert digits[4 * groups..] == tail;
    if i > 0 {
      assert charArray4[..i] == tail;
      ret := AppendDecoded(charArray4, charArray3, i, ret);
    } else {
      assert tail == [] && DecodeDigits(tail) == [];
    }
  }

  lemma NothingDecoded(t: Text)
    ensures DecodeGroups(t, 0) == [] && DecodeDigits([]) == []
  {
  }

  lemma OneMoreDecoded(t: Text, g: nat)
    requires 0 < g && 4 * g <= |t|
    ensures DecodeGroups(t, g) == DecodeGroups(t, g - 1) + DecodeDigits(t[4 * g - 4..4 * g])
  {
    hide DecodeGroup;
    var four := t[4 * g - 4..4 * g];
    assert four[..4] == four && four[4..] == [];
    assert DecodeDigits(four) == DecodeGroup(four) + [];
  }

  /** The first `count` places become table indices, and one byte less is appended. */
  method AppendDecoded(charArray4: array<Byte>, charArray3: array<Byte>, count: nat, ret: Text) returns (longer: Text)
    requires charArray4.Length == 4 && charArray3.Length == 3 && charArray3 != charArray4 && 0 < count <= 4
    modifies charArray4, charArray3
    ensures longer == ret + DecodeDigits(old(charArray4[..count]))
  {
    ghost var t := charArray4[..count];
    FindInPlace(charArray4, count);
    charArray3[0] := Byte0(charArray4[0], charArray4[1]);
    charArray3[1] := Byte1(charArray4[1], charArray4[2]);
    charArray3[2] := Byte2(charArray4[2], charArray4[3]);
    longer := ret;
    for j := 0 to count - 1
      invariant longer == ret + charArray3[..j]
    {
      longer := longer + [charArray3[j]];
      assert charArray3[..j + 1] == charArray3[..j] + [charArray3[j]];
    }
    if count == 4 {
      assert t[..4] == t && t[4..] == [];
    }
    assert charArray3[..count - 1] == DecodeDigits(t);
  }

  lemma {:induction false} GroupsOfPrefix(t: Text, m: nat, g: nat)
    requires 4 * g <= m <= |t|
    ensures DecodeGroups(t[..m], g) == DecodeGroups(t, g)
  {
    if g > 0 {
      assert t[..m][4 * g - 4..4 * g] == t[4 * g - 4..4 * g];
      GroupsOfPrefix(t, m, g - 1);
    }
  }

  /** The digits of the first `n` places are replaced by their table index. */
  method FindInPlace(fields: array<Byte>, n: nat)
    requires n <= fields.Length == 4
    modifies fields
    ensures forall k :: 0 <= k < n ==> fields[k] == Find(old(fields[k]))
    ensures forall k :: n <= k < 4 ==> fields[k] == old(fields[k])
  {
    for i := 0 to n
      invariant forall k :: 0 <= k < i ==> fields[k] == Find(old(fields[k]))
      invariant forall k :: i <= k < 4 ==> fields[k] == old(fields[k])
    {
      fields[i] := Find(fields[i]);
    }
  }

  // ---------------------------------------------------------------- the round trip

  /** The fields are those of section 4 of RFC 4648: the 24 bits of three bytes, cut in four. */
  lemma FieldsAreTheBits(a: Byte, b: Byte, c: Byte)
    ensures (a as int * 0x1_0000) + (b as int * 0x100) + c
         == Field0(a) * 0x4_0000 + Field1(a, b) * 0x1000 + Field2(b, c) * 0x40 + Field3(c)
  {
  }

  lemma Split16(high: nat, low: nat)
    requires low < 0x10
    ensures (high * 0x10 + low) / 0x10 == high && (high * 0x10 + low) % 0x10 == low
  {
  }

  lemma Split4(high: nat, low: nat)
    requires low < 4
    ensures (high * 4 + low) / 4 == high && (high * 4 + low) % 4 == low
  {
  }

  /** Each byte is put together again from the two fields that share it. */
  lemma Byte0RoundTrip(a: Byte, b: Byte)
    ensures Byte0(Field0(a), Field1(a, b)) == a
  {
    var x1, high: int, low: int := Field1(a, b), a % 4, b / 0x10;
    assert x1 == high * 0x10 + low;
    Split16(high, low);
    assert x1 % 0x40 == x1 && x1 / 0x10 == high;
    assert Field0(a) * 4 + high == a;
  }

  lemma Byte1RoundTrip(a: Byte, b: Byte, c: Byte)
    ensures Byte1(Field1(a, b), Field2(b, c)) == b
  {
    var x1, x2 := Field1(a, b), Field2(b, c);
    var high1: int, low1: int, high2: int, low2: int := a % 4, b / 0x10, b % 0x10, c / 0x40;
    assert x1 == high1 * 0x10 + low1 && x2 == high2 * 4 + low2;
    Split16(high1, low1);
    Split4(high2, low2);
    assert x1 % 0x10 == low1;
    assert x2 % 0x40 == x2 && x2 / 4 == high2;
    assert low1 * 0x10 + high2 == b by {
      hide Field1, Field2, Byte1;
    }
    hide Field1, Field2;
  }

  lemma Byte2RoundTrip(b: Byte, c: Byte)
    ensures Byte2(Field2(b, c), Field3(c)) == c
  {
    var x2, high: int, low: int := Field2(b, c), b % 0x10, c / 0x40;
    assert x2 == high * 4 + low;
    Split4(high, low);
    assert x2 % 4 == low && low * 0x40 + Field3(c) == c;
  }

  lemma FindDigit(i: nat)
    requires i < 64
    ensures Find(Digit(i)) == i && Digit(i) != PAD
  {
  }

  lemma GroupDecodes(a: Byte, b: Byte, c: Byte)
    ensures AllDigits64(Group(a, b, c)) && DecodeGroup(Group(a, b, c)) == [a, b, c]
  {
    FindDigit(Field0(a));
    FindDigit(Field1(a, b));
    FindDigit(Field2(b, c));
    FindDigit(Field3(c));
    Byte0RoundTrip(a, b);
    Byte1RoundTrip(a, b, c);
    Byte2RoundTrip(b, c);
    hide Byte0, Byte1, Byte2, Field0, Field1, Field2, Field3, Digit, Find;
  }

  /** How many pads close the encoding of `n` bytes. */
  function Pads(n: nat): (p: nat)
    ensures p <= 2
  {
    (3 - n % 3) % 3
  }

  lemma PadsRepeat(n: nat)
    ensures Pads(n + 3) == Pads(n)
  {
  }

  /** Four digits for every three bytes begun. */
  lemma {:induction false} EncodeLength(s: Text)
    ensures |Encode(s)| == (|s| + 2) / 3 * 4
  {
    hide Group;
    if |s| > 2 {
      EncodeLength(s[3..]);
    }
  }

  /** Digits only, then at the very end the pads the RFC prescribes. */
  lemma {:induction false} EncodePadding(s: Text)
    ensures Pads(|s|) <= |Encode(s)|
    ensures AllDigits64(Encode(s)[..|Encode(s)| - Pads(|s|)])
    ensures Encode(s)[|Encode(s)| - Pads(|s|)..] == [PAD, PAD][..Pads(|s|)]
  {
    hide Group, IsDigit64;
    if |s| <= 2 {
      TailPadding(s);
    } else {
      var g, rest := Group(s[0], s[1], s[2]), Encode(s[3..]);
      GroupDecodes(s[0], s[1], s[2]);
      EncodePadding(s[3..]);
      PadsRepeat(|s| - 3);
      assert Encode(s) == g + rest;
      hide Pads, Encode, DecodeGroup;
      GroupThenDigits(g, rest, |rest| - Pads(|s|));
    }
  }

  lemma TailPadding(s: Text)
    requires |s| <= 2
    ensures Pads(|s|) <= |Encode(s)|
    ensures AllDigits64(Encode(s)[..|Encode(s)| - Pads(|s|)])
    ensures Encode(s)[|Encode(s)| - Pads(|s|)..] == [PAD, PAD][..Pads(|s|)]
  {
    hide Group, IsDigit64, DecodeGroup;
    var e := Encode(s);
    if |s| == 1 {
      GroupDecodes(s[0], 0, 0);
      assert e[..2] == Group(s[0], 0, 0)[..2] && e[2..] == [PAD, PAD];
    } else if |s| == 2 {
      GroupDecodes(s[0], s[1], 0);
      assert e[..3] == Group(s[0], s[1], 0)[..3] && e[3..] == [PAD];
    }
  }

  lemma GroupThenDigits(g: Text, rest: Text, end: nat)
    requires |g| == 4 && AllDigits64(g) && end <= |rest| && AllDigits64(rest[..end])
    ensures AllDigits64((g + rest)[..4 + end]) && (g + rest)[4 + end..] == rest[end..]
  {
    hide IsDigit64;
    assert (g + rest)[..4 + end] == g + rest[..end];
  }

  /** A tail of two or three digits decodes to the first bytes of its group. */
  lemma TailDecodes(a: Byte, b: Byte, n: nat)
    requires 1 <= n <= 2
    ensures DecodeDigits(Group(a, b, 0)[..n + 1]) == [a, b][..n]
  {
    hide Byte0, Byte1, Byte2, Field0, Field1, Field2, Field3, Digit, Find;
    GroupDecodes(a, b, 0);
    var g := Group(a, b, 0);
    assert g[..n + 1][0] == g[0] && g[..n + 1][1] == g[1] && (n == 2 ==> g[..n + 1][2] == g[2]);
  }

  /** Decoding what was encoded gives the bytes back. */
  lemma {:induction false} RoundTrip(s: Text)
    ensures Decode(Encode(s)) == s
  {
    hide Group, DecodeGroup, IsDigit64;
    var e := Encode(s);
    if |s| == 0 {
    } else if |s| <= 2 {
      var b: Byte := if |s| == 2 then s[1] else 0;
      var g := Group(s[0], b, 0);
      GroupDecodes(s[0], b, 0);
      TailDecodes(s[0], b, |s|);
      assert e[..|s| + 1] == g[..|s| + 1];
      DigitsOfStops(e, |s| + 1);
      assert [s[0], b][..|s|] == s;
    } else {
      var g, rest := Group(s[0], s[1], s[2]), Encode(s[3..]);
      RoundTrip(s[3..]);
      GroupDecodes(s[0], s[1], s[2]);
      DigitsOfGroup(g, rest);
      assert (g + DigitsOf(rest))[..4] == g && (g + DigitsOf(rest))[4..] == DigitsOf(rest);
      assert s == [s[0], s[1], s[2]] + s[3..];
    }
  }

  lemma DigitsOfGroup(g: Text, rest: Text)
    requires |g| == 4 && AllDigits64(g)
    ensures DigitsOf(g + rest) == g + DigitsOf(rest)
  {
    var t := g + rest;
    assert t[1..] == g[1..] + rest && t[1..][1..] == g[2..] + rest;
    assert t[1..][1..][1..] == g[3..] + rest && t[1..][1..][1..][1..] == rest;
    assert DigitsOf(g[3..] + rest) == [g[3]] + DigitsOf(rest);
    assert DigitsOf(g[2..] + rest) == [g[2]] + DigitsOf(g[3..] + rest);
    assert DigitsOf(g[1..] + rest) == [g[1]] + DigitsOf(g[2..] + rest);
    assert g == [g[0], g[1], g[2], g[3]];
  }

  // ---------------------------------------------------------------- place by place

  /** Table 1 of RFC 4648. */
  function Alphabet(): (t: Text)
    ensures |t| == 64
  {
    Ascii("ABCDEFGHIJKLMNOPQRSTUVWXYZ") + Ascii("abcdefghijklmnopqrstuvwxyz") + Ascii("0123456789+/")
  }

  lemma TableIsTheAlphabet(i: nat)
    requires i < 64
    ensures Alphabet()[i] == Digit(i)
  {
    hide IsDigit64;
    if i < 26 {
      UpperLetter(i);
    } else if i < 52 {
      LowerLetter(i - 26);
    } else {
      DigitOrSign(i - 52);
    }
    hide Ascii;
  }

  lemma UpperLetter(i: nat)
    requires i < 26
    ensures Ascii("ABCDEFGHIJKLMNOPQRSTUVWXYZ")[i] == 0x41 + i
  {
  }

  lemma LowerLetter(i: nat)
    requires i < 26
    ensures Ascii("abcdefghijklmnopqrstuvwxyz")[i] == 0x61 + i
  {
  }

  lemma DigitOrSign(i: nat)
    requires i < 12
    ensures Ascii("0123456789+/")[i] == if i < 10 then 0x30 + i else if i == 10 then 0x2B else 0x2F
  {
  }

  /** The `j`-th six bits of 24, and the `j`-th eight bits. */
  function SixBits(n: nat, j: nat): nat
    requires j < 4
  {
    (if j == 0 then n / 262144 else if j == 1 then n / 4096 else if j == 2 then n / 64 else n) % 64
  }

  function EightBits(n: nat, j: nat): nat
    requires j < 3
  {
    (if j == 0 then n / 65536 else if j == 1 then n / 256 else n) % 256
  }

  lemma FieldsAreSixBits(a: Byte, b: Byte, c: Byte)
    ensures var n := a as int * 65536 + b as int * 256 + c as int;
            && SixBits(n, 0) == Field0(a) && SixBits(n, 1) == Field1(a, b)
            && SixBits(n, 2) == Field2(b, c) && SixBits(n, 3) == Field3(c)
  {
    FieldsAreTheBits(a, b, c);
    var w, x, y, z := Field0(a), Field1(a, b), Field2(b, c), Field3(c);
    hide Field0, Field1, Field2, Field3;
    SplitFour(w, x, y, z);
  }

  lemma SplitFour(w: nat, x: nat, y: nat, z: nat)
    requires w < 64 && x < 64 && y < 64 && z < 64
    ensures var n := w * 262144 + x * 4096 + y * 64 + z;
            n / 262144 % 64 == w && n / 4096 % 64 == x && n / 64 % 64 == y && n % 64 == z
  {
    var n := w * 262144 + x * 4096 + y * 64 + z;
    assert n / 64 == w * 4096 + x * 64 + y;
    assert n / 4096 == w * 64 + x;
  }

  /** A byte, or zero behind the end. */
  function OrZero(s: Text, i: nat): Byte {
    if i < |s| then s[i] else 0
  }

  /** The 24 bits that start at a byte. */
  function Bits24(s: Text, i: nat): nat {
    OrZero(s, i) as int * 65536 + OrZero(s, i + 1) as int * 256 + OrZero(s, i + 2) as int
  }

  /** Every place of the encoding: six bits of its group through the table of the RFC, or a pad where the group
      has no byte any more. */
  lemma {:induction false} EncodeAt(s: Text, g: nat, j: nat)
    requires 3 * g < |s| && j < 4
    ensures 4 * g + j < |Encode(s)|
    ensures Encode(s)[4 * g + j]
         == if 3 * g + j <= |s| then Alphabet()[SixBits(Bits24(s, 3 * g), j)] else 0x3D
  {
    EncodeLength(s);
    hide Alphabet, SixBits, Bits24;
    if g > 0 {
      hide Group;
      EncodeAt(s[3..], g - 1, j);
      SameBits(s, g);
    } else {
      FirstGroupAt(s, j);
    }
  }

  lemma FirstGroupAt(s: Text, j: nat)
    requires s != [] && j < 4
    ensures j < |Encode(s)|
    ensures Encode(s)[j] == if j <= |s| then Alphabet()[SixBits(Bits24(s, 0), j)] else 0x3D
  {
    hide Alphabet, SixBits, Digit, Field0, Field1, Field2, Field3;
    FieldsAreSixBits(OrZero(s, 0), OrZero(s, 1), OrZero(s, 2));
    TableIsTheAlphabet(SixBits(Bits24(s, 0), j));
  }

  lemma SameBits(s: Text, g: nat)
    requires g > 0 && |s| >= 3
    ensures Bits24(s, 3 * g) == Bits24(s[3..], 3 * (g - 1))
  {
  }

  /** The value of a digit at a place, or zero behind the end. */
  function PlaceOrZero(v: seq<nat>, i: nat): nat {
    if i < |v| then v[i] else 0
  }

  function Places24(v: seq<nat>, i: nat): nat {
    PlaceOrZero(v, i) * 262144 + PlaceOrZero(v, i + 1) * 4096 + PlaceOrZero(v, i + 2) * 64 + PlaceOrZero(v, i + 3)
  }

  predicate HasValue(c: Byte, v: nat) {
    v < 64 && c == Alphabet()[v]
  }

  /** The text consists of the digits with these values. */
  predicate HasValues(t: Text, v: seq<nat>) {
    |t| == |v| && forall i :: 0 <= i < |v| ==> HasValue(t[i], v[i])
  }

  lemma ValuesAreFound(t: Text, v: seq<nat>, i: nat)
    requires HasValues(t, v) && i < |t|
    ensures IsDigit64(t[i]) && Find(t[i]) == v[i]
  {
    TableIsTheAlphabet(v[i]);
    FindDigit(v[i]);
  }

  predicate IsAt(s: Text, k: nat, b: nat) {
    k < |s| && s[k] == b
  }

  predicate IsOutside(c: Byte) {
    c !in Alphabet()
  }

  lemma {:induction false} DecodedLength(t: Text)
    ensures |DecodeDigits(t)| == |t| * 3 / 4
  {
    hide DecodeGroup;
    if |t| >= 4 {
      DecodedLength(t[4..]);
    }
  }

  /** The bytes of decoded digits: eight bits each of the 24 bits of their group; of the last, incomplete group
      only the complete bytes. */
  lemma {:induction false} DecodeDigitsAt(t: Text, v: seq<nat>, g: nat, j: nat)
    requires HasValues(t, v) && j < 3
    ensures 4 * g + j + 1 < |t| ==> IsAt(DecodeDigits(t), 3 * g + j, EightBits(Places24(v, 4 * g), j))
  {
    hide HasValue, EightBits, Places24;
    if g > 0 {
      hide DecodeGroup;
      if |t| >= 4 {
        DecodeDigitsAt(t[4..], v[4..], g - 1, j);
        SamePlaces(v, g);
      }
    } else if j + 1 < |t| {
      hide HasValues, Byte0, Byte1, Byte2, Find;
      GroupAt(t, v, j);
      if |t| >= 4 {
        assert t[..4][0] == t[0] && t[..4][1] == t[1] && t[..4][2] == t[2] && t[..4][3] == t[3];
      }
    }
  }

  lemma SamePlaces(v: seq<nat>, g: nat)
    requires g > 0 && |v| >= 4
    ensures Places24(v, 4 * g) == Places24(v[4..], 4 * (g - 1))
  {
  }

  lemma GroupAt(t: Text, v: seq<nat>, j: nat)
    requires HasValues(t, v) && j < 3
    ensures j + 1 < |t| ==>
              EightBits(Places24(v, 0), j)
              == if j == 0 then Byte0(Find(t[0]), Find(t[1])) else if j == 1 then Byte1(Find(t[1]), Find(t[2]))
                 else Byte2(Find(t[2]), Find(t[3]))
  {
    hide Alphabet;
    if j + 1 < |t| {
      forall i: nat | i < |t|
        ensures Find(t[i]) == v[i]
      {
        ValuesAreFound(t, v, i);
      }
      hide Find;
      BytesAreEightBits(PlaceOrZero(v, 0), PlaceOrZero(v, 1), PlaceOrZero(v, 2), PlaceOrZero(v, 3));
      hide Byte0, Byte1, Byte2, EightBits, HasValues;
    }
  }

  lemma BytesAreEightBits(w: nat, x: nat, y: nat, z: nat)
    requires w < 64 && x < 64 && y < 64 && z < 64
    ensures var n := w * 262144 + x * 4096 + y * 64 + z;
            EightBits(n, 0) == Byte0(w, x) && EightBits(n, 1) == Byte1(x, y) && EightBits(n, 2) == Byte2(y, z)
  {
    BytesInParts(w, x, y, z);
    hide Byte0, Byte1, Byte2;
    var x1, x0, y1, y0 := x / 16, x % 16, y / 4, y % 4;
    SplitThree(w * 4 + x1, x0 * 16 + y1, y0 * 64 + z);
    Rearrange(w, x1, x0, y1, y0, z);
    assert x1 * 16 + x0 == x && y1 * 4 + y0 == y;
  }

  lemma Rearrange(w: nat, x1: nat, x0: nat, y1: nat, y0: nat, z: nat)
    ensures w * 262144 + (x1 * 16 + x0) * 4096 + (y1 * 4 + y0) * 64 + z
         == (w * 4 + x1) * 65536 + (x0 * 16 + y1) * 256 + (y0 * 64 + z)
  {
  }

  lemma BytesInParts(w: nat, x: nat, y: nat, z: nat)
    requires w < 64 && x < 64 && y < 64 && z < 64
    ensures Byte0(w, x) == w * 4 + x / 16 && Byte1(x, y) == x % 16 * 16 + y / 4 && Byte2(y, z) == y % 4 * 64 + z
  {
  }

  lemma SplitThree(a: nat, b: nat, c: nat)
    requires a < 256 && b < 256 && c < 256
    ensures var n := a * 65536 + b * 256 + c; n / 65536 % 256 == a && n / 256 % 256 == b && n % 256 == c
  {
    var n := a * 65536 + b * 256 + c;
    assert n / 256 == a * 256 + b;
  }

  /** Decoding reads digits up to the first byte that is none, a pad or anything else. */
  lemma DecodeAt(t: Text, v: seq<nat>, rest: Text, g: nat, j: nat)
    requires HasValues(t, v) && j < 3
    requires rest == [] || IsOutside(rest[0])
    ensures |Decode(t + rest)| == |t| * 3 / 4
    ensures 4 * g + j + 1 < |t| ==> IsAt(Decode(t + rest), 3 * g + j, EightBits(Places24(v, 4 * g), j))
  {
    hide HasValue, IsOutside, EightBits, Places24, DecodeDigits;
    forall i: nat | i < |t|
      ensures IsDigit64(t[i])
    {
      ValuesAreFound(t, v, i);
    }
    if rest != [] {
      OutsideTheAlphabet(rest[0]);
    }
    assert (t + rest)[..|t|] == t;
    hide IsDigit64, HasValues;
    DigitsOfStops(t + rest, |t|);
    DecodedLength(t);
    DecodeDigitsAt(t, v, g, j);
  }

  lemma OutsideTheAlphabet(c: Byte)
    requires IsOutside(c)
    ensures !IsDigit64(c)
  {
    if IsDigit64(c) {
      TableIsTheAlphabet(Find(c));
    }
  }
}
