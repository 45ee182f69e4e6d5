/** Integers to decimal text and back (jsoncpp.cpp: uintToString, valueToString, decodeNumber). */
module Numbers {
  import opened Bytes
  import opened JsonValue

  const TWO_TO_64 := 0x1_0000_0000_0000_0000
  const BUFFER_SIZE := 25

  // ---------------------------------------------------------------- writing

  function Digits(n: nat): (t: Text)
    ensures t != []
  {
    if n < 10 then [ZERO + n] else Digits(n / 10) + [ZERO + n % 10]
  }

  function IntText(n: int): Text {
    if n < 0 then [MINUS] + Digits(-n) else Digits(n)
  }

  function Pow10(k: nat): nat {
    if k == 0 then 1 else 10 * Pow10(k - 1)
  }

  /** Fill the buffer backwards from `top`: a terminator, then the digits, last one first. */
  method UintToString(value: UInt64, buffer: array<Byte>, top: nat) returns (current: nat)
    requires 21 <= top <= buffer.Length
    modifies buffer
    ensures top - 21 <= current < top && buffer[top - 1] == 0
    ensures buffer[current..top - 1] == Digits(value)
  {
    current := top - 1;
    buffer[current] := 0;
    var v: nat := value;
    ghost var room := 20;
    assert Pow10(4) == 10_000;
    assert Pow10(8) == 100_000_000;
    assert Pow10(12) == 1_000_000_000_000;
    assert Pow10(16) == 10_000_000_000_000_000;
    assert Pow10(20) == 100_000_000_000_000_000_000;
    while true
      invariant 1 <= room <= 20 && current == top - 21 + room
      invariant v < Pow10(room)
      invariant buffer[top - 1] == 0
      invariant current == top - 1 ==> v == value
      invariant current < top - 1 ==> Digits(value) == Digits(v) + buffer[current..top - 1] && v != 0
      decreases v
    {
      ghost var tail := buffer[current..top - 1];
      current := current - 1;
      buffer[current] := v % 10 + ZERO;
      assert buffer[current..top - 1] == [v % 10 + ZERO] + tail;
      assert Pow10(1) == 10;
      assert v >= 10 ==> Digits(v) == Digits(v / 10) + [ZERO + v % 10];
      v := v / 10;
      if v == 0 {
        break;
      }
      room := room - 1;
    }
  }

  /** `valueToString` for signed integers; the most negative one has no positive counterpart. */
  method IntToString(value: Int64) returns (t: Text)
    ensures t == IntText(value)
  {
    var buffer := new Byte[BUFFER_SIZE];
    var current;
    if value == MIN_INT64 {
      current := UintToString(MAX_INT64 + 1, buffer, BUFFER_SIZE);
      ghost var digits := buffer[current..BUFFER_SIZE - 1];
      current := current - 1;
      buffer[current] := MINUS;
      assert buffer[current..BUFFER_SIZE - 1] == [MINUS] + digits;
    } else if value < 0 {
      current := UintToString(-value, buffer, BUFFER_SIZE);
      ghost var digits := buffer[current..BUFFER_SIZE - 1];
      current := current - 1;
      buffer[current] := MINUS;
      assert buffer[current..BUFFER_SIZE - 1] == [MINUS] + digits;
    } else {
      current := UintToString(value, buffer, BUFFER_SIZE);
    }
    t := buffer[current..BUFFER_SIZE - 1];
  }

  method UIntToString(value: UInt64) returns (t: Text)
    ensures t == IntText(value)
  {
    var buffer := new Byte[BUFFER_SIZE];
    var current := UintToString(value, buffer, BUFFER_SIZE);
    t := buffer[current..BUFFER_SIZE - 1];
  }

  // ---------------------------------------------------------------- reading

  predicate AllDigits(s: Text) {
    forall i :: 0 <= i < |s| ==> IsDigit(s[i])
  }

  /** The number a run of digits denotes. */
  function Numeral(s: Text): nat
    requires AllDigits(s)
  {
    if s == [] then 0 else 10 * Numeral(s[..|s| - 1]) + (s[|s| - 1] - ZERO)
  }

  /** What a number token becomes: an integer value, or left to the conversion to double. */
  datatype Number = Whole(value: Value) | Double

  function Limit(negative: bool): nat {
    if negative then MAX_INT64 + 1 else MAX_UINT64
  }

  /** The stored form of an integer: signed if it is negative or fits 31 bits, unsigned otherwise. */
  function Stored(z: int): Value
    requires MIN_INT64 <= z <= MAX_UINT64
  {
    if z <= MAX_INT then Int(z) else UInt(z)
  }

  function Unsigned(token: Text): Text
    requires token != []
  {
    if token[0] == MINUS then token[1..] else token
  }

  /** A token of an optional minus and digits is its exact integer as long as that fits the sign's
      64-bit range; every other token is a double. */
  function NumberOf(token: Text): Number
    requires token != []
  {
    var negative, body := token[0] == MINUS, Unsigned(token);
    if !AllDigits(body) || Numeral(body) > Limit(negative) then Double
    else Whole(Stored(if negative then 0 - Numeral(body) else Numeral(body)))
  }

  lemma {:induction false} NumeralGrows(s: Text, i: nat)
    requires AllDigits(s) && i <= |s|
    ensures Numeral(s) >= Numeral(s[..i])
    ensures i < |s| ==> Numeral(s) >= 10 * Numeral(s[..i])
  {
    if i == |s| {
      assert s[..i] == s;
    } else {
      NumeralGrows(s[..|s| - 1], i);
      assert s[..|s| - 1][..i] == s[..i];
    }
  }

  lemma NumeralStep(s: Text, i: nat)
    requires i < |s| && AllDigits(s[..i]) && IsDigit(s[i])
    ensures AllDigits(s[..i + 1])
    ensures Numeral(s[..i + 1]) == 10 * Numeral(s[..i]) + (s[i] - ZERO)
  {
    assert s[..i + 1][..i] == s[..i];
    assert s[..i + 1] == s[..i] + [s[i]];
  }

  /** Where the guard of the loop gives up, the whole numeral is out of range. */
  lemma GuardIsExact(s: Text, i: nat, limit: nat)
    requires i < |s| && AllDigits(s) && limit >= 100
    requires Numeral(s[..i]) >= limit / 10
    requires Numeral(s[..i]) > limit / 10 || i + 1 != |s| || s[i] - ZERO > limit % 10
    ensures Numeral(s) > limit
  {
    NumeralGrows(s, i);
    NumeralGrows(s, i + 1);
    NumeralStep(s, i);
    assert i + 1 == |s| ==> s[..i + 1] == s;
  }

  /** One digit more: the wrapping sum is the longer prefix, or the whole numeral is out of range. */
  lemma GuardedStep(s: Text, i: nat, limit: nat, value: nat)
    requires i < |s| && AllDigits(s[..i]) && value == Numeral(s[..i]) && IsDigit(s[i])
    requires 100 <= limit < TWO_TO_64
    ensures AllDigits(s[..i + 1])
    ensures if Stops(s, i, limit, value) then AllDigits(s) ==> Numeral(s) > limit
            else (value * 10 + (s[i] - ZERO)) % TWO_TO_64 == Numeral(s[..i + 1]) <= limit
  {
    NumeralStep(s, i);
    hide Numeral, AllDigits;
    if Stops(s, i, limit, value) {
      if AllDigits(s) {
        GuardIsExact(s, i, limit);
      }
    } else {
      NoOverflow(value, s[i] - ZERO, limit);
    }
  }

  /** The guard: the limit's tenth is reached, and it is exceeded, or digits follow, or the last one is
      too big. */
  predicate Stops(s: Text, i: nat, limit: nat, value: nat)
    requires i < |s|
  {
    value >= limit / 10 && (value > limit / 10 || i + 1 != |s| || s[i] - ZERO > limit % 10)
  }

  lemma NoOverflow(value: nat, digit: nat, limit: nat)
    requires digit < 10 && limit < TWO_TO_64
    requires value < limit / 10 || (value == limit / 10 && digit <= limit % 10)
    ensures value * 10 + digit <= limit && (value * 10 + digit) % TWO_TO_64 == value * 10 + digit
  {
    assert limit == limit / 10 * 10 + limit % 10;
  }

  /** The guarded accumulation, in 64-bit arithmetic that wraps: it never does. */
  method DecodeNumber(token: Text) returns (r: Number)
    requires token != []
    ensures r == NumberOf(token)
  {
    var current := 0;
    var isNegative := token[current] == MINUS;
    if isNegative {
      current := current + 1;
    }
    ghost var body, skipped := Unsigned(token), current;
    var maxIntegerValue: nat := if isNegative then MAX_INT64 + 1 else MAX_UINT64;
    var threshold := maxIntegerValue / 10;
    var value: nat := 0;
    assert body[..0] == [] && Numeral([]) == 0;
    hide Numeral, AllDigits, Stored;
    while current < |token|
      invariant skipped <= current <= |token|
      invariant AllDigits(body[..current - skipped])
      invariant value == Numeral(body[..current - skipped]) <= maxIntegerValue
    {
      ghost var i := current - skipped;
      var c: int := token[current];
      assert c == body[i];
      current := current + 1;
      if c < ZERO || c > NINE {
        NotAllDigits(body, i);
        return Double;
      }
      var digit := c - ZERO;
      GuardedStep(body, i, maxIntegerValue, value);
      if value >= threshold {
        if value > threshold || current != |token| || digit > maxIntegerValue % 10 {
          return Double;
        }
      }
      value := (value * 10 + digit) % TWO_TO_64;
    }
    assert body[..current - skipped] == body;
    StoredForms(if isNegative then 0 - value else value);
    if isNegative && value == maxIntegerValue {
      return Whole(Int(MIN_INT64));
    } else if isNegative {
      return Whole(Int(0 - value));
    } else if value <= MAX_INT {
      return Whole(Int(value));
    } else {
      return Whole(UInt(value));
    }
  }

  lemma NotAllDigits(s: Text, i: nat)
    requires i < |s| && !IsDigit(s[i])
    ensures !AllDigits(s)
  {
  }

  lemma StoredForms(z: int)
    requires MIN_INT64 <= z <= MAX_UINT64
    ensures z <= MAX_INT ==> Stored(z) == Int(z)
    ensures z > MAX_INT ==> Stored(z) == UInt(z)
  {
  }

  // ---------------------------------------------------------------- there and back

  lemma {:induction false} NumeralOfDigits(n: nat)
    ensures AllDigits(Digits(n)) && Numeral(Digits(n)) == n
  {
    if n >= 10 {
      NumeralOfDigits(n / 10);
      var d := Digits(n / 10);
      assert Digits(n)[..|Digits(n)| - 1] == d;
    } else {
      assert Digits(n)[..0] == [];
      assert Numeral(Digits(n)[..0]) == 0;
    }
  }

  /** Reading back the text of any 64-bit integer, of either sign, gives that integer. */
  lemma IntTextRoundTrip(z: int)
    requires MIN_INT64 <= z <= MAX_UINT64
    ensures IntText(z) != [] && NumberOf(IntText(z)) == Whole(Stored(z))
  {
    if z < 0 {
      NumeralOfDigits(-z);
      assert Unsigned(IntText(z)) == Digits(-z);
    } else {
      NumeralOfDigits(z);
      assert IsDigit(Digits(z)[0]);
    }
  }

  /** A lone minus sign is a number token, and it reads as the integer zero. */
  lemma LoneMinusIsZero()
    ensures NumberOf([MINUS]) == Whole(Int(0))
  {
    assert Unsigned([MINUS]) == [];
  }

  // ---------------------------------------------------------------- numbers in literal bytes

  /** Ten to a power for every place: what a run of decimal digits denotes, counted from its last digit. */
  function Decimal(s: Text): nat
    requires forall i :: 0 <= i < |s| ==> 0x30 <= s[i] <= 0x39
  {
    if s == [] then 0 else (s[0] - 0x30) * Pow10(|s| - 1) + Decimal(s[1..])
  }

  lemma {:induction false} DecimalAppend(s: Text, b: Byte)
    requires 0x30 <= b <= 0x39 && forall i :: 0 <= i < |s| ==> 0x30 <= s[i] <= 0x39
    ensures Decimal(s + [b]) == 10 * Decimal(s) + (b - 0x30)
  {
    if s == [] {
      assert [b][1..] == [] && [] + [b] == [b];
    } else {
      DecimalAppend(s[1..], b);
      assert (s + [b])[1..] == s[1..] + [b];
      var d: int, p := s[0] - 0x30, Pow10(|s| - 1);
      assert Pow10(|s|) == 10 * p;
      assert d * (10 * p) == 10 * (d * p);
    }
  }

  lemma {:induction false} NumeralIsDecimal(s: Text)
    requires AllDigits(s)
    ensures Numeral(s) == Decimal(s)
  {
    if s != [] {
      NumeralIsDecimal(s[..|s| - 1]);
      DecimalAppend(s[..|s| - 1], s[|s| - 1]);
      assert s == s[..|s| - 1] + [s[|s| - 1]];
    }
  }

  /** What becomes of digits with or without a minus: signed from -2^63 to 2^31 - 1, unsigned up to 2^64 - 1, and a
      double outside. */
  lemma IntegersExactly(minus: bool, s: Text)
    requires s != [] && forall i :: 0 <= i < |s| ==> 0x30 <= s[i] <= 0x39
    ensures var n, token := Decimal(s), (if minus then [0x2D] else []) + s;
            NumberOf(token)
            == if minus then if n <= 9223372036854775808 then Whole(Int(0 - n)) else Number.Double
               else if n <= 2147483647 then Whole(Int(n))
               else if n <= 18446744073709551615 then Whole(UInt(n))
               else Number.Double
  {
    NumeralIsDecimal(s);
    var t: Text := (if minus then [0x2D] else []) + s;
    assert Unsigned(t) == s;
  }

  /** A number with any other byte in it is a double. */
  lemma OthersAreDoubles(token: Text, i: nat)
    requires 0 < i < |token| && !(0x30 <= token[i] <= 0x39)
    ensures NumberOf(token) == Number.Double
  {
    var body := Unsigned(token);
    assert body[if token[0] == MINUS then i - 1 else i] == token[i];
  }

  /** The text of an integer: a minus if it is negative, then the digits of its amount, the first of which is zero
      only for zero itself. */
  lemma {:induction false} DigitsAreDecimal(n: nat)
    ensures forall i :: 0 <= i < |Digits(n)| ==> 0x30 <= Digits(n)[i] <= 0x39
    ensures Digits(n) != [] && Decimal(Digits(n)) == n
    ensures n > 0 ==> Digits(n)[0] != 0x30
  {
    NumeralOfDigits(n);
    NumeralIsDecimal(Digits(n));
    if n >= 10 {
      DigitsAreDecimal(n / 10);
    }
  }

  lemma IntTextIsDecimal(z: int)
    ensures var d := Digits(if z < 0 then -z else z);
            && IntText(z) == (if z < 0 then [0x2D] else []) + d
            && d != [] && (forall i :: 0 <= i < |d| ==> 0x30 <= d[i] <= 0x39) && (z != 0 ==> d[0] != 0x30)
            && Decimal(d) == (if z < 0 then -z else z)
  {
    DigitsAreDecimal(if z < 0 then -z else z);
  }
}
