/** Bytes and the ASCII characters the JSON text is made of. */
module Bytes {

  type Byte = x: int | 0 <= x < 0x100

  type Text = seq<Byte>

  const QUOTE: Byte := 0x22
  const BACKSLASH: Byte := 0x5C
  const SLASH: Byte := 0x2F
  const STAR: Byte := 0x2A
  const COMMA: Byte := 0x2C
  const COLON: Byte := 0x3A
  const MINUS: Byte := 0x2D
  const PLUS: Byte := 0x2B
  const DOT: Byte := 0x2E
  const ZERO: Byte := 0x30
  const NINE: Byte := 0x39
  const OPEN_BRACKET: Byte := 0x5B
  const CLOSE_BRACKET: Byte := 0x5D
  const OPEN_BRACE: Byte := 0x7B
  const CLOSE_BRACE: Byte := 0x7D
  const SPACE: Byte := 0x20
  const TAB: Byte := 0x09
  const LINE_FEED: Byte := 0x0A
  const CARRIAGE_RETURN: Byte := 0x0D
  const BACKSPACE: Byte := 0x08
  const FORM_FEED: Byte := 0x0C
  const LETTER_U: Byte := 0x75

  const TRUE_TEXT: Text := [0x74, 0x72, 0x75, 0x65]
  const FALSE_TEXT: Text := [0x66, 0x61, 0x6C, 0x73, 0x65]
  const NULL_TEXT: Text := [0x6E, 0x75, 0x6C, 0x6C]

  /** The bytes of a text given as characters. */
  function Ascii(s: string): (t: Text)
    requires forall i :: 0 <= i < |s| ==> s[i] < 128 as char
    ensures |t| == |s| && forall i :: 0 <= i < |s| ==> t[i] == s[i] as int
  {
    seq(|s|, i requires 0 <= i < |s| => s[i] as int)
  }

  predicate IsDigit(b: Byte) {
    ZERO <= b <= NINE
  }

  predicate IsSpace(b: Byte) {
    b == SPACE || b == TAB || b == CARRIAGE_RETURN || b == LINE_FEED
  }

  /** Concatenation may be regrouped; spelled out where the prover would have to search for it. */
  lemma Assoc<T>(a: seq<T>, b: seq<T>, c: seq<T>)
    ensures a + b + c == a + (b + c)
  {
  }

  /** Byte-wise order with the shorter of two texts first when one is a prefix of the other:
      what `memcmp` on the common length followed by a length test decides. */
  predicate TextLess(a: Text, b: Text) {
    if b == [] then false
    else if a == [] then true
    else if a[0] != b[0] then a[0] < b[0]
    else TextLess(a[1..], b[1..])
  }

  /** `a` is below `b` where they first differ, at `n`: by a smaller byte, or because it ends there. */
  predicate BelowAt(a: Text, b: Text, n: nat) {
    n <= |a| && n < |b| && a[..n] == b[..n] && (n == |a| || a[n] < b[n])
  }

  lemma FrontAgrees(a: Text, b: Text, n: nat)
    requires n <= |a| && n <= |b| && a[..n] == b[..n]
    ensures n > 0 ==> a[0] == b[0]
  {
    assert n > 0 ==> a[..n][0] == b[..n][0];
  }

  /** Two sequences agree on a front part exactly when they agree on its first element and on the rest of it. */
  lemma SameFronts<T>(a: seq<T>, b: seq<T>, n: nat)
    requires n < |a| && n < |b|
    ensures a[..n + 1] == b[..n + 1] <==> a[0] == b[0] && a[1..][..n] == b[1..][..n]
  {
    if a[..n + 1] == b[..n + 1] {
      assert a[0] == a[..n + 1][0] && b[0] == b[..n + 1][0];
      assert a[1..][..n] == a[..n + 1][1..] && b[1..][..n] == b[..n + 1][1..];
    }
    if a[0] == b[0] && a[1..][..n] == b[1..][..n] {
      assert a[..n + 1] == [a[0]] + a[1..][..n];
      assert b[..n + 1] == [b[0]] + b[1..][..n];
    }
  }

  lemma FrontsBelow(a: Text, b: Text, n: nat)
    requires a != [] && b != [] && a[0] == b[0] && BelowAt(a, b, n)
    ensures n > 0 && BelowAt(a[1..], b[1..], n - 1)
  {
    if n > 0 {
      SameFronts(a, b, n - 1);
    }
  }

  /** The order is decided by the first difference. */
  lemma {:induction false} TextLessExactly(a: Text, b: Text)
    ensures TextLess(a, b) <==> exists n: nat :: BelowAt(a, b, n)
  {
    if a == [] || b == [] || a[0] != b[0] {
      if n: nat :| BelowAt(a, b, n) {
        FrontAgrees(a, b, n);
      }
      if TextLess(a, b) {
        assert BelowAt(a, b, 0);
      }
    } else {
      TextLessExactly(a[1..], b[1..]);
      if n: nat :| BelowAt(a, b, n) {
        FrontsBelow(a, b, n);
      }
      if n: nat :| BelowAt(a[1..], b[1..], n) {
        SameFronts(a, b, n);
        assert BelowAt(a, b, n + 1);
      }
    }
  }

  lemma {:induction false} TextLessIrreflexive(a: Text)
    ensures !TextLess(a, a)
  {
    if a != [] {
      TextLessIrreflexive(a[1..]);
    }
  }

  lemma {:induction false} TextLessTransitive(a: Text, b: Text, c: Text)
    requires TextLess(a, b) && TextLess(b, c)
    ensures TextLess(a, c)
  {
    if a != [] && a[0] == b[0] == c[0] {
      TextLessTransitive(a[1..], b[1..], c[1..]);
    }
  }

  lemma {:induction false} TextLessTotal(a: Text, b: Text)
    ensures TextLess(a, b) || a == b || TextLess(b, a)
  {
    if a != [] && b != [] && a[0] == b[0] {
      TextLessTotal(a[1..], b[1..]);
      assert a == [a[0]] + a[1..] && b == [b[0]] + b[1..];
    }
  }
}
