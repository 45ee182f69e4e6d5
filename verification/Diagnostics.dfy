/** Broken documents: which error is reported for which token, what is left of the value, and where the reader goes
    on; and the documents that make it throw. */
module Diagnostics {
  import opened Bytes
  import opened JsonValue
  import opened Numbers
  import opened Quoting
  import opened Unquoting
  import opened Lexer
  import opened Parser
  import opened Rendering
  import opened RoundTrip
  import opened Canonical

  // ---------------------------------------------------------------- recovery

  /** Recovery goes on after the first token of the kind asked for, or after an end of the stream. */
  lemma {:induction false} RecoverStops(skipped: seq<Token>, t: Token, rest: seq<Token>, until: Kind)
    requires t.kind == until || t.kind == EndOfStream
    requires forall x :: x in skipped ==> x.kind != until && x.kind != EndOfStream
    ensures Recover(skipped + ([t] + rest), until) == rest
  {
    var ts := skipped + ([t] + rest);
    if skipped == [] {
      assert ts == [t] + rest && ts[1..] == rest;
    } else {
      assert skipped[0] in skipped && forall x :: x in skipped[1..] ==> x in skipped;
      RecoverStops(skipped[1..], t, rest, until);
      assert ts[0] == skipped[0] && ts[1..] == skipped[1..] + ([t] + rest);
    }
  }

  /** Without such a token nothing is left. */
  lemma {:induction false} RecoverToTheEnd(ts: seq<Token>, until: Kind)
    requires forall x :: x in ts ==> x.kind != until && x.kind != EndOfStream
    ensures Recover(ts, until) == []
  {
    if ts != [] {
      assert ts[0] in ts && forall x :: x in ts[1..] ==> x in ts;
      RecoverToTheEnd(ts[1..], until);
    }
  }

  // ---------------------------------------------------------------- errors

  /** A token that begins no value is the error, and the value stays as it was. */
  lemma ValueWanted(f: Features, t: Token, rest: seq<Token>, cur: Value, depth: nat)
    requires t.kind == ErrorToken || t.kind == EndOfStream || t.kind == MemberSeparator
          || (!f.allowDroppedNullPlaceholders
              && (t.kind == ArraySeparator || t.kind == ArrayEnd || t.kind == ObjectEnd))
    requires depth <= STACK_LIMIT
    ensures ParseValue(f, [t] + rest, cur, depth) == Done(false, cur, [Error(ValueExpected, t)], rest)
  {
    var ts := [t] + rest;
    assert DropComments(ts) == ts && ts[1..] == rest;
  }

  /** After an element stands something that is neither a comma nor a bracket: that is the error, and the element
      has been read. */
  lemma CommaOrBracketWanted(
    f: Features, p: Printer, v: Value, elems: seq<Value>, t: Token, rest: seq<Token>, depth: nat)
    requires Converts(f, p, v) && depth + Height(v) <= STACK_LIMIT
    requires t.kind != ArraySeparator && t.kind != ArrayEnd && t.kind != Comment
    ensures ParseElements(f, Tokens(p, v) + ([t] + rest), elems, depth)
         == Done(false, Arr(elems + [Echo(f, p, v)]), [Error(MissingCommaOrBracket, t)], Recover(rest, ArrayEnd))
  {
    hide ParseValue, Tokens, Echo, Converts, Recover;
    var next := [t] + rest;
    ParseTokens(f, p, v, next, Null, depth + 1);
    assert DropComments(next) == next && next[1..] == rest;
  }

  /** Where a name should stand there is something else, or a brace after a comma. */
  lemma NameWanted(f: Features, t: Token, rest: seq<Token>, ms: seq<Member>, lastName: Text, depth: nat)
    requires t.kind != StringToken && t.kind != NumberToken && t.kind != Comment
    requires t.kind == ObjectEnd ==> lastName != []
    ensures ParseMembers(f, [t] + rest, ms, lastName, depth)
         == Done(false, Obj(ms), [Error(MissingBraceOrName, t)], Recover(rest, ObjectEnd))
  {
    hide Recover;
    var ts := [t] + rest;
    assert DropComments(ts) == ts && ts[1..] == rest;
  }

  /** After a name stands no colon, not even after a comment. */
  lemma ColonWanted(f: Features, name: Text, t: Token, rest: seq<Token>, ms: seq<Member>, lastName: Text, depth: nat)
    requires t.kind != MemberSeparator
    ensures ParseMembers(f, [StringTok(name)] + ([t] + rest), ms, lastName, depth)
         == Done(false, Obj(ms), [Error(MissingColon, t)], Recover(rest, ObjectEnd))
  {
    hide Recover, DecodeBody, Inner, Quoted, NumberValue;
    var tail := [t] + rest;
    var ts := [StringTok(name)] + tail;
    NameDecodes(name);
    assert DropComments(ts) == ts && ts[1..] == tail && tail[1..] == rest;
  }

  /** After a member's value stands something that is neither a comma nor a brace: the member has been read. */
  lemma CommaOrBraceWanted(
    f: Features, p: Printer, m: Member, t: Token, rest: seq<Token>, ms: seq<Member>, name: Text, depth: nat)
    requires Converts(f, p, m.value) && depth + Height(m.value) <= STACK_LIMIT
    requires t.kind != ArraySeparator && t.kind != ObjectEnd && t.kind != Comment
    ensures ParseMember(f, [Punct(COLON)] + Tokens(p, m.value) + ([t] + rest), ms, name, depth)
         == Done(false, Obj(SetMember(ms, name, Echo(f, p, m.value))), [Error(MissingCommaOrBrace, t)],
                 Recover(rest, ObjectEnd))
  {
    hide ParseValue, ParseMembers, Tokens, Echo, Converts, Recover;
    var next := [t] + rest;
    var ts := [Punct(COLON)] + Tokens(p, m.value) + next;
    assert ts[1..] == Tokens(p, m.value) + next && next[1..] == rest;
    ParseTokens(f, p, m.value, next, Lookup(ms, name), depth + 1);
  }

  /** A member whose value cannot be read is there all the same: with the value its name had before, or null. */
  lemma FailedMemberStays(f: Features, t: Token, rest: seq<Token>, ms: seq<Member>, name: Text, depth: nat)
    requires (t.kind == ErrorToken || t.kind == EndOfStream || t.kind == MemberSeparator) && depth < STACK_LIMIT
    ensures ParseMember(f, [Punct(COLON)] + ([t] + rest), ms, name, depth)
         == Done(false, Obj(SetMember(ms, name, Lookup(ms, name))), [Error(ValueExpected, t)], Recover(rest, ObjectEnd))
    ensures (forall m :: m in ms ==> m.name != name) ==> Lookup(ms, name) == Null
  {
    hide ParseValue, ParseMembers, Recover;
    var ts := [Punct(COLON)] + ([t] + rest);
    assert ts[1..] == [t] + rest;
    ValueWanted(f, t, rest, Lookup(ms, name), depth + 1);
    NewNameIsNull(ms, name);
  }

  lemma {:induction false} NewNameIsNull(ms: seq<Member>, name: Text)
    ensures (forall m :: m in ms ==> m.name != name) ==> Lookup(ms, name) == Null
  {
    if ms != [] {
      assert ms[0] in ms && forall m :: m in ms[1..] ==> m in ms;
      NewNameIsNull(ms[1..], name);
    }
  }

  /** A string with a bad escape is the error, with its cause, as a value and as a name. */
  lemma GoodEscapeWanted(
    f: Features, t: Token, rest: seq<Token>, cur: Value, ms: seq<Member>, lastName: Text, depth: nat)
    requires t.kind == StringToken && DecodeBody(Inner(t.text)).BadString? && depth <= STACK_LIMIT
    ensures var error := Error(Escape(DecodeBody(Inner(t.text)).error), t);
            && ParseValue(f, [t] + rest, cur, depth) == Done(false, cur, [error], rest)
            && ParseMembers(f, [t] + rest, ms, lastName, depth)
               == Done(false, Obj(ms), [error], Recover(rest, ObjectEnd))
  {
    hide Recover, DecodeBody, Inner, NumberValue;
    var ts := [t] + rest;
    assert DropComments(ts) == ts && ts[1..] == rest;
  }

  // ---------------------------------------------------------------- dropped values

  /** So many commas. */
  function Commas(n: nat): seq<Token> {
    if n == 0 then [] else [Token(ArraySeparator, [0x2C])] + Commas(n - 1)
  }

  function Nulls(n: nat): seq<Value> {
    if n == 0 then [] else [Null] + Nulls(n - 1)
  }

  lemma DroppedValue(f: Features, t: Token, rest: seq<Token>, cur: Value, depth: nat)
    requires f.allowDroppedNullPlaceholders && depth <= STACK_LIMIT
    requires t.kind == ArraySeparator || t.kind == ArrayEnd || t.kind == ObjectEnd
    ensures ParseValue(f, [t] + rest, cur, depth) == Done(true, Null, [], [t] + rest)
  {
    var ts := [t] + rest;
    assert DropComments(ts) == ts && ts[0] == t;
  }

  /** With dropped nulls allowed, commas alone make an array of one null more. */
  lemma {:induction false} CommasAreNulls(f: Features, n: nat, elems: seq<Value>, rest: seq<Token>, depth: nat)
    requires f.allowDroppedNullPlaceholders && depth < STACK_LIMIT
    ensures ParseElements(f, Commas(n) + ([Token(ArrayEnd, [0x5D])] + rest), elems, depth)
         == Done(true, Arr(elems + Nulls(n + 1)), [], rest)
    decreases n
  {
    hide ParseValue, Recover;
    var close := [Token(ArrayEnd, [0x5D])] + rest;
    var ts := Commas(n) + close;
    if n == 0 {
      assert ts == close && close[1..] == rest;
      assert DropComments(close) == close;
      assert Nulls(1) == [Null];
      DroppedValue(f, close[0], rest, Null, depth + 1);
    } else {
      var more := Commas(n - 1) + close;
      CommasFirst(n, rest);
      assert ts[1..] == more;
      assert DropComments(ts) == ts;
      DroppedValue(f, ts[0], more, Null, depth + 1);
      CommasAreNulls(f, n - 1, elems + [Null], rest, depth);
      assert elems + [Null] + Nulls(n) == elems + Nulls(n + 1);
    }
  }

  /** So `[,]` is an array of two nulls. Where dropped nulls are not allowed, the first comma is the error. */
  lemma DroppedNulls(f: Features, n: nat, rest: seq<Token>, cur: Value, depth: nat)
    requires n > 0 && depth < STACK_LIMIT
    ensures ParseValue(f, [Token(ArrayBegin, [0x5B])] + (Commas(n) + ([Token(ArrayEnd, [0x5D])] + rest)), cur, depth)
         == if f.allowDroppedNullPlaceholders then Done(true, Arr(Nulls(n + 1)), [], rest)
            else Done(false, Arr([Null]), [Error(ValueExpected, Token(ArraySeparator, [0x2C]))], rest)
  {
    hide ParseElements, Recover, Commas, Nulls, ParseScalar, ParseMembers;
    var inside := Commas(n) + ([Token(ArrayEnd, [0x5D])] + rest);
    var ts := [Token(ArrayBegin, [0x5B])] + inside;
    assert DropComments(ts) == ts && ts[1..] == inside;
    CommasFirst(n, rest);
    if f.allowDroppedNullPlaceholders {
      CommasAreNulls(f, n, [], rest, depth);
      assert [] + Nulls(n + 1) == Nulls(n + 1);
    } else {
      FirstCommaFails(f, n, rest, depth);
    }
  }

  lemma CommasFirst(n: nat, rest: seq<Token>)
    requires n > 0
    ensures var close := [Token(ArrayEnd, [0x5D])] + rest;
            Commas(n) + close == [Token(ArraySeparator, [0x2C])] + (Commas(n - 1) + close)
  {
  }

  lemma FirstCommaFails(f: Features, n: nat, rest: seq<Token>, depth: nat)
    requires n > 0 && depth < STACK_LIMIT && !f.allowDroppedNullPlaceholders
    ensures ParseElements(f, Commas(n) + ([Token(ArrayEnd, [0x5D])] + rest), [], depth)
         == Done(false, Arr([Null]), [Error(ValueExpected, Token(ArraySeparator, [0x2C]))], rest)
  {
    hide ParseValue, Recover, Commas;
    var comma, tail := Token(ArraySeparator, [0x2C]), Commas(n - 1) + ([Token(ArrayEnd, [0x5D])] + rest);
    CommasFirst(n, rest);
    ValueWanted(f, comma, tail, Null, depth + 1);
    CommasHaveNoEnd(n - 1);
    RecoverStops(Commas(n - 1), Token(ArrayEnd, [0x5D]), rest, ArrayEnd);
    var none: seq<Value> := [];
    assert none + [Null] == [Null];
  }

  lemma {:induction false} CommasHaveNoEnd(n: nat)
    ensures forall x :: x in Commas(n) ==> x.kind == ArraySeparator
  {
    if n > 0 {
      CommasHaveNoEnd(n - 1);
    }
  }

  // ---------------------------------------------------------------- exceptions

  /** A document whose first member has an integer for a name: with numeric keys allowed the reader throws, else
      the number is the error. */
  lemma NumericKey(f: Features, z: int, k: Text, root: Value)
    requires MIN_INT64 <= z <= MAX_UINT64 && EndsNumber(k)
    ensures ParseDocument(f, [0x7B] + IntText(z) + k, root)
         == if f.allowNumericKeys then Threw
            else Parsed(false, Obj([]), [Error(MissingBraceOrName, Token(NumberToken, IntText(z)))])
  {
    hide Lex, Spells, SpellsClosed, NumberOf, Recover, IntText;
    var number := Token(NumberToken, IntText(z));
    IntTextRoundTrip(z);
    IntSpells(z);
    PunctuationSpells(OPEN_BRACE);
    ClosedThen([OPEN_BRACE], [Punct(OPEN_BRACE)], IntText(z), [number]);
    SpelledIs([OPEN_BRACE] + IntText(z), [Punct(OPEN_BRACE)] + [number], k);
    var ts := Lex([0x7B] + IntText(z) + k);
    var tail := [number] + Lex(k);
    assert ts == [Punct(OPEN_BRACE)] + tail && ts[1..] == tail && tail[1..] == Lex(k);
    assert DropComments(ts) == ts && DropComments(tail) == tail;
    assert NumberValue(f, IntText(z)) == Converted(Stored(z));
    assert ParseMembers(f, tail, [], [], 1)
        == if f.allowNumericKeys then Thrown
           else Done(false, Obj([]), [Error(MissingBraceOrName, number)], Recover(Lex(k), ObjectEnd));
  }

  lemma SpelledIs(d: Text, ts: seq<Token>, k: Text)
    requires Spells(d, ts) && EndsNumber(k)
    ensures Lex(d + k) == ts + Lex(k)
  {
  }

  /** An array in an array in an array. */
  function Nest(n: nat): (v: Value)
    requires n > 0
    ensures v.Arr?
  {
    if n == 1 then Arr([]) else Arr([Nest(n - 1)])
  }

  function Times(b: Byte, n: nat): (t: Text)
    ensures |t| == n && forall i :: 0 <= i < n ==> t[i] == b
  {
    seq(n, _ => b)
  }

  lemma {:induction false} NestFacts(f: Features, fmt: Format, n: nat)
    requires n > 0
    ensures Compact(fmt, Nest(n)) == Times(0x5B, n) + Times(0x5D, n)
    ensures Height(Nest(n)) == n && RealFree(Nest(n)) && Echo(f, fmt.realText, Nest(n)) == Nest(n)
  {
    if n > 1 {
      NestFacts(f, fmt, n - 1);
      var inner := [Nest(n - 1)];
      assert inner[1..] == [];
      assert CompactElems(fmt, inner) == Compact(fmt, Nest(n - 1));
      assert Times(0x5B, n) == [0x5B] + Times(0x5B, n - 1) && Times(0x5D, n) == Times(0x5D, n - 1) + [0x5D];
      assert EchoElems(f, fmt.realText, inner) == inner;
    } else {
      assert Times(0x5B, 1) == [0x5B] && Times(0x5D, 1) == [0x5D];
    }
  }

  /** A thousand nested brackets are read, and one more makes the reader throw. */
  lemma ThousandLevels(f: Features, n: nat, root: Value)
    requires n > 0
    ensures ParseDocument(f, Times(0x5B, n) + Times(0x5D, n), root)
         == if n <= 1000 then Parsed(true, Nest(n), []) else Threw
  {
    hide ParseDocument, Compact, Readable;
    var fmt := Format([COLON], NULL_TEXT, _ => []);
    TightIsReadable(fmt.realText);
    NestFacts(f, fmt, n);
    RealFreeConverts(f, fmt.realText, Nest(n));
    WriteThenParse(f, fmt, Nest(n), root);
  }
}
