/** Writing a value and reading the text back. */
module RoundTrip {
  import opened Bytes
  import opened JsonValue
  import opened Numbers
  import opened Utf8
  import opened Quoting
  import opened Unquoting
  import opened Lexer
  import opened Parser
  import opened Rendering

  // ---------------------------------------------------------------- what comes back

  /** What the reader makes of the text of a double, null when it cannot convert it. */
  function EchoReal(f: Features, p: Printer, bits: int): Value {
    if p(bits) == NULL_TEXT || p(bits) == [] || NumberValue(f, p(bits)).NotConverted? then Null
    else NumberValue(f, p(bits)).value
  }

  /** The doubles whose text the reader can convert; those without a number print as null. */
  ghost function Convertibles(f: Features, p: Printer): iset<int> {
    iset bits: int | p(bits) == NULL_TEXT || (p(bits) != [] && NumberValue(f, p(bits)).Converted?)
  }

  /** Every double inside can be converted back to a value. */
  ghost predicate Converts(f: Features, p: Printer, v: Value) {
    RealsIn(v, Convertibles(f, p))
  }

  ghost predicate ConvertsElems(f: Features, p: Printer, es: seq<Value>) {
    ElemsRealsIn(es, Convertibles(f, p))
  }

  ghost predicate ConvertsMembers(f: Features, p: Printer, ms: seq<Member>) {
    MembersRealsIn(ms, Convertibles(f, p))
  }

  /** The value the reader makes of the writer's text: integers in their stored form, strings and
      names repaired, members written one after the other under their repaired names, and doubles as
      the two conversions have it. */
  function Echo(f: Features, p: Printer, v: Value): Value
    decreases v, 0
  {
    match v
    case Int(i) => Stored(i)
    case UInt(u) => Stored(u)
    case Real(bits) => EchoReal(f, p, bits)
    case Str(s) => Str(Repair(s))
    case Arr(es) => Arr(EchoElems(f, p, es))
    case Obj(ms) => Obj(EchoInto(f, p, [], ms))
    case _ => v
  }

  function EchoElems(f: Features, p: Printer, es: seq<Value>): seq<Value>
    decreases es, 1
  {
    if es == [] then [] else [Echo(f, p, es[0])] + EchoElems(f, p, es[1..])
  }

  function EchoInto(f: Features, p: Printer, acc: seq<Member>, ms: seq<Member>): seq<Member>
    decreases ms, 1
  {
    if ms == [] then acc
    else EchoInto(f, p, SetMember(acc, Repair(ms[0].name), Echo(f, p, ms[0].value)), ms[1..])
  }

  // ---------------------------------------------------------------- parsing the tokens of a value

  /** A parse that does not succeed. */
  predicate Fails(r: Outcome) {
    r.Done? ==> !r.ok
  }

  /** What becomes of a value: it fails with a double that cannot be converted, else it is read if it is
      not too tall, else the nesting guard throws. */
  predicate Reads(r: Outcome, converts: bool, fits: bool, v: Value, rest: seq<Token>) {
    if !converts then Fails(r) else r == if fits then Done(true, v, [], rest) else Thrown
  }

  lemma FirstToken(p: Printer, v: Value, rest: seq<Token>)
    ensures Tokens(p, v) != [] && (Tokens(p, v) + rest)[0] == Tokens(p, v)[0]
    ensures Tokens(p, v)[0].kind != Comment && Tokens(p, v)[0].kind != ArrayEnd
    ensures DropComments(Tokens(p, v) + rest) == Tokens(p, v) + rest
  {
  }

  lemma {:induction false} ParseScalarTokens(
    f: Features, p: Printer, v: Value, rest: seq<Token>, cur: Value, depth: nat)
    requires !v.IsContainer() && depth <= STACK_LIMIT
    ensures Reads(ParseValue(f, Tokens(p, v) + rest, cur, depth), Converts(f, p, v), true, Echo(f, p, v), rest)
  {
    hide ParseMembers, ParseArray, DecodeBody, Inner, Quoted, Repair, IntText, NumberOf;
    var ts := Tokens(p, v) + rest;
    assert ts[1..] == rest;
    match v {
      case Int(i) => IntTextRoundTrip(i);
      case UInt(u) => IntTextRoundTrip(u);
      case Str(s) => NameDecodes(s);
      case _ =>
    }
  }

  /** In front of any tokens, the tokens of a value whose doubles can be converted are read as its echo,
      or the nesting guard throws: it does exactly when the value is too tall for the depth it starts at.
      With a double that cannot be converted, the parse fails. */
  lemma {:induction false} ParseTokens(f: Features, p: Printer, v: Value, rest: seq<Token>, cur: Value, depth: nat)
    ensures Reads(ParseValue(f, Tokens(p, v) + rest, cur, depth), Converts(f, p, v),
                  depth + Height(v) <= STACK_LIMIT + 1, Echo(f, p, v), rest)
    decreases v, 0
  {
    hide NumberValue, DecodeBody, ElemTokens, MembersTokens, ParseMembers, ParseArray, EchoElems, EchoInto;
    if depth > STACK_LIMIT {
    } else if !v.IsContainer() {
      ParseScalarTokens(f, p, v, rest, cur, depth);
    } else {
      FirstToken(p, v, rest);
      var open := if v.Arr? then Punct(OPEN_BRACKET) else Punct(OPEN_BRACE);
      var close := if v.Arr? then Punct(CLOSE_BRACKET) else Punct(CLOSE_BRACE);
      var inside := if v.Arr? then ElemTokens(p, v.elems) else MembersTokens(p, v.members);
      assert Tokens(p, v) + rest == [open] + (inside + [close] + rest);
      assert (Tokens(p, v) + rest)[1..] == inside + [close] + rest;
      if v.Arr? {
        ParseArrayTokens(f, p, v.elems, rest, depth);
      } else {
        ParseMembersTokens(f, p, v.members, [], [], rest, depth);
      }
    }
  }

  lemma {:induction false} ParseArrayTokens(f: Features, p: Printer, es: seq<Value>, rest: seq<Token>, depth: nat)
    requires depth <= STACK_LIMIT
    ensures Reads(ParseArray(f, ElemTokens(p, es) + [Punct(CLOSE_BRACKET)] + rest, depth), ConvertsElems(f, p, es),
                  depth + ElemsHeight(es) <= STACK_LIMIT, Arr(EchoElems(f, p, es)), rest)
    decreases es, 2
  {
    var ts := ElemTokens(p, es) + [Punct(CLOSE_BRACKET)] + rest;
    if es == [] {
      assert ts == [Punct(CLOSE_BRACKET)] + rest && ts[1..] == rest;
    } else {
      FirstToken(p, es[0], []);
      assert ts[0] == Tokens(p, es[0])[0];
      ParseElemTokens(f, p, es, [], rest, depth);
      assert [] + EchoElems(f, p, es) == EchoElems(f, p, es);
    }
  }

  function AfterElement(f: Features, next: seq<Token>, elems: seq<Value>, depth: nat): Outcome
    requires next != []
  {
    if next[0].kind == ArrayEnd then Done(true, Arr(elems), [], next[1..])
    else ParseElements(f, next[1..], elems, depth)
  }

  /** One element, up to the token after it. */
  lemma {:induction false} ParseElementTokens(
    f: Features, p: Printer, v: Value, acc: seq<Value>, next: seq<Token>, depth: nat)
    requires next != [] && (next[0].kind == ArrayEnd || next[0].kind == ArraySeparator)
    ensures var r := ParseElements(f, Tokens(p, v) + next, acc, depth);
            if !Converts(f, p, v) then Fails(r)
            else if depth + Height(v) > STACK_LIMIT then r == Thrown
            else r == AfterElement(f, next, acc + [Echo(f, p, v)], depth)
    decreases v, 1
  {
    hide ParseValue, Tokens, Echo, Converts, Recover;
    ParseTokens(f, p, v, next, Null, depth + 1);
  }

  lemma SplitConverts(f: Features, p: Printer, es: seq<Value>)
    requires es != []
    ensures ConvertsElems(f, p, es) <==> Converts(f, p, es[0]) && (|es| == 1 || ConvertsElems(f, p, es[1..]))
  {
    assert ConvertsElems(f, p, es[1..]) <==> ElemsRealsIn(es[1..], Convertibles(f, p));
  }

  lemma {:induction false} ParseElemTokens(
    f: Features, p: Printer, es: seq<Value>, acc: seq<Value>, rest: seq<Token>, depth: nat)
    requires es != []
    ensures Reads(ParseElements(f, ElemTokens(p, es) + [Punct(CLOSE_BRACKET)] + rest, acc, depth),
                  ConvertsElems(f, p, es), depth + ElemsHeight(es) <= STACK_LIMIT,
                  Arr(acc + EchoElems(f, p, es)), rest)
    decreases es, 1
  {
    hide ParseValue, ParseElements, Tokens, Echo, Converts, ConvertsElems;
    SplitConverts(f, p, es);
    var close := [Punct(CLOSE_BRACKET)] + rest;
    var ts := ElemTokens(p, es) + [Punct(CLOSE_BRACKET)] + rest;
    if |es| == 1 {
      assert ts == Tokens(p, es[0]) + close;
      ParseElementTokens(f, p, es[0], acc, close, depth);
      assert close[1..] == rest;
      assert EchoElems(f, p, es) == [Echo(f, p, es[0])];
    } else {
      var more := ElemTokens(p, es[1..]) + [Punct(CLOSE_BRACKET)] + rest;
      var next := [Punct(COMMA)] + more;
      assert ts == Tokens(p, es[0]) + next;
      ParseElementTokens(f, p, es[0], acc, next, depth);
      assert next[1..] == more;
      ParseElemTokens(f, p, es[1..], acc + [Echo(f, p, es[0])], rest, depth);
      assert acc + [Echo(f, p, es[0])] + EchoElems(f, p, es[1..]) == acc + EchoElems(f, p, es);
    }
  }

  lemma SplitConvertsMembers(f: Features, p: Printer, ms: seq<Member>)
    requires ms != []
    ensures ConvertsMembers(f, p, ms)
       <==> Converts(f, p, ms[0].value) && (|ms| == 1 || ConvertsMembers(f, p, ms[1..]))
  {
    assert ConvertsMembers(f, p, ms[1..]) <==> MembersRealsIn(ms[1..], Convertibles(f, p));
  }

  lemma NoneConvert(f: Features, p: Printer)
    ensures ConvertsMembers(f, p, [])
  {
  }

  lemma {:induction false} ParseMembersTokens(
    f: Features, p: Printer, ms: seq<Member>, acc: seq<Member>, lastName: Text, rest: seq<Token>, depth: nat)
    requires (ms == [] ==> lastName == [])
    ensures Reads(ParseMembers(f, MembersTokens(p, ms) + [Punct(CLOSE_BRACE)] + rest, acc, lastName, depth),
                  ConvertsMembers(f, p, ms), depth + MembersHeight(ms) <= STACK_LIMIT || ms == [],
                  Obj(EchoInto(f, p, acc, ms)), rest)
    decreases ms, 3
  {
    hide ParseMember, Tokens, Echo, Quoted, Repair, Converts, ConvertsMembers;
    var close := [Punct(CLOSE_BRACE)] + rest;
    var ts := MembersTokens(p, ms) + [Punct(CLOSE_BRACE)] + rest;
    if ms == [] {
      assert ts == close && ts[1..] == rest;
      NoneConvert(f, p);
    } else {
      SplitConvertsMembers(f, p, ms);
      var next := if |ms| == 1 then close
                  else [Punct(COMMA)] + (MembersTokens(p, ms[1..]) + [Punct(CLOSE_BRACE)] + rest);
      MembersSplit(p, ms, rest);
      assert ts == [StringTok(ms[0].name)] + ([Punct(COLON)] + Tokens(p, ms[0].value) + next);
      ParseNamedMember(f, p, ms[0], acc, lastName, next, depth);
      if |ms| == 1 {
        assert close[1..] == rest;
      } else {
        assert next[1..] == MembersTokens(p, ms[1..]) + [Punct(CLOSE_BRACE)] + rest;
        var name := Repair(ms[0].name);
        ParseMembersTokens(f, p, ms[1..], SetMember(acc, name, Echo(f, p, ms[0].value)), name, rest, depth);
      }
    }
  }

  lemma MembersSplit(p: Printer, ms: seq<Member>, rest: seq<Token>)
    requires ms != []
    ensures MembersTokens(p, ms) + [Punct(CLOSE_BRACE)] + rest
         == [StringTok(ms[0].name)] + ([Punct(COLON)] + Tokens(p, ms[0].value)
            + if |ms| == 1 then [Punct(CLOSE_BRACE)] + rest
              else [Punct(COMMA)] + (MembersTokens(p, ms[1..]) + [Punct(CLOSE_BRACE)] + rest))
  {
    hide Tokens, Quoted;
    var name, colon, v := [StringTok(ms[0].name)], [Punct(COLON)], Tokens(p, ms[0].value);
    var close := [Punct(CLOSE_BRACE)];
    if |ms| == 1 {
      Regroup(name, colon, v, close, rest);
    } else {
      var comma, more := [Punct(COMMA)], MembersTokens(p, ms[1..]);
      Regroup(name, colon, v, comma, more);
      Assoc(name, colon + v + (comma + more), close);
      Assoc(name, colon + v + (comma + more) + close, rest);
      Assoc(colon + v, comma + more, close);
      Assoc(colon + v, comma + more + close, rest);
      Assoc(comma, more, close);
      Assoc(comma, more + close, rest);
    }
  }

  lemma Regroup(a: seq<Token>, b: seq<Token>, c: seq<Token>, d: seq<Token>, e: seq<Token>)
    ensures a + b + c + d + e == a + (b + c + (d + e))
  {
    Assoc(a + b + c, d, e);
    Assoc(a, b, c);
    Assoc(a, b + c, d + e);
  }

  lemma NameDecodes(name: Text)
    ensures DecodeBody(Inner(StringTok(name).text)) == Decoded(Repair(name), AtEnd)
  {
    QuoteRoundTrip(name);
    assert Inner(Quoted(name)) == QuoteBody(name);
  }

  function AfterMember(f: Features, next: seq<Token>, ms: seq<Member>, name: Text, depth: nat): Outcome
    requires next != []
  {
    if next[0].kind == ObjectEnd then Done(true, Obj(ms), [], next[1..])
    else ParseMembers(f, next[1..], ms, name, depth)
  }

  /** One member, up to the token after its value. */
  lemma {:induction false} ParseMemberTokens(
    f: Features, p: Printer, m: Member, acc: seq<Member>, next: seq<Token>, depth: nat)
    requires next != [] && (next[0].kind == ObjectEnd || next[0].kind == ArraySeparator)
    ensures var r := ParseMember(f, [Punct(COLON)] + Tokens(p, m.value) + next, acc, Repair(m.name), depth);
            if !Converts(f, p, m.value) then Fails(r)
            else if depth + Height(m.value) > STACK_LIMIT then r == Thrown
            else r == AfterMember(f, next, SetMember(acc, Repair(m.name), Echo(f, p, m.value)), Repair(m.name), depth)
    decreases m, 1
  {
    hide ParseValue, ParseMembers, Tokens, Echo, Repair;
    var ts := [Punct(COLON)] + Tokens(p, m.value) + next;
    assert ts[1..] == Tokens(p, m.value) + next;
    ParseTokens(f, p, m.value, next, Lookup(acc, Repair(m.name)), depth + 1);
  }

  /** The same with its name in front: the last name does not matter before a name. */
  lemma {:induction false} ParseNamedMember(
    f: Features, p: Printer, m: Member, acc: seq<Member>, lastName: Text, next: seq<Token>, depth: nat)
    requires next != [] && (next[0].kind == ObjectEnd || next[0].kind == ArraySeparator)
    ensures var ts := [StringTok(m.name)] + ([Punct(COLON)] + Tokens(p, m.value) + next);
            var r := ParseMembers(f, ts, acc, lastName, depth);
            if !Converts(f, p, m.value) then Fails(r)
            else if depth + Height(m.value) > STACK_LIMIT then r == Thrown
            else r == AfterMember(f, next, SetMember(acc, Repair(m.name), Echo(f, p, m.value)), Repair(m.name), depth)
    decreases m, 2
  {
    hide ParseMember, Tokens, Echo, Repair, Quoted, Converts, AfterMember, DecodeBody, Inner, NumberValue;
    var tail := [Punct(COLON)] + Tokens(p, m.value) + next;
    assert ([StringTok(m.name)] + tail)[1..] == tail;
    NameDecodes(m.name);
    ParseMemberTokens(f, p, m, acc, next, depth);
  }

  // ---------------------------------------------------------------- the round trip on documents

  /** The verdict on a document whose first value is `v` and parses. */
  function Verdict(f: Features, document: Text, v: Value): Result {
    if f.strictRoot && !v.IsContainer() then
      Parsed(false, v, [Error(NotArrayOrObject, Token(ErrorToken, document))])
    else Parsed(true, v, [])
  }

  /** What becomes of a document that says `v`. */
  predicate ReadsDocument(r: Result, f: Features, document: Text, converts: bool, fits: bool, v: Value) {
    if !converts then r.Parsed? ==> !r.ok else r == if fits then Verdict(f, document, v) else Threw
  }

  /** Any text that spells the tokens of a value reads as its echo, whatever layout was chosen and
      whatever follows it, and throws exactly when the value has more than 1000 levels. */
  lemma AnyLayoutParses(f: Features, p: Printer, v: Value, d: Text, k: Text, root: Value)
    requires Spells(d, Tokens(p, v)) && EndsNumber(k)
    ensures ReadsDocument(ParseDocument(f, d + k, root), f, d + k, Converts(f, p, v), Height(v) <= STACK_LIMIT,
                          Echo(f, p, v))
  {
    assert Lex(d + k) == Tokens(p, v) + Lex(k);
    hide Lex, Spells, ParseValue, Tokens, Echo, Converts;
    ParseTokens(f, p, v, Lex(k), root, 1);
  }

  /** The round trip: reading what the compact writer wrote, for every value whose doubles have the text of
      a number or of null. */
  lemma WriteThenParse(f: Features, fmt: Format, v: Value, root: Value)
    requires Spelled(fmt.realText, v) && Readable(fmt)
    ensures var text := Compact(fmt, v);
            ReadsDocument(ParseDocument(f, text, root), f, text, Converts(f, fmt.realText, v),
                          Height(v) <= STACK_LIMIT, Echo(f, fmt.realText, v))
  {
    hide Lex, Spells, ParseDocument, Compact, Tokens, Readable, Converts, Echo, Spelled;
    CompactSpells(fmt, v);
    AnyLayoutParses(f, fmt.realText, v, Compact(fmt, v), [], root);
    assert Compact(fmt, v) + [] == Compact(fmt, v);
  }

  /** Values without doubles convert whatever the conversions, and echo independently of them. */
  lemma RealFreeConverts(f: Features, p: Printer, v: Value)
    requires RealFree(v)
    ensures Spelled(p, v) && Converts(f, p, v)
  {
    RealFreeIsSpelled(p, v);
    RealsInMore(v, iset{}, Convertibles(f, p));
  }
}
