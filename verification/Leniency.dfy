/** Three places where the grammar the reader follows is wider than that of RFC 8259: a comma before a closing
    brace, separators after comments, and numbers without digits. */
module Leniency {
  import opened Bytes
  import opened JsonValue
  import opened Numbers
  import opened Utf8
  import opened Quoting
  import opened Unquoting
  import opened Lexer
  import opened Parser
  import opened Rendering
  import opened RoundTrip

  /** The members of an object, a trailing comma, and the closing brace. */
  function TrailingComma(p: Printer, ms: seq<Member>, rest: seq<Token>): seq<Token> {
    MembersTokens(p, ms) + [Punct(COMMA)] + ([Punct(CLOSE_BRACE)] + rest)
  }

  lemma CommaSplit(p: Printer, ms: seq<Member>, rest: seq<Token>)
    requires ms != []
    ensures TrailingComma(p, ms, rest)
         == [StringTok(ms[0].name)] + ([Punct(COLON)] + Tokens(p, ms[0].value) + ([Punct(COMMA)]
            + if |ms| == 1 then [Punct(CLOSE_BRACE)] + rest else TrailingComma(p, ms[1..], rest)))
  {
    hide Tokens;
    var name, colon, v := [StringTok(ms[0].name)], [Punct(COLON)], Tokens(p, ms[0].value);
    var close := [Punct(CLOSE_BRACE)] + rest;
    if |ms| == 1 {
      Regroup(name, colon, v, [Punct(COMMA)], close);
      assert MembersTokens(p, ms) == name + colon + v;
      assert TrailingComma(p, ms, rest) == name + (colon + v + ([Punct(COMMA)] + close));
    } else {
      var comma, more := [Punct(COMMA)], MembersTokens(p, ms[1..]);
      Regroup(name, colon, v, comma, more);
      Assoc(name, colon + v + (comma + more), comma);
      Assoc(name, colon + v + (comma + more) + comma, close);
      Assoc(colon + v, comma + more, comma);
      Assoc(colon + v, comma + more + comma, close);
      Assoc(comma, more, comma);
      Assoc(comma, more + comma, close);
      assert MembersTokens(p, ms) == name + colon + v + comma + more;
      assert TrailingComma(p, ms[1..], rest) == more + comma + close;
      assert TrailingComma(p, ms, rest) == name + (colon + v + (comma + (more + comma + close)));
    }
  }

  /** A comma after the last member is an error exactly when that member's name is not empty: the check
      for an empty object looks at the name read last. */
  lemma {:induction false} TrailingCommaNeedsEmptyName(
    f: Features, p: Printer, ms: seq<Member>, acc: seq<Member>, lastName: Text, rest: seq<Token>, depth: nat)
    requires ConvertsMembers(f, p, ms) && ms != [] && depth + MembersHeight(ms) <= STACK_LIMIT
    ensures var r := ParseMembers(f, TrailingComma(p, ms, rest), acc, lastName, depth);
            r.Done? && r.value == Obj(EchoInto(f, p, acc, ms)) && (r.ok <==> ms[|ms| - 1].name == [])
    decreases |ms|
  {
    hide ParseMembers, Tokens, Echo, Repair, Quoted, Converts, ConvertsMembers, TrailingComma;
    SplitConvertsMembers(f, p, ms);
    var name := Repair(ms[0].name);
    var after := if |ms| == 1 then [Punct(CLOSE_BRACE)] + rest else TrailingComma(p, ms[1..], rest);
    var next := [Punct(COMMA)] + after;
    CommaSplit(p, ms, rest);
    ParseNamedMember(f, p, ms[0], acc, lastName, next, depth);
    assert next[1..] == after;
    var acc1 := SetMember(acc, name, Echo(f, p, ms[0].value));
    assert ParseMembers(f, TrailingComma(p, ms, rest), acc, lastName, depth)
        == ParseMembers(f, after, acc1, name, depth);
    RepairOfNothing(ms[0].name);
    if |ms| == 1 {
      CloseAfterComma(f, acc1, name, rest, depth);
      OneMember(f, p, acc, ms);
    } else {
      TrailingCommaNeedsEmptyName(f, p, ms[1..], acc1, name, rest, depth);
    }
  }

  lemma OneMember(f: Features, p: Printer, acc: seq<Member>, ms: seq<Member>)
    requires |ms| == 1
    ensures EchoInto(f, p, acc, ms) == SetMember(acc, Repair(ms[0].name), Echo(f, p, ms[0].value))
  {
  }

  lemma RepairOfNothing(s: Text)
    ensures Repair(s) == [] <==> s == []
  {
  }

  lemma CloseAfterComma(f: Features, ms: seq<Member>, lastName: Text, rest: seq<Token>, depth: nat)
    ensures var r := ParseMembers(f, [Punct(CLOSE_BRACE)] + rest, ms, lastName, depth);
            r.Done? && r.value == Obj(ms) && (r.ok <==> lastName == [])
  {
    var ts := [Punct(CLOSE_BRACE)] + rest;
    assert ts[1..] == rest;
  }

  /** The same for whole documents: an object with a comma after its last member. */
  lemma TrailingCommaDocument(f: Features, fmt: Format, ms: seq<Member>, root: Value)
    requires ms != [] && Readable(fmt) && SpelledMembers(fmt.realText, ms) && ConvertsMembers(f, fmt.realText, ms)
    requires 1 + MembersHeight(ms) <= STACK_LIMIT
    ensures var d := [OPEN_BRACE] + CompactMembers(fmt, ms) + [COMMA, CLOSE_BRACE];
            var r := ParseDocument(f, d, root);
            && r.Parsed? && r.root == Obj(EchoInto(f, fmt.realText, [], ms))
            && (r.ok <==> ms[|ms| - 1].name == [])
  {
    hide Lex, Spells, SpellsClosed, Tokens, MembersTokens, CompactMembers, Readable, SpelledMembers, ConvertsMembers;
    hide ParseMembers, EchoInto;
    var p := fmt.realText;
    var text, ts := CompactMembers(fmt, ms), MembersTokens(p, ms);
    var close: Text, cts := [COMMA, CLOSE_BRACE], [Punct(COMMA)] + [Punct(CLOSE_BRACE)];
    MembersSpell(fmt, ms);
    PunctuationSpells(OPEN_BRACE);
    PunctuationSpells(COMMA);
    PunctuationSpells(CLOSE_BRACE);
    ClosedThenClosed([COMMA], [Punct(COMMA)], [CLOSE_BRACE], [Punct(CLOSE_BRACE)]);
    assert [COMMA] + [CLOSE_BRACE] == close;
    Bracketed([OPEN_BRACE], [Punct(OPEN_BRACE)], text, ts, close, cts);
    var d := [OPEN_BRACE] + text + close;
    ClosedLexes(d, [Punct(OPEN_BRACE)] + ts + cts);
    var tail := TrailingComma(p, ms, []);
    assert [Punct(OPEN_BRACE)] + ts + cts == [Punct(OPEN_BRACE)] + tail;
    assert ([Punct(OPEN_BRACE)] + tail)[1..] == tail;
    TrailingCommaNeedsEmptyName(f, p, ms, [], [], [], 1);
    ParseReportsItsErrors(f, d, root);
  }

  lemma ClosedLexes(d: Text, ts: seq<Token>)
    requires SpellsClosed(d, ts)
    ensures Lex(d) == ts
  {
    assert d + [] == d && Lex(d + []) == ts + Lex([]);
  }

  /** The document `{"":1,}` is accepted, and `{"a":1,}` is not. */
  lemma TrailingCommaBothWays(f: Features, root: Value)
    ensures ParseDocument(f, [0x7B, 0x22, 0x22, 0x3A, 0x31, 0x2C, 0x7D], root)
         == Parsed(true, Obj([Member([], Int(1))]), [])
    ensures var r := ParseDocument(f, [0x7B, 0x22, 0x61, 0x22, 0x3A, 0x31, 0x2C, 0x7D], root); r.Parsed? && !r.ok
  {
    hide ParseDocument, Quoted, IsPadded, Readable;
    var fmt := Format([COLON], NULL_TEXT, _ => []);
    TightIsReadable(fmt.realText);
    OneSmallMember(f, fmt, []);
    OneSmallMember(f, fmt, [0x61]);
    var none, some := [Member([], Int(1))], [Member([0x61], Int(1))];
    TrailingCommaDocument(f, fmt, none, root);
    TrailingCommaDocument(f, fmt, some, root);
    assert [OPEN_BRACE] + CompactMembers(fmt, none) + [COMMA, CLOSE_BRACE]
        == [0x7B, 0x22, 0x22, 0x3A, 0x31, 0x2C, 0x7D];
    assert [OPEN_BRACE] + CompactMembers(fmt, some) + [COMMA, CLOSE_BRACE]
        == [0x7B, 0x22, 0x61, 0x22, 0x3A, 0x31, 0x2C, 0x7D];
    ParseReportsItsErrors(f, [0x7B, 0x22, 0x22, 0x3A, 0x31, 0x2C, 0x7D], root);
  }

  lemma OneSmallMember(f: Features, fmt: Format, name: Text)
    requires fmt.colon == [COLON] && |name| <= 1 && forall b :: b in name ==> b == 0x61
    ensures var ms := [Member(name, Int(1))];
            && SpelledMembers(fmt.realText, ms) && ConvertsMembers(f, fmt.realText, ms) && MembersHeight(ms) == 1
            && CompactMembers(fmt, ms) == [QUOTE] + name + [QUOTE, COLON, 0x31]
            && EchoInto(f, fmt.realText, [], ms) == ms
  {
    var ms := [Member(name, Int(1))];
    assert ms[1..] == [];
    assert QuoteBody([]) == [] && Repair([]) == [];
    if name != [] {
      assert name[0] in name;
      assert name == [0x61] && name[1..] == [];
      assert DecodeUnit(name) == Unit(0x61, 1);
      assert QuoteUnit(name) == [0x61] && UnitText(0x61) == [0x61];
    }
    assert QuoteBody(name) == name && Repair(name) == name;
    assert Quoted(name) == [QUOTE] + name + [QUOTE];
    assert IntText(1) == [0x31];
    assert Compact(fmt, Int(1)) == [0x31];
    assert CompactMembers(fmt, ms) == Quoted(name) + [COLON] + [0x31];
    assert Quoted(name) + [COLON] + [0x31] == [QUOTE] + name + [QUOTE, COLON, 0x31];
  }

  /** After a member's value and a comment, the next token is taken for the separator whatever it is,
      unless it closes the object. */
  lemma AnySeparatorAfterComment(
    f: Features, p: Printer, m: Member, comment: Token, t: Token, rest: seq<Token>, acc: seq<Member>, name: Text,
    depth: nat)
    requires Converts(f, p, m.value) && depth + Height(m.value) <= STACK_LIMIT
    requires comment.kind == Comment && t.kind != Comment && t.kind != ObjectEnd
    ensures ParseMember(f, [Punct(COLON)] + Tokens(p, m.value) + ([comment, t] + rest), acc, name, depth)
         == ParseMembers(f, rest, SetMember(acc, name, Echo(f, p, m.value)), name, depth)
  {
    hide ParseValue, ParseMembers, Tokens, Echo, Converts;
    var next := [comment, t] + rest;
    var ts := [Punct(COLON)] + Tokens(p, m.value) + next;
    assert ts[1..] == Tokens(p, m.value) + next;
    ParseTokens(f, p, m.value, next, Lookup(acc, name), depth + 1);
    assert next[1..] == [t] + rest && ([t] + rest)[1..] == rest;
    assert DropComments(next) == [t] + rest;
  }

  /** Where comments make no difference: before a value if the reader allows them, otherwise they are an error
      there; before a name, and between an element and what follows it, in any case. */
  lemma CommentBeforeValue(f: Features, comment: Token, ts: seq<Token>, cur: Value, depth: nat)
    requires comment.kind == Comment && depth <= STACK_LIMIT
    ensures ParseValue(f, [comment] + ts, cur, depth)
         == if f.allowComments then ParseValue(f, ts, cur, depth)
            else Done(false, cur, [Error(ValueExpected, comment)], ts)
  {
    hide ParseMembers, ParseArray;
    assert ([comment] + ts)[1..] == ts;
    assert DropComments([comment] + ts) == DropComments(ts);
    hide ParseScalar;
  }

  lemma CommentBeforeName(
    f: Features, comment: Token, ts: seq<Token>, ms: seq<Member>, lastName: Text, depth: nat)
    requires comment.kind == Comment
    ensures ParseMembers(f, [comment] + ts, ms, lastName, depth) == ParseMembers(f, ts, ms, lastName, depth)
  {
    hide ParseMember, Recover, DecodeBody, Inner, NumberValue;
    assert ([comment] + ts)[1..] == ts;
    assert DropComments([comment] + ts) == DropComments(ts);
  }

  lemma CommentAfterElement(
    f: Features, p: Printer, v: Value, comment: Token, next: seq<Token>, elems: seq<Value>, depth: nat)
    requires Converts(f, p, v) && comment.kind == Comment
    ensures ParseElements(f, Tokens(p, v) + ([comment] + next), elems, depth)
         == ParseElements(f, Tokens(p, v) + next, elems, depth)
  {
    hide ParseValue, Recover, Tokens, Converts, Echo;
    ParseTokens(f, p, v, [comment] + next, Null, depth + 1);
    ParseTokens(f, p, v, next, Null, depth + 1);
    assert ([comment] + next)[1..] == next;
    assert DropComments([comment] + next) == DropComments(next);
  }

  /** The document says `-`; the parse succeeds with the integer zero. */
  lemma LoneMinusParses(f: Features, root: Value)
    requires !f.strictRoot
    ensures ParseDocument(f, [MINUS], root) == Parsed(true, Int(0), [])
  {
    assert [MINUS][1..] == [];
    assert ScanToken(MINUS, []) == Lexed(NumberToken, []);
    assert NextToken([MINUS]) == Front(Token(NumberToken, [MINUS]), []);
    assert Lex([MINUS]) == [Token(NumberToken, [MINUS])] + Lex([]);
    LoneMinusIsZero();
  }
}
