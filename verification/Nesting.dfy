/** What the outcome of a parse depends on: not on the old contents of the root, and on the nesting guard
    only for documents with more opening brackets and braces than it allows levels. */
module Nesting {
  import opened Bytes
  import opened JsonValue
  import opened Unquoting
  import opened Lexer
  import opened Parser

  /** The same outcome, but for the value of a failed parse. */
  predicate SameOutcome(r: Outcome, o: Outcome) {
    if r.Thrown? then o.Thrown?
    else o.Done? && r.ok == o.ok && r.errors == o.errors && r.rest == o.rest && (r.ok ==> r.value == o.value)
  }

  lemma PriorOfScalar(f: Features, ts: seq<Token>, cur: Value, other: Value)
    ensures SameOutcome(ParseScalar(f, ts, cur), ParseScalar(f, ts, other))
  {
    hide ParseScalar, SameOutcome;
    if Head(ts).kind == NumberToken {
      PriorOfNumber(f, ts, cur, other);
    } else if Head(ts).kind == StringToken {
      PriorOfString(f, ts, cur, other);
    } else {
      PriorOfWord(f, ts, cur, other);
    }
  }

  lemma PriorOfNumber(f: Features, ts: seq<Token>, cur: Value, other: Value)
    requires Head(ts).kind == NumberToken
    ensures SameOutcome(ParseScalar(f, ts, cur), ParseScalar(f, ts, other))
  {
    hide NumberValue, DecodeBody, Inner, Head, Tail;
  }

  lemma PriorOfString(f: Features, ts: seq<Token>, cur: Value, other: Value)
    requires Head(ts).kind == StringToken
    ensures SameOutcome(ParseScalar(f, ts, cur), ParseScalar(f, ts, other))
  {
    hide NumberValue, DecodeBody, Inner, Head, Tail;
  }

  lemma PriorOfWord(f: Features, ts: seq<Token>, cur: Value, other: Value)
    requires Head(ts).kind != NumberToken && Head(ts).kind != StringToken
    ensures SameOutcome(ParseScalar(f, ts, cur), ParseScalar(f, ts, other))
  {
    hide NumberValue, DecodeBody, Inner, Head, Tail;
  }

  lemma PriorValueIsIrrelevant(f: Features, ts: seq<Token>, cur: Value, other: Value, depth: nat)
    ensures SameOutcome(ParseValue(f, ts, cur, depth), ParseValue(f, ts, other, depth))
  {
    hide ParseMembers, ParseArray, ParseScalar, DropComments;
    PriorOfScalar(f, if f.allowComments then DropComments(ts) else ts, cur, other);
  }

  /** The program parses every command into the same root: what it held before has no influence on the
      verdict nor on the first error, nor, when the parse succeeds, on the value. Only a reader that wants
      a container at the root looks at what a failed parse has left there, for its second error. */
  lemma PriorRootIsIrrelevant(f: Features, document: Text, root: Value, other: Value)
    ensures var r, o := ParseDocument(f, document, root), ParseDocument(f, document, other);
            && (r.Threw? <==> o.Threw?)
            && (r.Parsed? ==> && r.ok == o.ok && (r.ok ==> r == o)
                              && (r.errors == [] <==> o.errors == [])
                              && (r.errors != [] ==> r.errors[0] == o.errors[0])
                              && (!f.strictRoot ==> r.errors == o.errors))
  {
    hide Lex, ParseValue;
    PriorValueIsIrrelevant(f, Lex(document), root, other, 1);
    ValueCountsErrors(f, Lex(document), root, 1);
  }

  predicate IsOpener(t: Token) {
    t.kind == ObjectBegin || t.kind == ArrayBegin
  }

  /** How many objects and arrays are opened. */
  function Openers(ts: seq<Token>): nat {
    if ts == [] then 0 else (if IsOpener(ts[0]) then 1 else 0) + Openers(ts[1..])
  }

  lemma {:induction false} DropCommentsOpeners(ts: seq<Token>)
    ensures Openers(DropComments(ts)) == Openers(ts)
  {
    if ts != [] && ts[0].kind == Comment {
      DropCommentsOpeners(ts[1..]);
    }
  }

  lemma {:induction false} RecoverOpeners(ts: seq<Token>, until: Kind)
    ensures Openers(Recover(ts, until)) <= Openers(ts)
  {
    if ts != [] && ts[0].kind != until && ts[0].kind != EndOfStream {
      RecoverOpeners(ts[1..], until);
    }
  }

  lemma TailOpeners(ts: seq<Token>)
    ensures Openers(Tail(ts)) + (if IsOpener(Head(ts)) then 1 else 0) == Openers(ts)
  {
  }

  /** A parse that throws has met more openers than there are levels left; one that returns leaves no more
      openers than it found. */
  predicate WithinOpeners(r: Outcome, ts: seq<Token>, depth: nat) {
    match r
    case Thrown => depth + Openers(ts) > STACK_LIMIT
    case Done(_, _, _, rest) => Openers(rest) <= Openers(ts)
  }

  lemma {:induction false} ValueWithinOpeners(f: Features, ts: seq<Token>, cur: Value, depth: nat)
    requires !f.allowNumericKeys
    ensures WithinOpeners(ParseValue(f, ts, cur, depth), ts, depth)
    decreases |ts|, 0
  {
    hide Openers, NumberValue, DecodeBody, DropComments;
    var ts1 := if f.allowComments then DropComments(ts) else ts;
    DropCommentsOpeners(ts);
    TailOpeners(ts1);
    if depth <= STACK_LIMIT {
      if Head(ts1).kind == ObjectBegin {
        MembersWithinOpeners(f, Tail(ts1), [], [], depth);
      } else if Head(ts1).kind == ArrayBegin {
        TailOpeners(Tail(ts1));
        if Head(Tail(ts1)).kind != ArrayEnd {
          ElementsWithinOpeners(f, Tail(ts1), [], depth);
        }
      }
    }
  }

  /** One level deeper, where an opener has already been passed. */
  predicate WithinOpenersBelow(r: Outcome, ts: seq<Token>, depth: nat) {
    match r
    case Thrown => depth + 1 + Openers(ts) > STACK_LIMIT
    case Done(_, _, _, rest) => Openers(rest) <= Openers(ts)
  }

  lemma {:induction false} ElementsWithinOpeners(f: Features, ts: seq<Token>, elems: seq<Value>, depth: nat)
    requires !f.allowNumericKeys
    ensures WithinOpenersBelow(ParseElements(f, ts, elems, depth), ts, depth)
    decreases |ts|, 1
  {
    hide Openers, ParseValue;
    ValueWithinOpeners(f, ts, Null, depth + 1);
    var r := ParseValue(f, ts, Null, depth + 1);
    if r.Done? {
      RecoverOpeners(r.rest, ArrayEnd);
      var ts1 := DropComments(r.rest);
      DropCommentsOpeners(r.rest);
      TailOpeners(ts1);
      RecoverOpeners(Tail(ts1), ArrayEnd);
      if r.ok && Head(ts1).kind == ArraySeparator {
        ElementsWithinOpeners(f, Tail(ts1), elems + [r.value], depth);
      }
    }
  }

  lemma {:induction false} MembersWithinOpeners(
    f: Features, ts: seq<Token>, ms: seq<Member>, lastName: Text, depth: nat)
    requires !f.allowNumericKeys
    ensures WithinOpenersBelow(ParseMembers(f, ts, ms, lastName, depth), ts, depth)
    decreases |ts|, 1
  {
    hide Openers, DecodeBody, ParseMember;
    var ts1 := DropComments(ts);
    DropCommentsOpeners(ts);
    TailOpeners(ts1);
    RecoverOpeners(Tail(ts1), ObjectEnd);
    if Head(ts1).kind == StringToken && DecodeBody(Inner(Head(ts1).text)).Decoded? {
      MemberWithinOpeners(f, Tail(ts1), ms, DecodeBody(Inner(Head(ts1).text)).text, depth);
    }
  }

  lemma {:induction false} MemberWithinOpeners(
    f: Features, ts: seq<Token>, ms: seq<Member>, name: Text, depth: nat)
    requires !f.allowNumericKeys
    ensures WithinOpenersBelow(ParseMember(f, ts, ms, name, depth), ts, depth)
    decreases |ts|, 2
  {
    hide Openers, ParseValue, ParseMembers;
    TailOpeners(ts);
    RecoverOpeners(Tail(ts), ObjectEnd);
    if Head(ts).kind == MemberSeparator {
      var cur := Lookup(ms, name);
      ValueWithinOpeners(f, Tail(ts), cur, depth + 1);
      var r := ParseValue(f, Tail(ts), cur, depth + 1);
      if r.Done? {
        RecoverOpeners(r.rest, ObjectEnd);
        TailOpeners(r.rest);
        RecoverOpeners(Tail(r.rest), ObjectEnd);
        var ts1 := DropComments(r.rest);
        DropCommentsOpeners(r.rest);
        TailOpeners(ts1);
        if r.ok && r.rest != [] {
          MembersWithinOpeners(f, Tail(ts1), SetMember(ms, name, r.value), name, depth);
        }
      }
    }
  }

  /** With numeric keys off, a document with fewer than 1000 opening brackets and braces never makes the
      parse throw, however broken it is. */
  lemma ThrowsOnlyWhenDeep(f: Features, document: Text, root: Value)
    requires !f.allowNumericKeys && Openers(Lex(document)) < STACK_LIMIT
    ensures ParseDocument(f, document, root).Parsed?
  {
    ValueWithinOpeners(f, Lex(document), root, 1);
  }
}
