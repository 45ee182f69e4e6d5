/** Which documents are accepted, and what they mean: the converse of the round trip. */
module Grammar {
  import opened Bytes
  import opened JsonValue
  import opened Numbers
  import opened Unquoting
  import opened Lexer
  import opened Parser
  import opened Nesting

  // ---------------------------------------------------------------- syntax trees

  /** A derivation of the grammar of section 2 of RFC 8259, on tokens; an object may also end in a comma. */
  datatype Tree =
    | Leaf(token: Token)
    | ArrayTree(elems: seq<Tree>)
    | ObjectTree(entries: seq<Entry>, trailing: bool)

  datatype Entry = Entry(name: Token, value: Tree)

  function Spell(t: Tree): seq<Token>
    decreases t, 0
  {
    match t
    case Leaf(token) => [token]
    case ArrayTree(ts) => [Punct(OPEN_BRACKET)] + (SpellElems(ts) + [Punct(CLOSE_BRACKET)])
    case ObjectTree(es, trailing) => [Punct(OPEN_BRACE)] + (SpellEntries(es, trailing) + [Punct(CLOSE_BRACE)])
  }

  function SpellElems(ts: seq<Tree>): seq<Token>
    decreases ts, 1
  {
    if ts == [] then []
    else Spell(ts[0]) + if |ts| == 1 then [] else [Punct(COMMA)] + SpellElems(ts[1..])
  }

  function SpellEntry(e: Entry): seq<Token>
    decreases e, 1
  {
    [e.name] + ([Punct(COLON)] + Spell(e.value))
  }

  function SpellEntries(es: seq<Entry>, trailing: bool): seq<Token>
    decreases es, 2
  {
    if es == [] then []
    else if |es| == 1 then SpellEntry(es[0]) + if trailing then [Punct(COMMA)] else []
    else SpellEntry(es[0]) + ([Punct(COMMA)] + SpellEntries(es[1..], trailing))
  }

  /** The text of a string token, if its escapes are good. */
  function NameOf(t: Token): Text {
    match DecodeBody(Inner(t.text))
    case Decoded(s, _) => s
    case BadString(_) => []
  }

  predicate IsName(t: Token) {
    t.kind == StringToken && DecodeBody(Inner(t.text)).Decoded?
  }

  predicate IsLeaf(f: Features, t: Token) {
    || t.kind == TrueToken || t.kind == FalseToken || t.kind == NullToken || IsName(t)
    || (t.kind == NumberToken && t.text != [] && NumberValue(f, t.text).Converted?)
  }

  /** Leaves are words, good strings and numbers that convert, names are good strings; a trailing comma
      stands only after a member whose name is empty. */
  predicate Good(f: Features, t: Tree)
    decreases t, 0
  {
    match t
    case Leaf(token) => IsLeaf(f, token)
    case ArrayTree(ts) => GoodElems(f, ts)
    case ObjectTree(es, trailing) => GoodEntries(f, es) && (trailing ==> MayTrail(es))
  }

  predicate GoodElems(f: Features, ts: seq<Tree>)
    decreases ts, 1
  {
    ts == [] || (Good(f, ts[0]) && GoodElems(f, ts[1..]))
  }

  predicate GoodEntries(f: Features, es: seq<Entry>)
    decreases es, 1
  {
    es == [] || (GoodEntry(f, es[0]) && GoodEntries(f, es[1..]))
  }

  predicate GoodEntry(f: Features, e: Entry)
    decreases e, 1
  {
    IsName(e.name) && Good(f, e.value)
  }

  predicate MayTrail(es: seq<Entry>) {
    es != [] && NameOf(es[|es| - 1].name) == []
  }

  // ---------------------------------------------------------------- their meaning

  function LeafValue(f: Features, t: Token): Value {
    if t.kind == TrueToken then Bool(true)
    else if t.kind == FalseToken then Bool(false)
    else if t.kind == StringToken then Str(NameOf(t))
    else if t.kind == NumberToken && t.text != [] && NumberValue(f, t.text).Converted? then NumberValue(f, t.text).value
    else Null
  }

  /** Of two members with the same name the later one counts. */
  function Denote(f: Features, t: Tree): Value
    decreases t, 0
  {
    match t
    case Leaf(token) => LeafValue(f, token)
    case ArrayTree(ts) => Arr(DenoteElems(f, ts))
    case ObjectTree(es, _) => Obj(DenoteInto(f, [], es))
  }

  function DenoteElems(f: Features, ts: seq<Tree>): seq<Value>
    decreases ts, 1
  {
    if ts == [] then [] else [Denote(f, ts[0])] + DenoteElems(f, ts[1..])
  }

  function DenoteInto(f: Features, ms: seq<Member>, es: seq<Entry>): seq<Member>
    decreases es, 1
  {
    if es == [] then ms
    else DenoteInto(f, DenoteEntry(f, ms, es[0]), es[1..])
  }

  function DenoteEntry(f: Features, ms: seq<Member>, e: Entry): seq<Member>
    decreases e, 1
  {
    SetMember(ms, NameOf(e.name), Denote(f, e.value))
  }

  function Levels(t: Tree): (h: nat)
    ensures h >= 1
    decreases t, 0
  {
    match t
    case Leaf(_) => 1
    case ArrayTree(ts) => 1 + ElemsLevels(ts)
    case ObjectTree(es, _) => 1 + EntriesLevels(es)
  }

  function ElemsLevels(ts: seq<Tree>): nat
    decreases ts, 1
  {
    if ts == [] then 0 else Max(Levels(ts[0]), ElemsLevels(ts[1..]))
  }

  function EntriesLevels(es: seq<Entry>): nat
    decreases es, 1
  {
    if es == [] then 0 else Max(EntryLevels(es[0]), EntriesLevels(es[1..]))
  }

  function EntryLevels(e: Entry): nat
    decreases e, 1
  {
    Levels(e.value)
  }

  // ---------------------------------------------------------------- every tree is read

  lemma SpellFirst(f: Features, t: Tree, rest: seq<Token>)
    requires Good(f, t)
    ensures Spell(t) != [] && (Spell(t) + rest)[0] == Spell(t)[0]
    ensures Spell(t)[0].kind != Comment && Spell(t)[0].kind != ArrayEnd
    ensures DropComments(Spell(t) + rest) == Spell(t) + rest
  {
  }

  lemma LeafIsRead(f: Features, token: Token, rest: seq<Token>, cur: Value)
    requires IsLeaf(f, token)
    ensures ParseScalar(f, [token] + rest, cur) == Done(true, LeafValue(f, token), [], rest)
  {
    hide DecodeBody, Inner, NumberValue;
    assert ([token] + rest)[1..] == rest;
  }

  /** The tokens of a good tree are read, in front of anything, as the value it denotes, unless it is too tall
      for the depth it starts at: then the nesting guard throws. */
  lemma {:induction false} TreeIsRead(f: Features, t: Tree, rest: seq<Token>, cur: Value, depth: nat)
    requires Good(f, t)
    ensures ParseValue(f, Spell(t) + rest, cur, depth)
         == if depth + Levels(t) <= STACK_LIMIT + 1 then Done(true, Denote(f, t), [], rest) else Thrown
    decreases t, 0
  {
    hide ParseScalar, ParseArray, ParseMembers, SpellElems, SpellEntries, DenoteElems, DenoteInto;
    hide GoodElems, GoodEntries, IsLeaf, LeafValue, DropComments, MayTrail;
    SpellFirst(f, t, rest);
    match t {
      case Leaf(token) =>
        LeafKind(f, token);
        LeafIsRead(f, token, rest, cur);
      case ArrayTree(ts) =>
        var inside := SpellElems(ts) + [Punct(CLOSE_BRACKET)] + rest;
        assert Spell(t) + rest == [Punct(OPEN_BRACKET)] + inside;
        if depth <= STACK_LIMIT {
          ArrayIsRead(f, ts, rest, depth);
        }
      case ObjectTree(es, trailing) =>
        var inside := SpellEntries(es, trailing) + [Punct(CLOSE_BRACE)] + rest;
        assert Spell(t) + rest == [Punct(OPEN_BRACE)] + inside;
        if depth <= STACK_LIMIT {
          EntriesAreRead(f, es, trailing, [], [], rest, depth);
        }
    }
  }

  lemma LeafKind(f: Features, t: Token)
    requires IsLeaf(f, t)
    ensures t.kind != ObjectBegin && t.kind != ArrayBegin
  {
  }

  lemma {:induction false} ArrayIsRead(f: Features, ts: seq<Tree>, rest: seq<Token>, depth: nat)
    requires GoodElems(f, ts) && depth <= STACK_LIMIT
    ensures ParseArray(f, SpellElems(ts) + [Punct(CLOSE_BRACKET)] + rest, depth)
         == if depth + ElemsLevels(ts) <= STACK_LIMIT then Done(true, Arr(DenoteElems(f, ts)), [], rest) else Thrown
    decreases ts, 2
  {
    hide ParseElements, Spell, Good, Denote;
    var all := SpellElems(ts) + [Punct(CLOSE_BRACKET)] + rest;
    if ts == [] {
      assert all == [Punct(CLOSE_BRACKET)] + rest && all[1..] == rest;
    } else {
      SpellFirst(f, ts[0], []);
      assert all[0] == Spell(ts[0])[0];
      ElemsAreRead(f, ts, [], rest, depth);
      assert [] + DenoteElems(f, ts) == DenoteElems(f, ts);
    }
  }

  lemma {:induction false} ElemIsRead(
    f: Features, t: Tree, acc: seq<Value>, next: seq<Token>, depth: nat)
    requires Good(f, t) && next != [] && (next[0].kind == ArrayEnd || next[0].kind == ArraySeparator)
    ensures ParseElements(f, Spell(t) + next, acc, depth)
         == if depth + Levels(t) > STACK_LIMIT then Thrown
            else if next[0].kind == ArrayEnd then Done(true, Arr(acc + [Denote(f, t)]), [], next[1..])
            else ParseElements(f, next[1..], acc + [Denote(f, t)], depth)
    decreases t, 1
  {
    hide ParseValue, Spell, Denote, Good, Recover;
    TreeIsRead(f, t, next, Null, depth + 1);
  }

  lemma {:induction false} ElemsAreRead(
    f: Features, ts: seq<Tree>, acc: seq<Value>, rest: seq<Token>, depth: nat)
    requires GoodElems(f, ts) && ts != []
    ensures ParseElements(f, SpellElems(ts) + [Punct(CLOSE_BRACKET)] + rest, acc, depth)
         == if depth + ElemsLevels(ts) <= STACK_LIMIT then Done(true, Arr(acc + DenoteElems(f, ts)), [], rest)
            else Thrown
    decreases ts, 1
  {
    hide ParseElements, Spell, Denote, Good;
    var close := [Punct(CLOSE_BRACKET)] + rest;
    var all := SpellElems(ts) + [Punct(CLOSE_BRACKET)] + rest;
    var v := Denote(f, ts[0]);
    if |ts| == 1 {
      assert all == Spell(ts[0]) + close && close[1..] == rest;
      ElemIsRead(f, ts[0], acc, close, depth);
      assert DenoteElems(f, ts) == [v];
    } else {
      var more := SpellElems(ts[1..]) + [Punct(CLOSE_BRACKET)] + rest;
      var next := [Punct(COMMA)] + more;
      assert all == Spell(ts[0]) + next && next[1..] == more;
      ElemIsRead(f, ts[0], acc, next, depth);
      ElemsAreRead(f, ts[1..], acc + [v], rest, depth);
      assert acc + [v] + DenoteElems(f, ts[1..]) == acc + DenoteElems(f, ts);
    }
  }

  /** A member and the token after it. */
  lemma {:induction false} EntryIsRead(
    f: Features, e: Entry, acc: seq<Member>, lastName: Text, next: seq<Token>, depth: nat)
    requires GoodEntry(f, e)
    requires next != [] && (next[0].kind == ObjectEnd || next[0].kind == ArraySeparator)
    ensures ParseMembers(f, SpellEntry(e) + next, acc, lastName, depth)
         == if depth + EntryLevels(e) > STACK_LIMIT then Thrown
            else if next[0].kind == ObjectEnd then Done(true, Obj(DenoteEntry(f, acc, e)), [], next[1..])
            else ParseMembers(f, next[1..], DenoteEntry(f, acc, e), NameOf(e.name), depth)
    decreases e, 1
  {
    hide ParseValue, Spell, Denote, Good, Recover, DecodeBody, Inner, NumberValue, Lookup, SetMember;
    var tail := [Punct(COLON)] + Spell(e.value) + next;
    assert SpellEntry(e) + next == [e.name] + tail;
    assert ([e.name] + tail)[1..] == tail;
    assert tail[1..] == Spell(e.value) + next;
    var name := NameOf(e.name);
    TreeIsRead(f, e.value, next, Lookup(acc, name), depth + 1);
    assert ParseMembers(f, SpellEntry(e) + next, acc, lastName, depth) == ParseMember(f, tail, acc, name, depth);
  }

  lemma {:induction false} EntriesAreRead(
    f: Features, es: seq<Entry>, trailing: bool, acc: seq<Member>, lastName: Text, rest: seq<Token>, depth: nat)
    requires GoodEntries(f, es) && (trailing ==> MayTrail(es)) && (es == [] ==> lastName == [])
    ensures ParseMembers(f, SpellEntries(es, trailing) + [Punct(CLOSE_BRACE)] + rest, acc, lastName, depth)
         == if depth + EntriesLevels(es) <= STACK_LIMIT || es == []
            then Done(true, Obj(DenoteInto(f, acc, es)), [], rest) else Thrown
    decreases es, 3
  {
    hide ParseMembers, SpellEntry, DenoteEntry, GoodEntry, EntryLevels, NameOf;
    var close := [Punct(CLOSE_BRACE)] + rest;
    var all := SpellEntries(es, trailing) + [Punct(CLOSE_BRACE)] + rest;
    assert close[1..] == rest;
    if es == [] {
      assert all == close;
      ObjectCloses(f, acc, rest, depth);
    } else {
      var name := NameOf(es[0].name);
      var acc1 := DenoteEntry(f, acc, es[0]);
      if |es| == 1 && !trailing {
        assert all == SpellEntry(es[0]) + close;
        EntryIsRead(f, es[0], acc, lastName, close, depth);
      } else {
        var more := if |es| == 1 then close else SpellEntries(es[1..], trailing) + [Punct(CLOSE_BRACE)] + rest;
        var next := [Punct(COMMA)] + more;
        assert all == SpellEntry(es[0]) + next && next[1..] == more;
        EntryIsRead(f, es[0], acc, lastName, next, depth);
        if |es| == 1 {
          ObjectCloses(f, acc1, rest, depth);
        } else {
          EntriesAreRead(f, es[1..], trailing, acc1, name, rest, depth);
        }
      }
    }
  }

  lemma ObjectCloses(f: Features, ms: seq<Member>, rest: seq<Token>, depth: nat)
    ensures ParseMembers(f, [Punct(CLOSE_BRACE)] + rest, ms, [], depth) == Done(true, Obj(ms), [], rest)
  {
    assert ([Punct(CLOSE_BRACE)] + rest)[1..] == rest;
  }

  // ---------------------------------------------------------------- whatever is read is a tree

  /** No comments, and tokens of punctuation are what they say. */
  predicate Plain(ts: seq<Token>) {
    forall t :: t in ts ==> IsPlain(t)
  }

  predicate IsPlain(t: Token) {
    && t.kind != Comment
    && (t.kind == ObjectBegin ==> t == Punct(OPEN_BRACE)) && (t.kind == ObjectEnd ==> t == Punct(CLOSE_BRACE))
    && (t.kind == ArrayBegin ==> t == Punct(OPEN_BRACKET)) && (t.kind == ArrayEnd ==> t == Punct(CLOSE_BRACKET))
    && (t.kind == ArraySeparator ==> t == Punct(COMMA)) && (t.kind == MemberSeparator ==> t == Punct(COLON))
  }

  /** A successful parse has read the tokens of a good tree, and its value is what the tree denotes. */
  predicate Explains(f: Features, t: Tree, ts: seq<Token>, r: Outcome, depth: nat) {
    r.Done? && Good(f, t) && ts == Spell(t) + r.rest && r.value == Denote(f, t) && depth + Levels(t) <= STACK_LIMIT + 1
  }

  predicate Succeeds(r: Outcome) {
    r.Done? && r.ok
  }

  lemma ScalarIsTree(f: Features, ts: seq<Token>, cur: Value)
    requires !f.allowDroppedNullPlaceholders && Succeeds(ParseScalar(f, ts, cur))
    ensures ts != [] && IsLeaf(f, ts[0]) && ParseScalar(f, ts, cur) == Done(true, LeafValue(f, ts[0]), [], ts[1..])
  {
    hide DecodeBody, Inner, NumberValue;
  }

  lemma {:induction false} ValueIsTree(f: Features, ts: seq<Token>, cur: Value, depth: nat) returns (t: Tree)
    requires Plain(ts) && !f.allowDroppedNullPlaceholders && Succeeds(ParseValue(f, ts, cur, depth))
    ensures Explains(f, t, ts, ParseValue(f, ts, cur, depth), depth)
    decreases |ts|, 3
  {
    hide ParseScalar, ParseArray, ParseMembers, Explains, DropComments, IsPlain;
    HeadIsPlain(ts);
    if Head(ts).kind == ObjectBegin {
      t := ObjectIsTree(f, ts, depth);
    } else if Head(ts).kind == ArrayBegin {
      t := ArrayIsTree(f, ts, depth);
    } else {
      ScalarIsTree(f, ts, cur);
      t := Leaf(ts[0]);
      LeafExplains(f, ts, cur, depth);
    }
  }

  lemma LeafExplains(f: Features, ts: seq<Token>, cur: Value, depth: nat)
    requires ts != [] && IsLeaf(f, ts[0]) && ParseScalar(f, ts, cur) == Done(true, LeafValue(f, ts[0]), [], ts[1..])
    requires depth <= STACK_LIMIT
    ensures Explains(f, Leaf(ts[0]), ts, ParseScalar(f, ts, cur), depth)
  {
    hide ParseScalar, IsLeaf, LeafValue;
    assert ts == [ts[0]] + ts[1..];
  }

  lemma {:induction false} ObjectIsTree(f: Features, ts: seq<Token>, depth: nat) returns (t: Tree)
    requires Plain(ts) && !f.allowDroppedNullPlaceholders && Head(ts).kind == ObjectBegin && depth <= STACK_LIMIT
    requires Succeeds(ParseMembers(f, Tail(ts), [], [], depth))
    ensures Explains(f, t, ts, ParseMembers(f, Tail(ts), [], [], depth), depth)
    decreases |ts|, 0
  {
    hide ParseMembers, IsPlain, SpellEntries, GoodEntries, DenoteInto, EntriesLevels;
    HeadIsPlain(ts);
    PunctIs(ts[0]);
    var r := ParseMembers(f, Tail(ts), [], [], depth);
    var es, trailing := MembersAreEntries(f, Tail(ts), [], [], depth);
    t := ObjectTree(es, trailing);
    assert ts == [Punct(OPEN_BRACE)] + (SpellEntries(es, trailing) + [Punct(CLOSE_BRACE)]) + r.rest;
  }

  lemma {:induction false} ArrayIsTree(f: Features, ts: seq<Token>, depth: nat) returns (t: Tree)
    requires Plain(ts) && !f.allowDroppedNullPlaceholders && Head(ts).kind == ArrayBegin && depth <= STACK_LIMIT
    requires Succeeds(ParseArray(f, Tail(ts), depth))
    ensures Explains(f, t, ts, ParseArray(f, Tail(ts), depth), depth)
    decreases |ts|, 0
  {
    hide ParseElements, IsPlain, SpellElems, GoodElems, DenoteElems, ElemsLevels;
    HeadIsPlain(ts);
    PunctIs(ts[0]);
    var r := ParseArray(f, Tail(ts), depth);
    if Head(Tail(ts)).kind == ArrayEnd {
      HeadIsPlain(Tail(ts));
      PunctIs(Tail(ts)[0]);
      t := ArrayTree([]);
      NoElems(f);
      assert ts == [Punct(OPEN_BRACKET)] + ([] + [Punct(CLOSE_BRACKET)]) + r.rest;
    } else {
      var trees := ElementsAreTrees(f, Tail(ts), [], depth);
      t := ArrayTree(trees);
      assert [] + DenoteElems(f, trees) == DenoteElems(f, trees);
      assert ts == [Punct(OPEN_BRACKET)] + (SpellElems(trees) + [Punct(CLOSE_BRACKET)]) + r.rest;
    }
  }

  lemma NoElems(f: Features)
    ensures SpellElems([]) == [] && GoodElems(f, []) && DenoteElems(f, []) == [] && ElemsLevels([]) == 0
  {
  }

  lemma HeadIsPlain(ts: seq<Token>)
    requires Plain(ts)
    ensures ts != [] ==> IsPlain(ts[0]) && ts == [ts[0]] + Tail(ts)
    ensures Plain(Tail(ts)) && DropComments(ts) == ts
  {
    if ts != [] {
      assert ts[0] in ts;
      assert forall t :: t in ts[1..] ==> t in ts;
    }
  }

  lemma RestIsPlain(a: seq<Token>, b: seq<Token>)
    requires Plain(a + b)
    ensures Plain(b)
  {
    assert forall t :: t in b ==> t in a + b;
  }

  lemma ElementSucceeds(f: Features, ts: seq<Token>, elems: seq<Value>, depth: nat)
    requires Plain(ts) && Succeeds(ParseElements(f, ts, elems, depth))
    ensures var r := ParseValue(f, ts, Null, depth + 1);
            Succeeds(r) && var k := Head(DropComments(r.rest)).kind; k == ArraySeparator || k == ArrayEnd
  {
    hide ParseValue, Recover, DropComments;
  }

  /** The first element, and the token after it. */
  lemma {:induction false} ElementIsThere(f: Features, ts: seq<Token>, elems: seq<Value>, depth: nat)
    returns (t: Tree, next: seq<Token>)
    requires Plain(ts) && !f.allowDroppedNullPlaceholders && Succeeds(ParseElements(f, ts, elems, depth))
    ensures Good(f, t) && ts == Spell(t) + next && Plain(next) && depth + Levels(t) <= STACK_LIMIT
    ensures next != [] && (next[0] == Punct(COMMA) || next[0] == Punct(CLOSE_BRACKET))
    decreases |ts|, 4
  {
    hide ParseValue, ParseElements, Spell, Good, Denote, Levels, DropComments, IsPlain;
    ElementSucceeds(f, ts, elems, depth);
    t := ValueIsTree(f, ts, Null, depth + 1);
    next := ParseValue(f, ts, Null, depth + 1).rest;
    RestIsPlain(Spell(t), next);
    HeadIsPlain(next);
    PunctIs(next[0]);
  }

  lemma {:induction false} ElementsAreTrees(f: Features, ts: seq<Token>, elems: seq<Value>, depth: nat)
    returns (trees: seq<Tree>)
    requires Plain(ts) && !f.allowDroppedNullPlaceholders && Succeeds(ParseElements(f, ts, elems, depth))
    ensures var r := ParseElements(f, ts, elems, depth);
            && trees != [] && GoodElems(f, trees) && ts == SpellElems(trees) + [Punct(CLOSE_BRACKET)] + r.rest
            && r.value == Arr(elems + DenoteElems(f, trees)) && depth + ElemsLevels(trees) <= STACK_LIMIT
    decreases |ts|, 5
  {
    hide ParseElements, Spell, SpellElems, Good, GoodElems, Denote, DenoteElems, Levels, ElemsLevels, IsPlain;
    var t, next := ElementIsThere(f, ts, elems, depth);
    ElemIsRead(f, t, elems, next, depth);
    HeadIsPlain(next);
    var v, r := Denote(f, t), ParseElements(f, ts, elems, depth);
    if next[0] == Punct(COMMA) {
      var more := ElementsAreTrees(f, Tail(next), elems + [v], depth);
      trees := [t] + more;
      MoreElems(f, t, more);
      Join(Spell(t), [Punct(COMMA)], SpellElems(more), [Punct(CLOSE_BRACKET)], r.rest);
      Assoc(elems, [v], DenoteElems(f, more));
    } else {
      trees := [t];
      OneElem(f, t);
      Assoc(Spell(t), [Punct(CLOSE_BRACKET)], r.rest);
    }
  }

  /** A piece, a separator and what follows, put the other way. */
  lemma Join(a: seq<Token>, c: seq<Token>, m: seq<Token>, e: seq<Token>, rest: seq<Token>)
    ensures a + (c + (m + e + rest)) == a + (c + m) + e + rest
  {
    Assoc(c, m, e);
    Assoc(c, m + e, rest);
    Assoc(a, c + m, e);
    Assoc(a, c + m + e, rest);
  }

  lemma OneElem(f: Features, t: Tree)
    ensures SpellElems([t]) == Spell(t) && DenoteElems(f, [t]) == [Denote(f, t)]
    ensures (GoodElems(f, [t]) <==> Good(f, t)) && ElemsLevels([t]) == Levels(t)
  {
    hide Spell, Denote, Good, Levels;
    assert [t][1..] == [];
  }

  lemma MoreElems(f: Features, t: Tree, more: seq<Tree>)
    requires more != []
    ensures SpellElems([t] + more) == Spell(t) + ([Punct(COMMA)] + SpellElems(more))
    ensures DenoteElems(f, [t] + more) == [Denote(f, t)] + DenoteElems(f, more)
    ensures GoodElems(f, [t] + more) <==> Good(f, t) && GoodElems(f, more)
    ensures ElemsLevels([t] + more) == Max(Levels(t), ElemsLevels(more))
  {
    assert ([t] + more)[1..] == more;
  }

  lemma PunctIs(t: Token)
    requires IsPlain(t)
    ensures t.kind == ObjectBegin ==> t == Punct(OPEN_BRACE)
    ensures t.kind == ArrayBegin ==> t == Punct(OPEN_BRACKET)
    ensures t.kind == ArraySeparator ==> t == Punct(COMMA)
    ensures t.kind == ArrayEnd ==> t == Punct(CLOSE_BRACKET)
    ensures t.kind == ObjectEnd ==> t == Punct(CLOSE_BRACE)
    ensures t.kind == MemberSeparator ==> t == Punct(COLON)
    ensures t.kind != Comment
  {
  }

  lemma {:induction false} MembersAreEntries(
    f: Features, ts: seq<Token>, ms: seq<Member>, lastName: Text, depth: nat)
    returns (es: seq<Entry>, trailing: bool)
    requires Plain(ts) && !f.allowDroppedNullPlaceholders && Succeeds(ParseMembers(f, ts, ms, lastName, depth))
    requires depth <= STACK_LIMIT
    ensures var r := ParseMembers(f, ts, ms, lastName, depth);
            && GoodEntries(f, es) && (trailing ==> MayTrail(es)) && (es == [] ==> lastName == [])
            && ts == SpellEntries(es, trailing) + [Punct(CLOSE_BRACE)] + r.rest
            && r.value == Obj(DenoteInto(f, ms, es)) && depth + EntriesLevels(es) <= STACK_LIMIT
    decreases |ts|, 2
  {
    hide ParseMember, Recover, DropComments, IsPlain, DecodeBody, Inner, NumberValue;
    HeadIsPlain(ts);
    if Head(ts).kind == ObjectEnd && lastName == [] {
      PunctIs(ts[0]);
      es, trailing := [], false;
    } else {
      es, trailing := MemberIsEntry(f, ts, ms, lastName, depth);
    }
  }

  lemma NameIsThere(f: Features, ts: seq<Token>, ms: seq<Member>, lastName: Text, depth: nat)
    requires Plain(ts) && Succeeds(ParseMembers(f, ts, ms, lastName, depth))
    requires !(Head(ts).kind == ObjectEnd && lastName == [])
    ensures ts != [] && IsName(ts[0])
    ensures ParseMembers(f, ts, ms, lastName, depth) == ParseMember(f, Tail(ts), ms, NameOf(ts[0]), depth)
  {
    hide ParseMember, Recover, IsPlain, DecodeBody, Inner, NumberValue, DropComments;
    HeadIsPlain(ts);
  }

  lemma MemberSucceeds(f: Features, ts: seq<Token>, ms: seq<Member>, name: Text, depth: nat)
    requires Succeeds(ParseMember(f, ts, ms, name, depth))
    ensures Head(ts).kind == MemberSeparator
    ensures var r := ParseValue(f, Tail(ts), Lookup(ms, name), depth + 1);
            Succeeds(r) && var k := Head(r.rest).kind; k == ArraySeparator || k == ObjectEnd || k == Comment
  {
    hide ParseValue, ParseMembers, Recover, DropComments, Lookup, SetMember;
  }

  /** The first member, and the token after it. */
  lemma {:induction false} EntryIsThere(
    f: Features, ts: seq<Token>, ms: seq<Member>, lastName: Text, depth: nat)
    returns (e: Entry, next: seq<Token>)
    requires Plain(ts) && !f.allowDroppedNullPlaceholders && Succeeds(ParseMembers(f, ts, ms, lastName, depth))
    requires depth <= STACK_LIMIT && !(Head(ts).kind == ObjectEnd && lastName == [])
    ensures GoodEntry(f, e) && ts == SpellEntry(e) + next && Plain(next) && depth + EntryLevels(e) <= STACK_LIMIT
    ensures next != [] && (next[0] == Punct(COMMA) || next[0] == Punct(CLOSE_BRACE))
    decreases |ts|, 0
  {
    hide ParseValue, ParseMember, ParseMembers, Spell, SpellEntry, Good, Denote, Levels, DropComments, IsPlain, IsName;
    hide NameOf, Lookup;
    HeadIsPlain(ts);
    NameIsThere(f, ts, ms, lastName, depth);
    var colon, name := Tail(ts), NameOf(ts[0]);
    HeadIsPlain(colon);
    MemberSucceeds(f, colon, ms, name, depth);
    PunctIs(colon[0]);
    var t := ValueIsTree(f, Tail(colon), Lookup(ms, name), depth + 1);
    e, next := Entry(ts[0], t), ParseValue(f, Tail(colon), Lookup(ms, name), depth + 1).rest;
    RestIsPlain(Spell(t), next);
    HeadIsPlain(next);
    PunctIs(next[0]);
    EntryThen(e, next);
  }

  lemma EntryThen(e: Entry, next: seq<Token>)
    ensures SpellEntry(e) + next == [e.name] + ([Punct(COLON)] + (Spell(e.value) + next))
  {
    hide Spell;
    Assoc([e.name], [Punct(COLON)] + Spell(e.value), next);
    Assoc([Punct(COLON)], Spell(e.value), next);
  }

  lemma {:induction false} MemberIsEntry(
    f: Features, ts: seq<Token>, ms: seq<Member>, lastName: Text, depth: nat)
    returns (es: seq<Entry>, trailing: bool)
    requires Plain(ts) && !f.allowDroppedNullPlaceholders && Succeeds(ParseMembers(f, ts, ms, lastName, depth))
    requires depth <= STACK_LIMIT && !(Head(ts).kind == ObjectEnd && lastName == [])
    ensures var r := ParseMembers(f, ts, ms, lastName, depth);
            && es != [] && GoodEntries(f, es) && (trailing ==> MayTrail(es))
            && ts == SpellEntries(es, trailing) + [Punct(CLOSE_BRACE)] + r.rest
            && r.value == Obj(DenoteInto(f, ms, es)) && depth + EntriesLevels(es) <= STACK_LIMIT
    decreases |ts|, 1
  {
    hide ParseMembers, IsPlain, SpellEntry, SpellEntries, GoodEntry, GoodEntries, DenoteEntry, DenoteInto;
    hide EntryLevels, EntriesLevels, NameOf;
    var e, next := EntryIsThere(f, ts, ms, lastName, depth);
    EntryIsRead(f, e, ms, lastName, next, depth);
    HeadIsPlain(next);
    var r := ParseMembers(f, ts, ms, lastName, depth);
    if next[0] == Punct(COMMA) {
      var more;
      more, trailing := MembersAreEntries(f, Tail(next), DenoteEntry(f, ms, e), NameOf(e.name), depth);
      es, trailing := [e] + more, trailing || more == [];
      if more == [] {
        OneEntry(f, ms, e);
        assert es == [e];
        NoEntries(f, DenoteEntry(f, ms, e));
        Join(SpellEntry(e), [Punct(COMMA)], [], [Punct(CLOSE_BRACE)], r.rest);
      } else {
        MoreEntries(f, ms, e, more, trailing);
        Join(SpellEntry(e), [Punct(COMMA)], SpellEntries(more, trailing), [Punct(CLOSE_BRACE)], r.rest);
        assert es[|es| - 1] == more[|more| - 1];
      }
    } else {
      es, trailing := [e], false;
      OneEntry(f, ms, e);
      Assoc(SpellEntry(e), [Punct(CLOSE_BRACE)], r.rest);
    }
  }

  lemma NoEntries(f: Features, ms: seq<Member>)
    ensures forall trailing :: SpellEntries([], trailing) == []
    ensures DenoteInto(f, ms, []) == ms
  {
  }

  lemma OneEntry(f: Features, ms: seq<Member>, e: Entry)
    ensures SpellEntries([e], false) == SpellEntry(e) && SpellEntries([e], true) == SpellEntry(e) + [Punct(COMMA)]
    ensures DenoteInto(f, ms, [e]) == DenoteEntry(f, ms, e)
    ensures GoodEntries(f, [e]) <==> GoodEntry(f, e)
    ensures EntriesLevels([e]) == EntryLevels(e)
  {
    hide SpellEntry, GoodEntry, DenoteEntry, EntryLevels;
    assert [e][1..] == [];
  }

  lemma MoreEntries(f: Features, ms: seq<Member>, e: Entry, more: seq<Entry>, trailing: bool)
    requires more != []
    ensures SpellEntries([e] + more, trailing) == SpellEntry(e) + ([Punct(COMMA)] + SpellEntries(more, trailing))
    ensures DenoteInto(f, ms, [e] + more) == DenoteInto(f, DenoteEntry(f, ms, e), more)
    ensures GoodEntries(f, [e] + more) <==> GoodEntry(f, e) && GoodEntries(f, more)
    ensures EntriesLevels([e] + more) == Max(EntryLevels(e), EntriesLevels(more))
  {
    hide SpellEntry, GoodEntry, DenoteEntry, EntryLevels;
    assert ([e] + more)[1..] == more;
  }

  // ---------------------------------------------------------------- documents

  /** The tokens of any document without comments are plain. */
  lemma {:induction false} LexIsPlain(s: Text)
    requires forall t :: t in Lex(s) ==> t.kind != Comment
    ensures Plain(Lex(s))
    decreases |s|
  {
    hide ScanString, ScanComment, ScanNumber, ScanWord;
    if SkipSpaces(s) != [] {
      var n := NextToken(s);
      assert Lex(s) == [n.token] + Lex(n.rest);
      assert n.token in Lex(s);
      forall t | t in Lex(n.rest)
        ensures t.kind != Comment
      {
        assert t in Lex(s);
      }
      TokenIsPlain(s);
      LexIsPlain(n.rest);
    }
  }

  lemma TokenIsPlain(s: Text)
    requires NextToken(s).token.kind != Comment
    ensures IsPlain(NextToken(s).token)
  {
    hide ScanString, ScanComment, ScanNumber, ScanWord;
  }

  /** The tree of a document: its tokens are the first ones, and it has at most 1000 levels. What stands
      after them is never looked at. */
  predicate IsTreeOf(f: Features, t: Tree, document: Text) {
    Good(f, t) && Spell(t) <= Lex(document) && Levels(t) <= STACK_LIMIT && (f.strictRoot ==> !t.Leaf?)
  }

  /** A document without comments is accepted exactly when its tokens start with those of a good tree; the
      value is then what the tree denotes, whatever the root held before. */
  lemma AcceptsExactly(f: Features, document: Text, root: Value)
    requires !f.allowDroppedNullPlaceholders && forall t :: t in Lex(document) ==> t.kind != Comment
    ensures var r := ParseDocument(f, document, root);
            (r.Parsed? && r.ok) <==> exists t :: IsTreeOf(f, t, document)
    ensures forall t :: IsTreeOf(f, t, document) ==> ParseDocument(f, document, root) == Parsed(true, Denote(f, t), [])
  {
    hide Lex, ParseValue, Spell, Good, Denote, Levels;
    var ts := Lex(document);
    forall t | IsTreeOf(f, t, document)
      ensures ParseDocument(f, document, root) == Parsed(true, Denote(f, t), [])
    {
      assert ts == Spell(t) + ts[|Spell(t)|..];
      TreeIsRead(f, t, ts[|Spell(t)|..], root, 1);
      ContainersDenoteContainers(f, t);
    }
    var r := ParseDocument(f, document, root);
    if r.Parsed? && r.ok {
      LexIsPlain(document);
      var t := ValueIsTree(f, ts, root, 1);
      ContainersDenoteContainers(f, t);
      assert IsTreeOf(f, t, document);
    }
  }

  lemma ContainersDenoteContainers(f: Features, t: Tree)
    ensures Denote(f, t).IsContainer() <==> !t.Leaf?
  {
  }
}
