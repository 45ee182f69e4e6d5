/** What `Reader` does, as functions on the token sequence of the document. */
module Parser {
  import opened Bytes
  import opened JsonValue
  import opened Numbers
  import opened Unquoting
  import opened Lexer

  const STACK_LIMIT := 1000

  /** The reader's options; `readDouble` stands for the library's conversion of text to a double,
      which may fail. */
  datatype Features = Features(
    allowComments: bool,
    strictRoot: bool,
    allowDroppedNullPlaceholders: bool,
    allowNumericKeys: bool,
    readDouble: Text -> Reading)

  datatype Reading = Double(bits: int) | NoDouble

  datatype Message =
    | ValueExpected
    | NotANumber
    | Escape(cause: DecodeError)
    | MissingColon
    | MissingCommaOrBrace
    | MissingBraceOrName
    | MissingCommaOrBracket
    | NotArrayOrObject

  datatype Error = Error(message: Message, token: Token)

  /** A value was read (or not: `ok`), this is what the current value has become, these are the errors
      added and the tokens left; or the nesting guard, or a numeric key, has thrown. */
  datatype Outcome = Done(ok: bool, value: Value, errors: seq<Error>, rest: seq<Token>) | Thrown

  function DropComments(ts: seq<Token>): (rest: seq<Token>)
    ensures |rest| <= |ts|
    ensures Head(rest).kind != Comment
  {
    if ts != [] && ts[0].kind == Comment then DropComments(ts[1..]) else ts
  }

  /** Tokens are dropped up to and including the one asked for, or an end of the stream. */
  function Recover(ts: seq<Token>, until: Kind): (rest: seq<Token>)
    ensures |rest| <= |ts|
  {
    if ts == [] then []
    else if ts[0].kind == until || ts[0].kind == EndOfStream then ts[1..]
    else Recover(ts[1..], until)
  }

  function FailAndRecover(message: Message, token: Token, v: Value, ts: seq<Token>, until: Kind): Outcome {
    Done(false, v, [Error(message, token)], Recover(ts, until))
  }

  datatype Conversion = Converted(value: Value) | NotConverted

  function NumberValue(f: Features, text: Text): Conversion
    requires text != []
  {
    match NumberOf(text)
    case Whole(v) => Converted(v)
    case Double =>
      match f.readDouble(text)
      case Double(bits) => Converted(Real(bits))
      case NoDouble => NotConverted
  }

  /** The bytes between the quotes of a string token. */
  function Inner(text: Text): Text {
    if |text| >= 2 then text[1..|text| - 1] else []
  }

  /** A value that is no container; `cur` is what stood in its place before. */
  function ParseScalar(f: Features, ts: seq<Token>, cur: Value): (r: Outcome)
    ensures r.Done? && |r.rest| <= |ts|
  {
    var token, rest := Head(ts), Tail(ts);
    if token.kind == NumberToken && token.text != [] then
      match NumberValue(f, token.text)
      case Converted(v) => Done(true, v, [], rest)
      case NotConverted => Done(false, cur, [Error(NotANumber, token)], rest)
    else if token.kind == StringToken then
      match DecodeBody(Inner(token.text))
      case Decoded(s, _) => Done(true, Str(s), [], rest)
      case BadString(cause) => Done(false, cur, [Error(Escape(cause), token)], rest)
    else if token.kind == TrueToken then Done(true, Bool(true), [], rest)
    else if token.kind == FalseToken then Done(true, Bool(false), [], rest)
    else if token.kind == NullToken then Done(true, Null, [], rest)
    else if (token.kind == ArraySeparator || token.kind == ObjectEnd || token.kind == ArrayEnd)
         && f.allowDroppedNullPlaceholders then
      Done(true, Null, [], ts)
    else Done(false, cur, [Error(ValueExpected, token)], rest)
  }

  /** A value; `depth` is the number of open values. */
  function ParseValue(f: Features, ts: seq<Token>, cur: Value, depth: nat): (r: Outcome)
    ensures r.Done? ==> |r.rest| <= |ts|
    decreases |ts|, 0
  {
    var ts1 := if f.allowComments then DropComments(ts) else ts;
    if depth > STACK_LIMIT then Thrown
    else if Head(ts1).kind == ObjectBegin then ParseMembers(f, Tail(ts1), [], [], depth)
    else if Head(ts1).kind == ArrayBegin then ParseArray(f, Tail(ts1), depth)
    else ParseScalar(f, ts1, cur)
  }

  function ParseArray(f: Features, ts: seq<Token>, depth: nat): (r: Outcome)
    ensures r.Done? ==> |r.rest| <= |ts|
    decreases |ts|, 2
  {
    if Head(ts).kind == ArrayEnd then Done(true, Arr([]), [], Tail(ts)) else ParseElements(f, ts, [], depth)
  }

  /** The elements after those in `elems`, each read one level deeper. */
  function ParseElements(f: Features, ts: seq<Token>, elems: seq<Value>, depth: nat): (r: Outcome)
    ensures r.Done? ==> |r.rest| <= |ts|
    decreases |ts|, 1
  {
    var r := ParseValue(f, ts, Null, depth + 1);
    if r.Thrown? then Thrown
    else
      var v := Arr(elems + [r.value]);
      if !r.ok then Done(false, v, r.errors, Recover(r.rest, ArrayEnd))
      else
        var ts1 := DropComments(r.rest);
        var token, rest := Head(ts1), Tail(ts1);
        if token.kind == ArrayEnd then Done(true, v, [], rest)
        else if token.kind != ArraySeparator then FailAndRecover(MissingCommaOrBracket, token, v, rest, ArrayEnd)
        else ParseElements(f, rest, elems + [r.value], depth)
  }

  /** The members after those in `ms`. `lastName` is the name read before, empty at the start: a brace
      may close the object here only while it is empty. */
  function ParseMembers(f: Features, ts: seq<Token>, ms: seq<Member>, lastName: Text, depth: nat): (r: Outcome)
    ensures r.Done? ==> |r.rest| <= |ts|
    decreases |ts|, 1
  {
    var ts1 := DropComments(ts);
    var token, rest := Head(ts1), Tail(ts1);
    if token.kind == ObjectEnd && lastName == [] then Done(true, Obj(ms), [], rest)
    else if token.kind == StringToken then
      match DecodeBody(Inner(token.text))
      case BadString(cause) =>
        Done(false, Obj(ms), [Error(Escape(cause), token)], Recover(rest, ObjectEnd))
      case Decoded(name, _) => ParseMember(f, rest, ms, name, depth)
    else if token.kind == NumberToken && token.text != [] && f.allowNumericKeys then
      match NumberValue(f, token.text)
      case Converted(_) => Thrown
      case NotConverted => Done(false, Obj(ms), [Error(NotANumber, token)], Recover(rest, ObjectEnd))
    else FailAndRecover(MissingBraceOrName, token, Obj(ms), rest, ObjectEnd)
  }

  /** A member from its colon on, then the rest of the object. After a comment any token passes for
      the separator. */
  function ParseMember(f: Features, ts: seq<Token>, ms: seq<Member>, name: Text, depth: nat): (r: Outcome)
    ensures r.Done? ==> |r.rest| <= |ts|
    decreases |ts|, 2
  {
    if Head(ts).kind != MemberSeparator then
      FailAndRecover(MissingColon, Head(ts), Obj(ms), Tail(ts), ObjectEnd)
    else
      var r := ParseValue(f, Tail(ts), Lookup(ms, name), depth + 1);
      if r.Thrown? then Thrown
      else
        var ms1 := SetMember(ms, name, r.value);
        if !r.ok then Done(false, Obj(ms1), r.errors, Recover(r.rest, ObjectEnd))
        else
          var comma := Head(r.rest).kind;
          if comma != ObjectEnd && comma != ArraySeparator && comma != Comment then
            FailAndRecover(MissingCommaOrBrace, Head(r.rest), Obj(ms1), Tail(r.rest), ObjectEnd)
          else
            var ts1 := DropComments(r.rest);
            if Head(ts1).kind == ObjectEnd then Done(true, Obj(ms1), [], Tail(ts1))
            else ParseMembers(f, Tail(ts1), ms1, name, depth)
  }

  /** The result of a whole parse: its verdict, the root and the errors, or an exception. */
  datatype Result = Parsed(ok: bool, root: Value, errors: seq<Error>) | Threw

  function ParseDocument(f: Features, document: Text, root: Value): Result {
    match ParseValue(f, Lex(document), root, 1)
    case Thrown => Threw
    case Done(ok, v, errors, _) =>
      if f.strictRoot && !v.IsContainer() then
        Parsed(false, v, errors + [Error(NotArrayOrObject, Token(ErrorToken, document))])
      else Parsed(ok, v, errors)
  }

  // ---------------------------------------------------------------- error accounting

  /** No error on success, exactly one on failure. */
  predicate CountsErrors(r: Outcome) {
    r.Done? ==> |r.errors| == if r.ok then 0 else 1
  }

  lemma {:induction false} ValueCountsErrors(f: Features, ts: seq<Token>, cur: Value, depth: nat)
    ensures CountsErrors(ParseValue(f, ts, cur, depth))
    decreases |ts|, 0
  {
    var ts1 := if f.allowComments then DropComments(ts) else ts;
    if depth <= STACK_LIMIT {
      if Head(ts1).kind == ObjectBegin {
        MembersCountErrors(f, Tail(ts1), [], [], depth);
      } else if Head(ts1).kind == ArrayBegin && Head(Tail(ts1)).kind != ArrayEnd {
        ElementsCountErrors(f, Tail(ts1), [], depth);
      }
    }
  }

  lemma {:induction false} ElementsCountErrors(f: Features, ts: seq<Token>, elems: seq<Value>, depth: nat)
    ensures CountsErrors(ParseElements(f, ts, elems, depth))
    decreases |ts|, 1
  {
    ValueCountsErrors(f, ts, Null, depth + 1);
    var r := ParseValue(f, ts, Null, depth + 1);
    if r.Done? && r.ok && Head(DropComments(r.rest)).kind == ArraySeparator {
      ElementsCountErrors(f, Tail(DropComments(r.rest)), elems + [r.value], depth);
    }
  }

  lemma {:induction false} MembersCountErrors(
    f: Features, ts: seq<Token>, ms: seq<Member>, lastName: Text, depth: nat)
    ensures CountsErrors(ParseMembers(f, ts, ms, lastName, depth))
    decreases |ts|, 1
  {
    var ts1 := DropComments(ts);
    if Head(ts1).kind == StringToken && DecodeBody(Inner(Head(ts1).text)).Decoded? {
      MemberCountsErrors(f, Tail(ts1), ms, DecodeBody(Inner(Head(ts1).text)).text, depth);
    }
  }

  lemma {:induction false} MemberCountsErrors(
    f: Features, ts: seq<Token>, ms: seq<Member>, name: Text, depth: nat)
    ensures CountsErrors(ParseMember(f, ts, ms, name, depth))
    decreases |ts|, 2
  {
    if Head(ts).kind == MemberSeparator {
      ValueCountsErrors(f, Tail(ts), Lookup(ms, name), depth + 1);
      var r := ParseValue(f, Tail(ts), Lookup(ms, name), depth + 1);
      if r.Done? && r.ok {
        var ts1 := DropComments(r.rest);
        if Head(ts1).kind != ObjectEnd && r.rest != [] {
          MembersCountErrors(f, Tail(ts1), SetMember(ms, name, r.value), name, depth);
        }
      }
    }
  }

  /** A parse that returns says yes exactly when there is nothing to report, and however deep it
      failed it has one error to report; a strict root that is no container adds its own. */
  lemma ParseReportsItsErrors(f: Features, document: Text, root: Value)
    ensures var r := ParseDocument(f, document, root);
            r.Parsed? ==> (r.ok <==> r.errors == [])
                          && (!f.strictRoot || r.root.IsContainer() ==> |r.errors| <= 1)
                          && |r.errors| <= 2
  {
    ValueCountsErrors(f, Lex(document), root, 1);
  }
}
