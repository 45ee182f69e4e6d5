/** The reader itself: a cursor over the document, a stack of values being built, a list of errors. */
module Reader {
  import opened Bytes
  import opened JsonValue
  import opened Numbers
  import opened Utf8
  import opened Unquoting
  import opened Lexer
  import opened Parser

  /** How a method of the reader ends: it returns a verdict, or it throws. */
  datatype Flow = Returned(ok: bool) | Raised

  /** Stepping back over a one-byte token puts it in front again. */
  lemma Unread(s: Text)
    requires var k := NextToken(s).token.kind; k == ArraySeparator || k == ObjectEnd || k == ArrayEnd
    ensures |NextToken(s).rest| < |s|
    ensures Lex(s[|s| - |NextToken(s).rest| - 1..]) == Lex(s)
  {
    var t := SkipSpaces(s);
    assert t != [];
    SingleTokenRest(t[0], t[1..]);
    SkipSpacesIsSuffix(s);
    assert s[|s| - |NextToken(s).rest| - 1..] == t;
    LexAfterSpaces(s);
  }

  lemma {:induction false} SkipSpacesIsSuffix(s: Text)
    ensures SkipSpaces(s) == s[|s| - |SkipSpaces(s)|..]
  {
    if s != [] && IsSpace(s[0]) {
      SkipSpacesIsSuffix(s[1..]);
    }
  }

  lemma SingleTokenRest(c: Byte, s: Text)
    requires var k := ScanToken(c, s).kind; k == ArraySeparator || k == ObjectEnd || k == ArrayEnd
    ensures ScanToken(c, s).rest == s
  {
  }

  /** The next token closes an array exactly when the next byte that is no space is a bracket. */
  lemma PeekArrayEnd(s: Text)
    ensures Head(Lex(s)).kind == ArrayEnd <==> SkipSpaces(s) != [] && SkipSpaces(s)[0] == CLOSE_BRACKET
  {
    var t := SkipSpaces(s);
    if t != [] {
      hide ScanString, ScanComment, ScanNumber, ScanWord;
      assert Head(Lex(s)).kind == ScanToken(t[0], t[1..]).kind;
    }
  }

  /** Long enough for the decoders: a string token has its two quotes, a number token is not empty. */
  predicate WellShaped(token: Token) {
    (token.kind == StringToken ==> |token.text| >= 2) && (token.kind == NumberToken ==> token.text != [])
  }

  lemma NextTokenWellShaped(s: Text)
    ensures WellShaped(NextToken(s).token)
  {
    if NextToken(s).token.kind == StringToken {
      StringTokenShape(s);
    }
  }

  lemma DigitsAt(d: Text, p: nat)
    requires p <= |d|
    ensures SkipDigits(d[p..]) == if p < |d| && IsDigit(d[p]) then SkipDigits(d[p + 1..]) else d[p..]
  {
    assert p < |d| ==> d[p..][1..] == d[p + 1..];
  }

  lemma DropComment(ts: seq<Token>)
    ensures DropComments(ts) == if Head(ts).kind == Comment then DropComments(Tail(ts)) else ts
  {
  }

  class Reader {
    const features: Features
    var document: Text
    var current: nat
    var nodes: seq<Value>
    var errors: seq<Error>

    ghost predicate Valid()
      reads this
    {
      current <= |document|
    }

    /** The bytes the cursor has not passed. */
    ghost function Ahead(): Text
      requires Valid()
      reads this
    {
      document[current..]
    }

    constructor (features: Features)
      ensures Valid() && this.features == features
    {
      this.features := features;
      document, current, nodes, errors := [], 0, [], [];
    }

    // -------------------------------------------------------------- the cursor

    method GetNextChar() returns (c: Byte)
      requires Valid()
      modifies this`current
      ensures Valid()
      ensures if old(current) == |document| then c == 0 && current == old(current)
              else c == document[old(current)] && current == old(current) + 1
    {
      if current == |document| {
        return 0;
      }
      c := document[current];
      current := current + 1;
    }

    method SkipSpaces()
      requires Valid()
      modifies this`current
      ensures Valid() && Ahead() == Lexer.SkipSpaces(old(Ahead()))
    {
      while current != |document|
        invariant Valid() && Lexer.SkipSpaces(Ahead()) == Lexer.SkipSpaces(old(Ahead()))
        decreases |document| - current
      {
        var c := document[current];
        assert Ahead()[1..] == document[current + 1..];
        if c == SPACE || c == TAB || c == CARRIAGE_RETURN || c == LINE_FEED {
          current := current + 1;
        } else {
          break;
        }
      }
    }

    /** The word is compared from its last byte to its first. */
    method Match(pattern: Text) returns (ok: bool)
      requires Valid()
      modifies this`current
      ensures Valid() && Scan(ok, Ahead()) == ScanWord(old(Ahead()), pattern)
    {
      if |document| - current < |pattern| {
        return false;
      }
      var index := |pattern|;
      ghost var s := Ahead();
      while index > 0
        invariant 0 <= index <= |pattern|
        invariant forall i :: index <= i < |pattern| ==> s[i] == pattern[i]
      {
        index := index - 1;
        assert s[index] == document[current + index];
        if document[current + index] != pattern[index] {
          assert s[..|pattern|][index] != pattern[index];
          return false;
        }
      }
      assert s[..|pattern|] == pattern;
      current := current + |pattern|;
      assert document[current..] == s[|pattern|..];
      ok := true;
    }

    method ReadString() returns (ok: bool)
      requires Valid()
      modifies this`current
      ensures Valid() && Scan(ok, Ahead()) == ScanString(old(Ahead()))
    {
      var c: Byte := 0;
      while current != |document|
        invariant Valid() && ScanString(Ahead()) == ScanString(old(Ahead()))
        invariant c != QUOTE
        decreases |document| - current
      {
        ghost var s := Ahead();
        c := GetNextChar();
        assert Ahead() == s[1..];
        if c == BACKSLASH {
          var skipped := GetNextChar();
          assert |s| >= 2 ==> Ahead() == s[2..];
        } else if c == QUOTE {
          break;
        }
      }
      ok := c == QUOTE;
    }

    method ReadCStyleComment() returns (ok: bool)
      requires Valid()
      modifies this`current
      ensures Valid() && Scan(ok, Ahead()) == ScanBlockComment(old(Ahead()))
    {
      while current + 1 < |document|
        invariant Valid() && ScanBlockComment(Ahead()) == ScanBlockComment(old(Ahead()))
        decreases |document| - current
      {
        ghost var s := Ahead();
        var c := GetNextChar();
        assert Ahead() == s[1..];
        if c == STAR && document[current] == SLASH {
          c := GetNextChar();
          assert Ahead() == s[2..];
          return c == SLASH;
        }
      }
      var last := GetNextChar();
      ok := last == SLASH;
    }

    method ReadCppStyleComment()
      requires Valid()
      modifies this`current
      ensures Valid() && Ahead() == ScanLineComment(old(Ahead()))
    {
      ghost var goal := ScanLineComment(Ahead());
      while current != |document|
        invariant Valid() && ScanLineComment(Ahead()) == goal
        decreases |document| - current
      {
        ghost var s := Ahead();
        var c := GetNextChar();
        assert Ahead() == s[1..];
        if c == LINE_FEED {
          return;
        }
        if c == CARRIAGE_RETURN {
          if current != |document| && document[current] == LINE_FEED {
            c := GetNextChar();
            assert Ahead() == s[2..];
          }
          return;
        }
      }
    }

    method ReadComment() returns (ok: bool)
      requires Valid()
      modifies this`current
      ensures Valid() && Scan(ok, Ahead()) == ScanComment(old(Ahead()))
    {
      ghost var s := Ahead();
      var c := GetNextChar();
      assert s != [] ==> Ahead() == s[1..];
      ok := false;
      if c == STAR {
        ok := ReadCStyleComment();
      } else if c == SLASH {
        ReadCppStyleComment();
        ok := true;
      }
    }

    /** `c` is the byte under the cursor, 0 at the end, and `p` the place after it. */
    ghost predicate Fetched(c: Byte, p: nat)
      requires Valid()
      reads this
    {
      if current < |document| then c == document[current] && p == current + 1 else c == 0 && p == current
    }

    method Fetch(from: nat) returns (c: Byte, p: nat)
      requires from <= |document|
      modifies this`current
      ensures Valid() && current == from && Fetched(c, p)
    {
      current := from;
      if from < |document| {
        c, p := document[from], from + 1;
      } else {
        c, p := 0, from;
      }
    }

    /** The loop that runs over digits, the first of which may already have been taken. */
    method ReadDigits(first: Byte, from: nat) returns (c: Byte, p: nat)
      requires Valid() && from <= |document|
      requires !IsDigit(first) ==> Fetched(first, from)
      modifies this`current
      ensures Valid() && Fetched(c, p) && p <= |document|
      ensures Ahead() == old(if IsDigit(first) then SkipDigits(document[from..]) else Ahead())
    {
      hide SkipDigits;
      c, p := first, from;
      ghost var goal := if IsDigit(first) then SkipDigits(document[from..]) else Ahead();
      while IsDigit(c)
        invariant Valid() && p <= |document|
        invariant if IsDigit(c) then SkipDigits(document[p..]) == goal else Fetched(c, p) && Ahead() == goal
        decreases |document| - p, if IsDigit(c) then 1 else 0
      {
        DigitsAt(document, p);
        c, p := Fetch(p);
      }
    }

    method ReadNumber()
      requires Valid()
      modifies this`current
      ensures Valid() && Ahead() == ScanNumber(old(Ahead()))
    {
      var c, p := ReadDigits(ZERO, current);
      assert Ahead() == SkipDigits(old(Ahead()));
      hide SkipDigits;
      c, p := ReadFraction(c, p);
      ReadExponent(c, p);
    }

    /** The part of `readNumber` that starts at a decimal point. */
    method ReadFraction(first: Byte, from: nat) returns (c: Byte, p: nat)
      requires Valid() && Fetched(first, from)
      modifies this`current
      ensures Valid() && Fetched(c, p)
      ensures Ahead() == ScanFraction(old(Ahead()))
    {
      hide SkipDigits;
      c, p := first, from;
      if c == DOT {
        assert Ahead()[1..] == document[p..];
        c, p := Fetch(p);
        DigitsAt(document, current);
        c, p := ReadDigits(c, p);
      }
    }

    /** The part of `readNumber` that starts at an `e`. */
    method ReadExponent(first: Byte, from: nat)
      requires Valid() && Fetched(first, from)
      modifies this`current
      ensures Valid() && Ahead() == ScanExponent(old(Ahead()))
    {
      hide SkipDigits;
      var c, p := first, from;
      if c == 0x65 || c == 0x45 {
        ghost var s := Ahead();
        assert s[1..] == document[p..];
        c, p := Fetch(p);
        if c == PLUS || c == MINUS {
          assert s[2..] == document[p..];
          c, p := Fetch(p);
        }
        DigitsAt(document, current);
        c, p := ReadDigits(c, p);
      }
    }

    /** The switch of `readToken`, after its first byte has been taken. */
    method ReadTokenRest(c: Byte) returns (kind: Kind)
      requires Valid()
      modifies this`current
      ensures Valid() && Lexed(kind, Ahead()) == ScanToken(c, old(Ahead()))
    {
      hide ScanString, ScanComment, ScanNumber, ScanWord;
      var ok := true;
      if c == QUOTE {
        kind := StringToken;
        ok := ReadString();
      } else if c == SLASH {
        kind := Comment;
        ok := ReadComment();
      } else if IsDigit(c) || c == MINUS {
        kind := NumberToken;
        ReadNumber();
      } else if c == TRUE_TEXT[0] {
        kind := TrueToken;
        ok := Match(TRUE_TEXT[1..]);
      } else if c == FALSE_TEXT[0] {
        kind := FalseToken;
        ok := Match(FALSE_TEXT[1..]);
      } else if c == NULL_TEXT[0] {
        kind := NullToken;
        ok := Match(NULL_TEXT[1..]);
      } else {
        kind := SingleKind(c);
      }
      if !ok {
        kind := ErrorToken;
      }
    }

    method ReadToken() returns (token: Token)
      requires Valid()
      modifies this`current
      ensures Valid() && Front(token, Ahead()) == NextToken(old(Ahead())) && WellShaped(token)
      ensures current >= old(current)
      ensures token.kind != EndOfStream ==> current > old(current)
    {
      NextTokenWellShaped(Ahead());
      token := ScanNextToken();
    }

    method ScanNextToken() returns (token: Token)
      requires Valid()
      modifies this`current
      ensures Valid() && Front(token, Ahead()) == NextToken(old(Ahead()))
      ensures current >= old(current)
      ensures token.kind != EndOfStream ==> current > old(current)
    {
      hide Lexer.SkipSpaces, ScanToken;
      SkipSpaces();
      var start := current;
      ghost var t := Ahead();
      var c := GetNextChar();
      assert t != [] ==> t[0] == c && Ahead() == t[1..];
      assert t == [] ==> ScanToken(0, Ahead()) == Lexed(EndOfStream, Ahead()) by {
        EndIsEnd();
      }
      var kind := ReadTokenRest(c);
      token := Token(kind, document[start..current]);
      assert document[start..current] == t[..|t| - |Ahead()|];
    }

    lemma EndIsEnd()
      ensures ScanToken(0, []) == Lexed(EndOfStream, [])
    {
    }

    /** Until a token that is no comment; `before` is the text in front of that token. */
    method SkipCommentTokens() returns (token: Token, ghost before: Text)
      requires Valid()
      modifies this`current
      ensures Valid() && Front(token, Ahead()) == NextToken(before) && current >= old(current)
      ensures WellShaped(token)
      ensures token.kind != EndOfStream ==> current > old(current)
      ensures |before| <= |document| && before == document[|document| - |before|..]
      ensures |document| - |before| >= old(current)
      ensures Lex(before) == if features.allowComments then DropComments(old(Lex(Ahead()))) else old(Lex(Ahead()))
    {
      hide Lex, NextToken, DropComments, WellShaped;
      before := Ahead();
      token := ReadToken();
      LexFront(before);
      DropComment(Lex(before));
      if features.allowComments {
        while token.kind == Comment
          invariant Valid() && Front(token, Ahead()) == NextToken(before) && WellShaped(token)
          invariant current >= old(current) && |document| - |before| >= old(current)
          invariant token.kind != EndOfStream ==> current > old(current)
          invariant |before| <= |document| && before == document[|document| - |before|..]
          invariant Head(Lex(before)) == token && Lex(Ahead()) == Tail(Lex(before))
          invariant DropComments(Lex(before)) == DropComments(old(Lex(Ahead())))
          decreases |document| - current, if token.kind == Comment then 1 else 0
        {
          DropComment(Lex(before));
          before := Ahead();
          token := ReadToken();
          LexFront(before);
        }
        DropComment(Lex(before));
      }
    }

    // -------------------------------------------------------------- errors

    /** Nothing but the cursor has moved, forward, and this is the token it passed. */
    twostate predicate Took(token: Token)
      reads this
    {
      Valid() && current >= old(current) && old(current) <= |document| && WellShaped(token)
      && token == Head(Lex(document[old(current)..])) && Lex(Ahead()) == Tail(Lex(document[old(current)..]))
      && (token.kind != EndOfStream ==> current > old(current))
    }

    /** `readToken` in terms of the token sequence. */
    method TakeToken() returns (token: Token)
      requires Valid()
      modifies this`current
      ensures Took(token)
    {
      hide Lex, NextToken;
      LexFront(Ahead());
      token := ReadToken();
    }

    /** The loop that reads on past comments; `ts` are the tokens from `first` on. */
    method PassComments(first: Token, ghost ts: seq<Token>) returns (token: Token)
      requires Valid() && first == Head(ts) && Lex(Ahead()) == Tail(ts) && WellShaped(first)
      modifies this`current
      ensures Valid() && current >= old(current)
      ensures token == Head(DropComments(ts)) && Lex(Ahead()) == Tail(DropComments(ts)) && WellShaped(token)
    {
      hide Lex;
      token := first;
      ghost var now := ts;
      while token.kind == Comment
        invariant Valid() && current >= old(current) && WellShaped(token)
        invariant token == Head(now) && Lex(Ahead()) == Tail(now) && DropComments(now) == DropComments(ts)
        decreases |document| - current, if token.kind == Comment then 1 else 0
      {
        now := Lex(Ahead());
        token := TakeToken();
      }
    }

    method AddError(message: Message, token: Token) returns (ok: bool)
      modifies this`errors
      ensures !ok && errors == old(errors) + [Error(message, token)]
    {
      errors := errors + [Error(message, token)];
      ok := false;
    }

    method RecoverFromError(skipUntilToken: Kind) returns (ok: bool)
      requires Valid()
      modifies this`current, this`errors
      ensures !ok && Valid() && current >= old(current) && errors == old(errors)
      ensures Lex(Ahead()) == Recover(old(Lex(Ahead())), skipUntilToken)
    {
      hide Lex;
      var errorCount := |errors|;
      while true
        invariant Valid() && current >= old(current) && errors == old(errors)
        invariant Recover(Lex(Ahead()), skipUntilToken) == Recover(old(Lex(Ahead())), skipUntilToken)
        decreases |document| - current
      {
        var skip := TakeToken();
        if skip.kind == skipUntilToken || skip.kind == EndOfStream {
          break;
        }
      }
      errors := errors[..errorCount];
      ok := false;
    }

    method AddErrorAndRecover(message: Message, token: Token, skipUntilToken: Kind) returns (ok: bool)
      requires Valid()
      modifies this`current, this`errors
      ensures !ok && Valid() && current >= old(current) && errors == old(errors) + [Error(message, token)]
      ensures Lex(Ahead()) == Recover(old(Lex(Ahead())), skipUntilToken)
    {
      var added := AddError(message, token);
      ok := RecoverFromError(skipUntilToken);
    }

    // -------------------------------------------------------------- decoding tokens

    method DecodeNumber(token: Token) returns (r: Conversion)
      requires token.text != []
      modifies this`errors
      ensures r == NumberValue(features, token.text)
      ensures errors == old(errors) + if r.Converted? then [] else [Error(NotANumber, token)]
    {
      var number := Numbers.DecodeNumber(token.text);
      match number {
        case Whole(v) =>
          r := Converted(v);
        case Double =>
          var reading := features.readDouble(token.text);
          match reading {
            case Double(bits) =>
              r := Converted(Real(bits));
            case NoDouble =>
              var added := AddError(NotANumber, token);
              r := NotConverted;
          }
      }
    }

    method DecodeString(token: Token) returns (r: Decoded)
      requires |token.text| >= 2
      modifies this`errors
      ensures r == DecodeBody(Inner(token.text))
      ensures errors == old(errors) + if r.Decoded? then [] else [Error(Escape(r.error), token)]
    {
      r := Unquoting.DecodeString(token.text);
      if r.BadString? {
        var added := AddError(Escape(r.error), token);
      }
    }

    // -------------------------------------------------------------- values

    /** What the parse of a value promises of this reader: the verdict, the top of the stack replaced
        and the rest of it as before, the errors added, the tokens left. */
    twostate predicate Did(r: Outcome, flow: Flow)
      reads this
    {
      Valid() && current >= old(current) &&
      match r
      case Thrown => flow == Raised
      case Done(ok, v, added, rest) =>
        && flow == Returned(ok)
        && old(|nodes|) > 0 && nodes == old(nodes)[..old(|nodes|) - 1] + [v]
        && errors == old(errors) + added
        && Lex(Ahead()) == rest
    }

    function CurrentValue(): Value
      requires nodes != []
      reads this
    {
      nodes[|nodes| - 1]
    }

    method SetCurrentValue(v: Value)
      requires nodes != []
      modifies this`nodes
      ensures nodes == old(nodes)[..|old(nodes)| - 1] + [v]
    {
      nodes := nodes[..|nodes| - 1] + [v];
    }

    method ReadValue() returns (flow: Flow)
      requires Valid() && nodes != []
      modifies this`current, this`nodes, this`errors
      ensures Did(ParseValue(features, old(Lex(Ahead())), old(CurrentValue()), |old(nodes)|), flow)
      decreases |document| - current, 0
    {
      hide Lex, NextToken, DecodeBody, NumberValue, ParseMembers, ParseArray, DropComments, Inner;
      if |nodes| > STACK_LIMIT {
        return Raised;
      }
      var token, before := SkipCommentTokens();
      LexFront(before);
      ghost var kept := nodes[..|nodes| - 1];
      assert kept + [CurrentValue()] == nodes;
      assert errors + [] == errors;
      if token.kind == ObjectBegin {
        flow := ReadObject();
      } else if token.kind == ArrayBegin {
        flow := ReadArray();
      } else if token.kind == NumberToken {
        flow := StoreNumber(token);
      } else if token.kind == StringToken {
        flow := StoreString(token);
      } else if token.kind == TrueToken {
        SetCurrentValue(Bool(true));
        flow := Returned(true);
      } else if token.kind == FalseToken {
        SetCurrentValue(Bool(false));
        flow := Returned(true);
      } else if token.kind == NullToken {
        SetCurrentValue(Null);
        flow := Returned(true);
      } else if (token.kind == ArraySeparator || token.kind == ObjectEnd || token.kind == ArrayEnd)
             && features.allowDroppedNullPlaceholders {
        StepBack(before);
        SetCurrentValue(Null);
        flow := Returned(true);
      } else {
        var added := AddError(ValueExpected, token);
        flow := Returned(added);
      }
    }

    method StoreNumber(token: Token) returns (flow: Flow)
      requires token.text != [] && nodes != []
      modifies this`nodes, this`errors
      ensures match NumberValue(features, token.text)
              case Converted(v) =>
                flow == Returned(true) && errors == old(errors) && nodes == old(nodes)[..|old(nodes)| - 1] + [v]
              case NotConverted =>
                flow == Returned(false) && errors == old(errors) + [Error(NotANumber, token)] && nodes == old(nodes)
    {
      hide NumberValue;
      var number := DecodeNumber(token);
      if number.Converted? {
        SetCurrentValue(number.value);
      }
      flow := Returned(number.Converted?);
    }

    method StoreString(token: Token) returns (flow: Flow)
      requires |token.text| >= 2 && nodes != []
      modifies this`nodes, this`errors
      ensures match DecodeBody(Inner(token.text))
              case Decoded(s, _) =>
                flow == Returned(true) && errors == old(errors) && nodes == old(nodes)[..|old(nodes)| - 1] + [Str(s)]
              case BadString(cause) =>
                flow == Returned(false) && errors == old(errors) + [Error(Escape(cause), token)] && nodes == old(nodes)
    {
      hide DecodeBody, Inner;
      var decoded := DecodeString(token);
      if decoded.Decoded? {
        SetCurrentValue(Str(decoded.text));
      }
      flow := Returned(decoded.Decoded?);
    }

    /** Un-reads the one-byte token that was read in front of `before`. */
    method StepBack(ghost before: Text)
      requires Valid() && |before| <= |document| && before == document[|document| - |before|..]
      requires NextToken(before).rest == Ahead()
      requires var k := NextToken(before).token.kind; k == ArraySeparator || k == ObjectEnd || k == ArrayEnd
      modifies this`current
      ensures Valid() && current >= |document| - |before| && Lex(Ahead()) == Lex(before)
    {
      hide Lex, NextToken;
      Unread(before);
      assert before[|before| - |Ahead()| - 1..] == document[current - 1..];
      current := current - 1;
    }

    /** A value pushed, read, and popped again. */
    method ReadChild(initial: Value) returns (flow: Flow, child: Value)
      requires Valid() && nodes != []
      modifies this`current, this`nodes, this`errors
      ensures Valid() && current >= old(current)
      ensures var r := ParseValue(features, old(Lex(Ahead())), initial, |old(nodes)| + 1);
              if r.Thrown? then flow == Raised
              else flow == Returned(r.ok) && child == r.value && nodes == old(nodes)
                   && errors == old(errors) + r.errors && Lex(Ahead()) == r.rest
      decreases |document| - current, 1
    {
      hide Lex, ParseValue;
      nodes := nodes + [initial];
      flow := ReadValue();
      if flow == Raised {
        return flow, Null;
      }
      child := CurrentValue();
      nodes := nodes[..|nodes| - 1];
    }

    method ReadArray() returns (flow: Flow)
      requires Valid() && nodes != []
      modifies this`current, this`nodes, this`errors
      ensures Did(ParseArray(features, old(Lex(Ahead())), |old(nodes)|), flow)
      decreases |document| - current, 3
    {
      hide Lex, ParseElements;
      SetCurrentValue(Arr([]));
      PeekArrayEnd(Ahead());
      LexAfterSpaces(Ahead());
      SkipSpaces();
      assert errors + [] == errors;
      if current != |document| && document[current] == CLOSE_BRACKET {
        var endArray := TakeToken();
        return Returned(true);
      }
      ghost var kept := nodes[..|nodes| - 1];
      ghost var goal := ParseElements(features, Lex(Ahead()), [], |nodes|);
      var elems: seq<Value> := [];
      var more := true;
      flow := Returned(true);
      while more
        invariant Valid() && current >= old(current)
        invariant if more then
                    nodes == kept + [Arr(elems)] && errors == old(errors)
                    && ParseElements(features, Lex(Ahead()), elems, |nodes|) == goal
                  else Did(goal, flow)
        decreases |document| - current, if more then 1 else 0
      {
        flow, more, elems := ReadElement(elems);
      }
    }

    /** One round of the array loop: a value and the token after it. */
    method ReadElement(elems: seq<Value>) returns (flow: Flow, more: bool, longer: seq<Value>)
      requires Valid() && nodes != [] && CurrentValue() == Arr(elems)
      modifies this`current, this`nodes, this`errors
      ensures var goal := ParseElements(features, old(Lex(Ahead())), elems, |old(nodes)|);
              if more then
                Valid() && current > old(current) && errors == old(errors)
                && nodes == old(nodes)[..|old(nodes)| - 1] + [Arr(longer)]
                && ParseElements(features, Lex(Ahead()), longer, |nodes|) == goal
              else Did(goal, flow)
      decreases |document| - current, 2
    {
      hide Lex, ParseValue, Recover, DropComments;
      more := false;
      longer := elems + [Null];
      SetCurrentValue(Arr(longer));
      ValueCountsErrors(features, Lex(Ahead()), Null, |nodes| + 1);
      var read, child := ReadChild(Null);
      if read == Raised {
        return Raised, false, longer;
      }
      longer := elems + [child];
      SetCurrentValue(Arr(longer));
      if !read.ok {
        var recovered := RecoverFromError(ArrayEnd);
        return Returned(recovered), false, longer;
      }
      assert errors + [] == errors;
      ghost var ts := Lex(Ahead());
      var currentToken := TakeToken();
      currentToken := PassComments(currentToken, ts);
      var badTokenType := currentToken.kind != ArraySeparator && currentToken.kind != ArrayEnd;
      if badTokenType {
        var recovered := AddErrorAndRecover(MissingCommaOrBracket, currentToken, ArrayEnd);
        return Returned(recovered), false, longer;
      }
      flow := Returned(true);
      more := currentToken.kind != ArrayEnd;
    }

    method ReadObject() returns (flow: Flow)
      requires Valid() && nodes != []
      modifies this`current, this`nodes, this`errors
      ensures Did(ParseMembers(features, old(Lex(Ahead())), [], [], |old(nodes)|), flow)
      decreases |document| - current, 3
    {
      hide Lex, ParseMembers;
      SetCurrentValue(Obj([]));
      ghost var kept := nodes[..|nodes| - 1];
      ghost var goal := ParseMembers(features, Lex(Ahead()), [], [], |nodes|);
      var ms: seq<Member>, name: Text := [], [];
      var more := true;
      flow := Returned(true);
      while more
        invariant Valid() && current >= old(current)
        invariant if more then
                    nodes == kept + [Obj(ms)] && errors == old(errors)
                    && ParseMembers(features, Lex(Ahead()), ms, name, |nodes|) == goal
                  else Did(goal, flow)
        decreases |document| - current, if more then 1 else 0
      {
        flow, more, ms, name := ReadMember(ms, name);
      }
    }

    /** The first half of a round of the object loop: a name, or the end of the object. */
    method ReadMember(ms: seq<Member>, lastName: Text)
      returns (flow: Flow, more: bool, longer: seq<Member>, name: Text)
      requires Valid() && nodes != [] && CurrentValue() == Obj(ms)
      modifies this`current, this`nodes, this`errors
      ensures var goal := ParseMembers(features, old(Lex(Ahead())), ms, lastName, |old(nodes)|);
              if more then
                Valid() && current > old(current) && errors == old(errors)
                && nodes == old(nodes)[..|old(nodes)| - 1] + [Obj(longer)]
                && ParseMembers(features, Lex(Ahead()), longer, name, |nodes|) == goal
              else Did(goal, flow)
      decreases |document| - current, 2
    {
      hide Lex, ParseMember, NumberValue, DecodeBody;
      more, longer, name := false, ms, lastName;
      assert nodes == nodes[..|nodes| - 1] + [Obj(ms)];
      ghost var ts := Lex(Ahead());
      var tokenName := TakeToken();
      tokenName := PassComments(tokenName, ts);
      assert errors + [] == errors;
      if tokenName.kind == ObjectEnd && name == [] {
        return Returned(true), false, ms, name;
      }
      name := [];
      if tokenName.kind == StringToken {
        var decoded := DecodeString(tokenName);
        if decoded.BadString? {
          var recovered := RecoverFromError(ObjectEnd);
          return Returned(recovered), false, ms, name;
        }
        name := decoded.text;
      } else if tokenName.kind == NumberToken && features.allowNumericKeys {
        var number := DecodeNumber(tokenName);
        if number.NotConverted? {
          var recovered := RecoverFromError(ObjectEnd);
          return Returned(recovered), false, ms, name;
        }
        return Raised, false, ms, name;
      } else {
        var recovered := AddErrorAndRecover(MissingBraceOrName, tokenName, ObjectEnd);
        return Returned(recovered), false, ms, name;
      }
      flow, more, longer := ReadMemberValue(ms, name);
    }

    /** The second half: the colon, the value, and the token after it. */
    method ReadMemberValue(ms: seq<Member>, name: Text) returns (flow: Flow, more: bool, longer: seq<Member>)
      requires Valid() && nodes != [] && CurrentValue() == Obj(ms)
      modifies this`current, this`nodes, this`errors
      ensures var goal := ParseMember(features, old(Lex(Ahead())), ms, name, |old(nodes)|);
              if more then
                Valid() && current >= old(current) && errors == old(errors)
                && nodes == old(nodes)[..|old(nodes)| - 1] + [Obj(longer)]
                && ParseMembers(features, Lex(Ahead()), longer, name, |nodes|) == goal
              else Did(goal, flow)
      decreases |document| - current, 2
    {
      hide Lex, ParseValue, ParseMembers, Recover, DropComments, Lookup, SetMember;
      more, longer := false, ms;
      assert nodes == nodes[..|nodes| - 1] + [Obj(ms)];
      var colon := TakeToken();
      if colon.kind != MemberSeparator {
        var recovered := AddErrorAndRecover(MissingColon, colon, ObjectEnd);
        return Returned(recovered), false, ms;
      }
      var value := Lookup(ms, name);
      SetCurrentValue(Obj(SetMember(ms, name, value)));
      ValueCountsErrors(features, Lex(Ahead()), value, |nodes| + 1);
      var read, child := ReadChild(value);
      if read == Raised {
        return Raised, false, ms;
      }
      longer := SetMember(ms, name, child);
      SetCurrentValue(Obj(longer));
      if !read.ok {
        var recovered := RecoverFromError(ObjectEnd);
        return Returned(recovered), false, longer;
      }
      assert errors + [] == errors;
      ghost var ts := Lex(Ahead());
      var comma := TakeToken();
      if comma.kind != ObjectEnd && comma.kind != ArraySeparator && comma.kind != Comment {
        var recovered := AddErrorAndRecover(MissingCommaOrBrace, comma, ObjectEnd);
        return Returned(recovered), false, longer;
      }
      comma := PassComments(comma, ts);
      flow := Returned(true);
      more := comma.kind != ObjectEnd;
    }

    /** One token after the root is read, and ignored. */
    method PassTrailing()
      requires Valid()
      modifies this`current
      ensures Valid()
    {
      hide Lex, NextToken, DropComments;
      var token, before := SkipCommentTokens();
    }

    /** A whole document. `root` is what the caller's value held before. */
    method Parse(document: Text, root: Value) returns (flow: Flow, parsed: Value)
      modifies this
      ensures Valid() && this.document == document
      ensures match ParseDocument(features, document, root)
              case Threw => flow == Raised
              case Parsed(ok, v, found) => flow == Returned(ok) && parsed == v && errors == found
    {
      hide Lex, ParseValue, NextToken, DropComments;
      this.document := document;
      current := 0;
      errors := [];
      nodes := [];
      nodes := nodes + [root];
      assert Ahead() == document;
      flow := ReadValue();
      if flow == Raised {
        return Raised, root;
      }
      parsed := CurrentValue();
      PassTrailing();
      if features.strictRoot {
        if !parsed.Arr? && !parsed.Obj? {
          var added := AddError(NotArrayOrObject, Token(ErrorToken, document));
          return Returned(false), parsed;
        }
      }
    }
  }
}
