/** Which values survive the round trip unchanged, and why every parsed value is nearly one of them. */
module Canonical {
  import opened Bytes
  import opened JsonValue
  import opened Numbers
  import opened Utf8
  import opened Unquoting
  import opened Lexer
  import opened Parser
  import opened Rendering
  import opened RoundTrip

  // ---------------------------------------------------------------- the two conditions

  /** Integers are in their stored form and the names of every object ascend. */
  predicate Normal(v: Value)
    decreases v, 0
  {
    match v
    case Int(i) => i <= MAX_INT
    case UInt(u) => u > MAX_INT
    case Arr(es) => NormalElems(es)
    case Obj(ms) => Sorted(ms) && NormalMembers(ms)
    case _ => true
  }

  predicate NormalElems(es: seq<Value>)
    decreases es, 1
  {
    es == [] || (Normal(es[0]) && NormalElems(es[1..]))
  }

  predicate NormalMembers(ms: seq<Member>)
    decreases ms, 1
  {
    ms == [] || (Normal(ms[0].value) && NormalMembers(ms[1..]))
  }

  /** All strings and names are UTF-8. */
  predicate Clean(v: Value)
    decreases v, 0
  {
    match v
    case Str(s) => WellFormed(s)
    case Arr(es) => CleanElems(es)
    case Obj(ms) => CleanMembers(ms)
    case _ => true
  }

  predicate CleanElems(es: seq<Value>)
    decreases es, 1
  {
    es == [] || (Clean(es[0]) && CleanElems(es[1..]))
  }

  predicate CleanMembers(ms: seq<Member>)
    decreases ms, 1
  {
    ms == [] || (WellFormed(ms[0].name) && Clean(ms[0].value) && CleanMembers(ms[1..]))
  }

  /** The doubles that come back as themselves through the two conversions. */
  ghost function Returning(f: Features, p: Printer): iset<int> {
    iset bits: int | EchoReal(f, p, bits) == Real(bits)
  }

  /** Every double inside comes back as itself. */
  ghost predicate Returns(f: Features, p: Printer, v: Value) {
    RealsIn(v, Returning(f, p))
  }

  ghost predicate ReturnsElems(f: Features, p: Printer, es: seq<Value>) {
    ElemsRealsIn(es, Returning(f, p))
  }

  ghost predicate ReturnsMembers(f: Features, p: Printer, ms: seq<Member>) {
    MembersRealsIn(ms, Returning(f, p))
  }

  // ---------------------------------------------------------------- repairing twice

  lemma {:induction false} RepairIsInRange(s: Text)
    ensures InUnicodeRange(Repair(s))
  {
    hide DecodeUnit, UnitText, InUnicodeRange;
    if s == [] {
      NothingInRange();
    } else {
      RepairIsInRange(s[DecodeUnit(s).used..]);
      UnitInRange(DecodeUnit(s).cp, Repair(s[DecodeUnit(s).used..]));
    }
  }

  lemma NothingInRange()
    ensures InUnicodeRange([])
  {
  }

  lemma UnitInRange(cp: nat, k: Text)
    requires cp <= 0x1F_FFFF && !(0xD800 <= cp <= 0xDFFF) && InUnicodeRange(k)
    ensures InUnicodeRange(UnitText(cp) + k)
  {
    hide InUnicodeRange, CodePointToUTF8;
    if cp <= 0x10FFFF {
      ScalarInRange(cp, k);
    } else {
      var high, low := (cp - 0x1_0000) / 0x400 + 0xD800, (cp - 0x1_0000) % 0x400 + 0xDC00;
      LoneSurrogateInRange(low, k);
      LoneSurrogateInRange(high, CodePointToUTF8(low) + k);
      Assoc(CodePointToUTF8(high), CodePointToUTF8(low), k);
    }
  }

  lemma ScalarInRange(cp: nat, k: Text)
    requires cp <= 0x10FFFF && !(0xD800 <= cp <= 0xDFFF) && InUnicodeRange(k)
    ensures InUnicodeRange(CodePointToUTF8(cp) + k)
  {
    var e := CodePointToUTF8(cp);
    EncodeDecode(cp, k);
    hide DecodeUnit, CodePointToUTF8;
    assert (e + k)[|e|..] == k;
  }

  /** The three bytes of a lone surrogate are read as the replacement character. */
  lemma LoneSurrogateInRange(cp: nat, k: Text)
    requires 0xD800 <= cp <= 0xDFFF && InUnicodeRange(k)
    ensures InUnicodeRange(CodePointToUTF8(cp) + k)
  {
    var e := CodePointToUTF8(cp);
    SurrogateLead(cp);
    assert (e + k)[3..] == k && (e + k)[0] == 0xED;
  }

  lemma TwiceRepairedIsWellFormed(s: Text)
    ensures WellFormed(Repair(Repair(s)))
  {
    RepairIsInRange(s);
    RepairIsWellFormed(Repair(s));
  }

  // ---------------------------------------------------------------- values that echo as themselves

  function EchoMembers(f: Features, p: Printer, ms: seq<Member>): (r: seq<Member>)
    ensures |r| == |ms|
    decreases ms, 1
  {
    if ms == [] then [] else [Member(ms[0].name, Echo(f, p, ms[0].value))] + EchoMembers(f, p, ms[1..])
  }

  predicate CleanNames(ms: seq<Member>) {
    forall m :: m in ms ==> WellFormed(m.name)
  }

  /** With ascending UTF-8 names the echoed members stay where they are. */
  lemma {:induction false} EchoIntoAppends(f: Features, p: Printer, acc: seq<Member>, ms: seq<Member>)
    requires CleanNames(ms) && Sorted(acc + ms)
    ensures EchoInto(f, p, acc, ms) == acc + EchoMembers(f, p, ms)
    decreases ms
  {
    hide Echo, Repair, WellFormed;
    if ms == [] {
      assert acc + EchoMembers(f, p, ms) == acc;
    } else {
      var m := Member(ms[0].name, Echo(f, p, ms[0].value));
      RepairFixesExactlyWellFormed(ms[0].name);
      assert (acc + ms)[|acc|] == ms[0];
      forall i | 0 <= i < |acc|
        ensures TextLess(acc[i].name, m.name)
      {
        assert (acc + ms)[i] == acc[i];
      }
      SetMemberAtEnd(acc, m.name, m.value);
      forall i, j | 0 <= i < j < |acc + [m] + ms[1..]|
        ensures TextLess((acc + [m] + ms[1..])[i].name, (acc + [m] + ms[1..])[j].name)
      {
        assert (acc + [m] + ms[1..])[i].name == (acc + ms)[i].name;
        assert (acc + [m] + ms[1..])[j].name == (acc + ms)[j].name;
      }
      EchoIntoAppends(f, p, acc + [m], ms[1..]);
      assert acc + [m] + EchoMembers(f, p, ms[1..]) == acc + EchoMembers(f, p, ms);
    }
  }

  lemma {:induction false} EchoIntoSorted(f: Features, p: Printer, acc: seq<Member>, ms: seq<Member>)
    requires Sorted(acc)
    ensures Sorted(EchoInto(f, p, acc, ms))
    decreases ms
  {
    if ms != [] {
      SetMemberSorted(acc, Repair(ms[0].name), Echo(f, p, ms[0].value));
      EchoIntoSorted(f, p, SetMember(acc, Repair(ms[0].name), Echo(f, p, ms[0].value)), ms[1..]);
    }
  }

  predicate RepairedName(name: Text, ms: seq<Member>) {
    exists x :: x in ms && name == Repair(x.name)
  }

  lemma {:induction false} EchoIntoNames(f: Features, p: Printer, acc: seq<Member>, ms: seq<Member>, all: seq<Member>)
    requires (forall m :: m in acc ==> RepairedName(m.name, all)) && forall m :: m in ms ==> m in all
    ensures forall m :: m in EchoInto(f, p, acc, ms) ==> RepairedName(m.name, all)
    decreases ms
  {
    hide Echo, Repair;
    if ms != [] {
      var name, v := Repair(ms[0].name), Echo(f, p, ms[0].value);
      SetMemberNames(acc, name, v);
      assert ms[0] in all;
      EchoIntoNames(f, p, SetMember(acc, name, v), ms[1..], all);
    }
  }

  /** Exactly the normal values with UTF-8 strings and names, whose doubles come back, come back
      unchanged. */
  lemma {:induction false} EchoFixesExactly(f: Features, p: Printer, v: Value)
    ensures Echo(f, p, v) == v <==> Normal(v) && Clean(v) && Returns(f, p, v)
    decreases v, 0
  {
    match v {
      case Str(s) => RepairFixesExactlyWellFormed(s);
      case Arr(es) => EchoFixesElems(f, p, es);
      case Obj(ms) => EchoFixesObject(f, p, ms);
      case _ =>
    }
  }

  lemma {:induction false} EchoFixesElems(f: Features, p: Printer, es: seq<Value>)
    ensures EchoElems(f, p, es) == es <==> NormalElems(es) && CleanElems(es) && ReturnsElems(f, p, es)
    decreases es, 1
  {
    if es != [] {
      EchoFixesExactly(f, p, es[0]);
      EchoFixesElems(f, p, es[1..]);
      assert es == [es[0]] + es[1..];
      assert EchoElems(f, p, es)[1..] == EchoElems(f, p, es[1..]);
    }
  }

  lemma {:induction false} EchoFixesObject(f: Features, p: Printer, ms: seq<Member>)
    ensures EchoInto(f, p, [], ms) == ms 
       <==> Sorted(ms) && NormalMembers(ms) && CleanMembers(ms) && ReturnsMembers(f, p, ms)
    decreases ms, 2
  {
    hide Echo, Repair, WellFormed, EchoInto;
    if Sorted(ms) && CleanMembers(ms) {
      CleanMembersNames(ms);
    }
    if EchoInto(f, p, [], ms) == ms {
      EchoNamesAreClean(f, p, ms);
    }
    if Sorted(ms) && CleanNames(ms) {
      assert [] + ms == ms;
      EchoIntoAppends(f, p, [], ms);
      assert [] + EchoMembers(f, p, ms) == EchoMembers(f, p, ms);
      EchoFixesMembers(f, p, ms);
    }
  }

  /** Members that echo as themselves are sorted, and each name is a twice repaired one. */
  lemma EchoNamesAreClean(f: Features, p: Printer, ms: seq<Member>)
    requires EchoInto(f, p, [], ms) == ms
    ensures Sorted(ms) && CleanNames(ms)
  {
    hide Echo, Repair, WellFormed, EchoInto;
    EchoIntoSorted(f, p, [], ms);
    EchoIntoNames(f, p, [], ms, ms);
    forall m | m in ms
      ensures WellFormed(m.name)
    {
      RepairedNameIsClean(m.name, ms);
    }
  }

  lemma RepairedNameIsClean(name: Text, ms: seq<Member>)
    requires RepairedName(name, ms) && forall m :: m in ms ==> RepairedName(m.name, ms)
    ensures WellFormed(name)
  {
    hide Repair, WellFormed;
    var x :| x in ms && name == Repair(x.name);
    assert RepairedName(x.name, ms);
    var y :| y in ms && x.name == Repair(y.name);
    TwiceRepairedIsWellFormed(y.name);
  }

  lemma {:induction false} CleanMembersNames(ms: seq<Member>)
    requires CleanMembers(ms)
    ensures CleanNames(ms)
  {
    if ms != [] {
      CleanMembersNames(ms[1..]);
      assert ms == [ms[0]] + ms[1..];
    }
  }

  lemma {:induction false} EchoFixesMembers(f: Features, p: Printer, ms: seq<Member>)
    requires CleanNames(ms)
    ensures EchoMembers(f, p, ms) == ms <==> NormalMembers(ms) && CleanMembers(ms) && ReturnsMembers(f, p, ms)
    decreases ms, 1
  {
    if ms != [] {
      assert ms[0] in ms;
      EchoFixesExactly(f, p, ms[0].value);
      EchoFixesMembers(f, p, ms[1..]);
      assert ms == [ms[0]] + ms[1..];
      assert EchoMembers(f, p, ms)[1..] == EchoMembers(f, p, ms[1..]);
    }
  }

  /** Doubles that come back can be converted. */
  lemma ReturnsConverts(f: Features, p: Printer, v: Value)
    requires Returns(f, p, v)
    ensures Converts(f, p, v)
  {
    RealsInMore(v, Returning(f, p), Convertibles(f, p));
  }

  /** The round trip returns the very value written exactly for the normal values with UTF-8 strings and
      at most 1000 levels, whose doubles come back; a strict root also wants a container. */
  lemma RoundTripIsExact(f: Features, fmt: Format, v: Value, root: Value)
    requires Spelled(fmt.realText, v) && Readable(fmt)
    ensures ParseDocument(f, Compact(fmt, v), root) == Parsed(true, v, [])
            <==> Normal(v) && Clean(v) && Returns(f, fmt.realText, v) && Height(v) <= STACK_LIMIT
                 && (f.strictRoot ==> v.IsContainer())
  {
    hide Normal, Clean, Returns, Echo, Converts, Spelled, Readable, Compact, ParseDocument;
    var p := fmt.realText;
    WriteThenParse(f, fmt, v, root);
    EchoFixesExactly(f, p, v);
    if Returns(f, p, v) {
      ReturnsConverts(f, p, v);
    }
  }

  // ---------------------------------------------------------------- every parsed value is normal

  /** Normal and of no more than `levels` levels. */
  predicate Shaped(v: Value, levels: int) {
    Normal(v) && Height(v) <= levels
  }

  predicate ShapedMembers(ms: seq<Member>, levels: int) {
    Sorted(ms) && NormalMembers(ms) && MembersHeight(ms) <= levels
  }

  lemma {:induction false} AppendShaped(es: seq<Value>, v: Value, levels: int)
    requires NormalElems(es) && ElemsHeight(es) <= levels && Shaped(v, levels)
    ensures NormalElems(es + [v]) && ElemsHeight(es + [v]) <= levels
  {
    if es == [] {
      assert [v][1..] == [];
    } else {
      AppendShaped(es[1..], v, levels);
      assert (es + [v])[1..] == es[1..] + [v];
    }
  }

  lemma {:induction false} SetMemberShaped(ms: seq<Member>, name: Text, v: Value, levels: int)
    requires NormalMembers(ms) && MembersHeight(ms) <= levels && Shaped(v, levels)
    ensures NormalMembers(SetMember(ms, name, v)) && MembersHeight(SetMember(ms, name, v)) <= levels
  {
    var r := SetMember(ms, name, v);
    if ms == [] {
    } else if ms[0].name == name {
      assert r[1..] == ms[1..];
    } else if TextLess(name, ms[0].name) {
      assert r[1..] == ms;
    } else {
      SetMemberShaped(ms[1..], name, v, levels);
      assert r[1..] == SetMember(ms[1..], name, v);
    }
  }

  lemma {:induction false} LookupShaped(ms: seq<Member>, name: Text, levels: int)
    requires NormalMembers(ms) && MembersHeight(ms) <= levels && levels >= 1
    ensures Shaped(Lookup(ms, name), levels)
  {
    if ms != [] && ms[0].name != name {
      LookupShaped(ms[1..], name, levels);
    }
  }

  lemma NumberIsShaped(f: Features, text: Text)
    requires text != [] && NumberValue(f, text).Converted?
    ensures Shaped(NumberValue(f, text).value, 1)
  {
  }

  lemma ThrowsAtLimit(f: Features, ts: seq<Token>, cur: Value, depth: nat)
    ensures depth > STACK_LIMIT ==> ParseValue(f, ts, cur, depth) == Thrown
  {
  }

  /** What a parsed value may be: normal, and no taller than the room the nesting guard leaves. A parse
      that fails may also leave the value as it was. */
  lemma {:induction false} ValueIsShaped(f: Features, ts: seq<Token>, cur: Value, depth: nat)
    requires depth <= STACK_LIMIT
    ensures var r := ParseValue(f, ts, cur, depth);
            r.Done? ==> Shaped(r.value, STACK_LIMIT + 1 - depth) || (!r.ok && r.value == cur)
    decreases |ts|, 0
  {
    hide DecodeBody, NumberValue, DropComments, Inner;
    var ts1 := if f.allowComments then DropComments(ts) else ts;
    var token := Head(ts1);
    if token.kind == ObjectBegin {
      MembersAreShaped(f, Tail(ts1), [], [], depth);
    } else if token.kind == ArrayBegin {
      if Head(Tail(ts1)).kind != ArrayEnd {
        ElementsAreShaped(f, Tail(ts1), [], depth);
      }
    } else if token.kind == NumberToken && token.text != [] && NumberValue(f, token.text).Converted? {
      NumberIsShaped(f, token.text);
    }
  }

  lemma {:induction false} ElementsAreShaped(f: Features, ts: seq<Token>, elems: seq<Value>, depth: nat)
    requires depth <= STACK_LIMIT && NormalElems(elems) && ElemsHeight(elems) <= STACK_LIMIT - depth
    ensures var r := ParseElements(f, ts, elems, depth); r.Done? ==> Shaped(r.value, STACK_LIMIT + 1 - depth)
    decreases |ts|, 1
  {
    hide ParseValue, Recover, DropComments;
    var r := ParseValue(f, ts, Null, depth + 1);
    ThrowsAtLimit(f, ts, Null, depth + 1);
    if depth < STACK_LIMIT && r.Done? {
      ValueIsShaped(f, ts, Null, depth + 1);
      AppendShaped(elems, r.value, STACK_LIMIT - depth);
      if r.ok && Head(DropComments(r.rest)).kind == ArraySeparator {
        ElementsAreShaped(f, Tail(DropComments(r.rest)), elems + [r.value], depth);
      }
    }
  }

  lemma {:induction false} MembersAreShaped(
    f: Features, ts: seq<Token>, ms: seq<Member>, lastName: Text, depth: nat)
    requires depth <= STACK_LIMIT && ShapedMembers(ms, STACK_LIMIT - depth)
    ensures var r := ParseMembers(f, ts, ms, lastName, depth); r.Done? ==> Shaped(r.value, STACK_LIMIT + 1 - depth)
    decreases |ts|, 1
  {
    var ts1 := DropComments(ts);
    if Head(ts1).kind == StringToken && DecodeBody(Inner(Head(ts1).text)).Decoded? {
      MemberIsShaped(f, Tail(ts1), ms, DecodeBody(Inner(Head(ts1).text)).text, depth);
    }
  }

  lemma {:induction false} MemberIsShaped(
    f: Features, ts: seq<Token>, ms: seq<Member>, name: Text, depth: nat)
    requires depth <= STACK_LIMIT && ShapedMembers(ms, STACK_LIMIT - depth)
    ensures var r := ParseMember(f, ts, ms, name, depth); r.Done? ==> Shaped(r.value, STACK_LIMIT + 1 - depth)
    decreases |ts|, 2
  {
    hide ParseValue, ParseMembers, Lookup, SetMember, Sorted, Recover, DropComments;
    if Head(ts).kind == MemberSeparator {
      var cur := Lookup(ms, name);
      var r := ParseValue(f, Tail(ts), cur, depth + 1);
      ThrowsAtLimit(f, Tail(ts), cur, depth + 1);
      if depth < STACK_LIMIT && r.Done? {
        LookupShaped(ms, name, STACK_LIMIT - depth);
        ValueIsShaped(f, Tail(ts), cur, depth + 1);
        SetMemberShaped(ms, name, r.value, STACK_LIMIT - depth);
        SetMemberSorted(ms, name, r.value);
        if r.ok && r.rest != [] {
          MembersAreShaped(f, Tail(DropComments(r.rest)), SetMember(ms, name, r.value), name, depth);
        }
      }
    }
  }

  /** Whatever the document and whatever the root held before: a successful parse leaves a normal root of at
      most 1000 levels, and so does one that fails half-way, unless it leaves the root as it was. */
  lemma ParsedIsShaped(f: Features, document: Text, root: Value)
    ensures var r := ParseDocument(f, document, root);
            r.Parsed? ==> Shaped(r.root, STACK_LIMIT) || (!r.ok && r.root == root)
  {
    hide Shaped;
    ValueIsShaped(f, Lex(document), root, 1);
  }

  /** A parsed document is a fixed point of writing and reading exactly when its strings are UTF-8 and its
      doubles come back: writing the value and reading it again gives the same result, whatever the root
      held before. */
  lemma ParseWriteParse(f: Features, fmt: Format, document: Text, root: Value, again: Value)
    requires Readable(fmt)
    ensures var r := ParseDocument(f, document, root);
            r.Parsed? && r.ok && Spelled(fmt.realText, r.root) ==>
              (ParseDocument(f, Compact(fmt, r.root), again) == r
               <==> Clean(r.root) && Returns(f, fmt.realText, r.root))
  {
    hide Normal, Clean, Returns, Readable, Spelled, Compact, ParseValue;
    var r := ParseDocument(f, document, root);
    if r.Parsed? && r.ok && Spelled(fmt.realText, r.root) {
      ParsedIsShaped(f, document, root);
      ParseReportsItsErrors(f, document, root);
      RoundTripIsExact(f, fmt, r.root, again);
    }
  }

  /** The document of a quoted byte that is no UTF-8 parses, but not to a fixed point. */
  lemma RawByteIsNoFixedPoint(f: Features, root: Value)
    requires !f.strictRoot
    ensures ParseDocument(f, [QUOTE, 0xFF, QUOTE], root) == Parsed(true, Str([0xFF]), []) && !Clean(Str([0xFF]))
  {
    hide ScanString, ScanComment, ScanNumber, NextToken;
    var body: Text, d: Text := [0xFF], [QUOTE, 0xFF, QUOTE];
    assert body[1..] == [] && d == [QUOTE] + body + [QUOTE] && d + [] == d;
    LiteralSpells(body);
    assert Lex(d) == [Token(StringToken, d)] + Lex([]);
    assert Inner(d) == body;
    assert DecodeBody(body) == Prepend([0xFF], DecodeBody([])) == Decoded(body, AtEnd);
    assert Lex([]) == [];
    assert DropComments(Lex(d)) == Lex(d);
    assert !WellFormed(body);
  }
}
