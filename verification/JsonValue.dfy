/** JSON values as the library stores them. */
module JsonValue {
  import opened Bytes

  const MIN_INT64 := -0x8000_0000_0000_0000
  const MAX_INT64 := 0x7FFF_FFFF_FFFF_FFFF
  const MAX_UINT64 := 0xFFFF_FFFF_FFFF_FFFF
  const MAX_INT := 0x7FFF_FFFF

  type Int64 = x: int | MIN_INT64 <= x <= MAX_INT64
  type UInt64 = x: int | 0 <= x <= MAX_UINT64

  /** A double is opaque here: `bits` only names it. Arrays are dense; an object is the in-order
      sequence of the map's entries. */
  datatype Value =
    | Null
    | Int(i: Int64)
    | UInt(u: UInt64)
    | Real(bits: int)
    | Str(s: Text)
    | Bool(b: bool)
    | Arr(elems: seq<Value>)
    | Obj(members: seq<Member>)
  {
    predicate IsContainer() {
      Arr? || Obj?
    }

    /** Scalars and empty containers: what goes out as one piece of text. */
    predicate IsLeaf() {
      (Arr? ==> elems == []) && (Obj? ==> members == [])
    }
  }

  datatype Member = Member(name: Text, value: Value)

  // ---------------------------------------------------------------- the map behind an object

  predicate Sorted(ms: seq<Member>) {
    forall i, j :: 0 <= i < j < |ms| ==> TextLess(ms[i].name, ms[j].name)
  }

  /** The value under a name, null when there is none. */
  function Lookup(ms: seq<Member>, name: Text): Value {
    if ms == [] then Null else if ms[0].name == name then ms[0].value else Lookup(ms[1..], name)
  }

  /** Write a member: over the one with that name, or inserted where the order puts it. */
  function SetMember(ms: seq<Member>, name: Text, v: Value): seq<Member> {
    if ms == [] then [Member(name, v)]
    else if ms[0].name == name then [Member(name, v)] + ms[1..]
    else if TextLess(name, ms[0].name) then [Member(name, v)] + ms
    else [ms[0]] + SetMember(ms[1..], name, v)
  }

  lemma {:induction false} SetMemberNames(ms: seq<Member>, name: Text, v: Value)
    ensures forall m :: m in SetMember(ms, name, v) ==> m.name == name || m in ms
  {
    if ms != [] && ms[0].name != name && !TextLess(name, ms[0].name) {
      SetMemberNames(ms[1..], name, v);
    }
  }

  /** Writing a member keeps the names strictly ascending. */
  lemma {:induction false} SetMemberSorted(ms: seq<Member>, name: Text, v: Value)
    requires Sorted(ms)
    ensures Sorted(SetMember(ms, name, v))
  {
    var r := SetMember(ms, name, v);
    if ms == [] {
    } else if ms[0].name == name {
      assert forall j :: 0 < j < |r| ==> r[j] == ms[j];
    } else if TextLess(name, ms[0].name) {
      forall j | 0 < j < |r|
        ensures TextLess(r[0].name, r[j].name)
      {
        if j > 1 {
          TextLessTransitive(name, ms[0].name, ms[j - 1].name);
        }
      }
      assert forall j :: 0 < j < |r| ==> r[j] == ms[j - 1];
    } else {
      SetMemberSorted(ms[1..], name, v);
      SetMemberNames(ms[1..], name, v);
      TextLessTotal(ms[0].name, name);
      forall j | 0 < j < |r|
        ensures TextLess(r[0].name, r[j].name)
      {
        assert r[j] == SetMember(ms[1..], name, v)[j - 1];
        assert r[j] in SetMember(ms[1..], name, v);
        if r[j].name != name {
          var i :| 0 <= i < |ms[1..]| && ms[1..][i] == r[j];
        }
      }
      assert forall j :: 0 < j < |r| ==> r[j] == SetMember(ms[1..], name, v)[j - 1];
    }
  }

  /** The member just written is the one read back, and no other name is disturbed. */
  lemma {:induction false} LookupAfterSet(ms: seq<Member>, name: Text, v: Value, other: Text)
    requires Sorted(ms)
    ensures Lookup(SetMember(ms, name, v), other) == if other == name then v else Lookup(ms, other)
  {
    if ms != [] {
      LookupAfterSet(ms[1..], name, v, other);
      if ms[0].name != name && !TextLess(name, ms[0].name) {
        assert SetMember(ms, name, v)[1..] == SetMember(ms[1..], name, v);
      } else if ms[0].name == name {
        assert SetMember(ms, name, v)[1..] == ms[1..];
      } else {
        assert SetMember(ms, name, v)[1..] == ms;
      }
    }
  }

  /** A name above all present ones goes to the end. */
  lemma {:induction false} SetMemberAtEnd(ms: seq<Member>, name: Text, v: Value)
    requires forall i :: 0 <= i < |ms| ==> TextLess(ms[i].name, name)
    ensures SetMember(ms, name, v) == ms + [Member(name, v)]
  {
    if ms != [] {
      assert TextLess(ms[0].name, name);
      TextLessIrreflexive(name);
      if TextLess(name, ms[0].name) {
        TextLessTransitive(name, ms[0].name, name);
      }
      SetMemberAtEnd(ms[1..], name, v);
      assert ms == [ms[0]] + ms[1..];
    }
  }

  // ---------------------------------------------------------------- measures and shapes

  /** Levels of nesting; a scalar or an empty container is one level. */
  function Height(v: Value): (h: nat)
    ensures h >= 1
    decreases v, 0
  {
    match v
    case Arr(es) => 1 + ElemsHeight(es)
    case Obj(ms) => 1 + MembersHeight(ms)
    case _ => 1
  }

  function ElemsHeight(es: seq<Value>): nat
    decreases es, 1
  {
    if es == [] then 0 else Max(Height(es[0]), ElemsHeight(es[1..]))
  }

  function MembersHeight(ms: seq<Member>): nat
    decreases ms, 1
  {
    if ms == [] then 0 else Max(Height(ms[0].value), MembersHeight(ms[1..]))
  }

  function Max(a: nat, b: nat): nat {
    if a < b then b else a
  }

  /** Every double inside is one of `reals`. */
  predicate RealsIn(v: Value, reals: iset<int>)
    decreases v, 0
  {
    match v
    case Real(bits) => bits in reals
    case Arr(es) => ElemsRealsIn(es, reals)
    case Obj(ms) => MembersRealsIn(ms, reals)
    case _ => true
  }

  predicate ElemsRealsIn(es: seq<Value>, reals: iset<int>)
    decreases es, 1
  {
    es == [] || (RealsIn(es[0], reals) && ElemsRealsIn(es[1..], reals))
  }

  predicate MembersRealsIn(ms: seq<Member>, reals: iset<int>)
    decreases ms, 1
  {
    ms == [] || (RealsIn(ms[0].value, reals) && MembersRealsIn(ms[1..], reals))
  }

  lemma {:induction false} RealsInMore(v: Value, reals: iset<int>, more: iset<int>)
    requires RealsIn(v, reals) && reals <= more
    ensures RealsIn(v, more)
    decreases v, 0
  {
    match v
    case Arr(es) => ElemsRealsInMore(es, reals, more);
    case Obj(ms) => MembersRealsInMore(ms, reals, more);
    case _ =>
  }

  lemma {:induction false} ElemsRealsInMore(es: seq<Value>, reals: iset<int>, more: iset<int>)
    requires ElemsRealsIn(es, reals) && reals <= more
    ensures ElemsRealsIn(es, more)
    decreases es, 1
  {
    if es != [] {
      RealsInMore(es[0], reals, more);
      ElemsRealsInMore(es[1..], reals, more);
    }
  }

  lemma {:induction false} MembersRealsInMore(ms: seq<Member>, reals: iset<int>, more: iset<int>)
    requires MembersRealsIn(ms, reals) && reals <= more
    ensures MembersRealsIn(ms, more)
    decreases ms, 1
  {
    if ms != [] {
      RealsInMore(ms[0].value, reals, more);
      MembersRealsInMore(ms[1..], reals, more);
    }
  }

  /** No double anywhere inside. */
  predicate RealFree(v: Value) {
    RealsIn(v, iset{})
  }

  predicate RealFreeElems(es: seq<Value>) {
    ElemsRealsIn(es, iset{})
  }

  predicate RealFreeMembers(ms: seq<Member>) {
    MembersRealsIn(ms, iset{})
  }
}
