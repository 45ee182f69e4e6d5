/** The order and the equality of values: types and sizes first, then element by element, names before
    values. */
module ValueOrder {
  import opened Bytes
  import opened JsonValue

  /** The numbers of the type enumeration. */
  function TypeOf(v: Value): nat {
    match v
    case Null => 0
    case Int(_) => 1
    case UInt(_) => 2
    case Real(_) => 3
    case Str(_) => 4
    case Bool(_) => 5
    case Arr(_) => 6
    case Obj(_) => 7
  }

  /** A measure under which the comparison may look at its arguments either way round. */
  function Weight(v: Value): nat
    decreases v, 0
  {
    match v
    case Arr(es) => 1 + ElemsWeight(es)
    case Obj(ms) => 1 + MembersWeight(ms)
    case _ => 1
  }

  function ElemsWeight(es: seq<Value>): nat
    decreases es, 1
  {
    if es == [] then 0 else 1 + Weight(es[0]) + ElemsWeight(es[1..])
  }

  function MembersWeight(ms: seq<Member>): nat
    decreases ms, 1
  {
    if ms == [] then 0 else 1 + Weight(ms[0].value) + MembersWeight(ms[1..])
  }

  /** What is left of a difference of sizes in a 32-bit `int`. */
  function AsInt(n: int): int {
    (n + MAX_INT + 1) % 0x1_0000_0000 - MAX_INT - 1
  }

  /** `operator<`. Doubles are opaque here: none is below another. */
  predicate Less(a: Value, b: Value)
    decreases Weight(a) + Weight(b), 0
  {
    if TypeOf(a) != TypeOf(b) then TypeOf(a) < TypeOf(b)
    else
      match a
      case Null => false
      case Int(i) => i < b.i
      case UInt(u) => u < b.u
      case Real(_) => false
      case Str(s) => TextLess(s, b.s)
      case Bool(x) => !x && b.b
      case Arr(es) =>
        var delta := AsInt(|es| - |b.elems|);
        if delta != 0 then delta < 0 else ElemsLess(es, b.elems)
      case Obj(ms) =>
        var delta := AsInt(|ms| - |b.members|);
        if delta != 0 then delta < 0 else MembersLess(ms, b.members)
  }

  /** The lexicographic comparison of two sequences, which asks both ways before it moves on. */
  predicate ElemsLess(es: seq<Value>, fs: seq<Value>)
    decreases ElemsWeight(es) + ElemsWeight(fs), 0
  {
    if fs == [] then false
    else if es == [] then true
    else if Less(es[0], fs[0]) then true
    else if Less(fs[0], es[0]) then false
    else ElemsLess(es[1..], fs[1..])
  }

  /** Entries of a map compare as pairs. */
  predicate MemberLess(m: Member, n: Member)
    decreases Weight(m.value) + Weight(n.value), 1
  {
    TextLess(m.name, n.name) || (!TextLess(n.name, m.name) && Less(m.value, n.value))
  }

  predicate MembersLess(ms: seq<Member>, ns: seq<Member>)
    decreases MembersWeight(ms) + MembersWeight(ns), 0
  {
    if ns == [] then false
    else if ms == [] then true
    else if MemberLess(ms[0], ns[0]) then true
    else if MemberLess(ns[0], ms[0]) then false
    else MembersLess(ms[1..], ns[1..])
  }

  /** `operator==`: same type, same size, and equal part by part. Doubles are opaque here, too: as numbers
      they may be equal without being the same, or not equal to themselves. */
  predicate Equal(a: Value, b: Value)
    decreases a, 0
  {
    TypeOf(a) == TypeOf(b) &&
    match a
    case Null => true
    case Int(i) => i == b.i
    case UInt(u) => u == b.u
    case Real(bits) => bits == b.bits
    case Str(s) => s == b.s
    case Bool(x) => x == b.b
    case Arr(es) => |es| == |b.elems| && ElemsEqual(es, b.elems)
    case Obj(ms) => |ms| == |b.members| && MembersEqual(ms, b.members)
  }

  predicate ElemsEqual(es: seq<Value>, fs: seq<Value>)
    requires |es| == |fs|
    decreases es, 1
  {
    es == [] || (Equal(es[0], fs[0]) && ElemsEqual(es[1..], fs[1..]))
  }

  predicate MembersEqual(ms: seq<Member>, ns: seq<Member>)
    requires |ms| == |ns|
    decreases ms, 1
  {
    ms == []
    || (ms[0].name == ns[0].name && Equal(ms[0].value, ns[0].value) && MembersEqual(ms[1..], ns[1..]))
  }

  function Compare(a: Value, b: Value): int {
    if Less(a, b) then -1 else if Less(b, a) then 1 else 0
  }

  // ---------------------------------------------------------------- what can be ordered

  /** No container inside has more than `n` entries. */
  predicate Within(v: Value, n: nat)
    decreases v, 0
  {
    match v
    case Arr(es) => |es| <= n && ElemsWithin(es, n)
    case Obj(ms) => |ms| <= n && MembersWithin(ms, n)
    case _ => true
  }

  predicate ElemsWithin(es: seq<Value>, n: nat)
    decreases es, 1
  {
    es == [] || (Within(es[0], n) && ElemsWithin(es[1..], n))
  }

  predicate MembersWithin(ms: seq<Member>, n: nat)
    decreases ms, 1
  {
    ms == [] || (Within(ms[0].value, n) && MembersWithin(ms[1..], n))
  }

  /** Values without doubles whose sizes differ by less than an `int` can hold. */
  predicate Comparable(v: Value) {
    RealFree(v) && Within(v, MAX_INT)
  }

  predicate ElemsComparable(es: seq<Value>) {
    RealFreeElems(es) && ElemsWithin(es, MAX_INT)
  }

  predicate MembersComparable(ms: seq<Member>) {
    RealFreeMembers(ms) && MembersWithin(ms, MAX_INT)
  }

  // ---------------------------------------------------------------- equality

  /** Equality of values without doubles is being the same value. */
  lemma {:induction false} EqualIsIdentity(a: Value, b: Value)
    requires RealFree(a) && RealFree(b)
    ensures Equal(a, b) <==> a == b
    decreases a, 0
  {
    if TypeOf(a) == TypeOf(b) {
      if a.Arr? && |a.elems| == |b.elems| {
        ElemsEqualIsIdentity(a.elems, b.elems);
      } else if a.Obj? && |a.members| == |b.members| {
        MembersEqualIsIdentity(a.members, b.members);
      }
    }
  }

  lemma {:induction false} ElemsEqualIsIdentity(es: seq<Value>, fs: seq<Value>)
    requires |es| == |fs| && RealFreeElems(es) && RealFreeElems(fs)
    ensures ElemsEqual(es, fs) <==> es == fs
    decreases es, 1
  {
    if es != [] {
      EqualIsIdentity(es[0], fs[0]);
      ElemsEqualIsIdentity(es[1..], fs[1..]);
      assert es == [es[0]] + es[1..] && fs == [fs[0]] + fs[1..];
    }
  }

  lemma {:induction false} MembersEqualIsIdentity(ms: seq<Member>, ns: seq<Member>)
    requires |ms| == |ns| && RealFreeMembers(ms) && RealFreeMembers(ns)
    ensures MembersEqual(ms, ns) <==> ms == ns
    decreases ms, 1
  {
    if ms != [] {
      EqualIsIdentity(ms[0].value, ns[0].value);
      MembersEqualIsIdentity(ms[1..], ns[1..]);
      assert ms == [ms[0]] + ms[1..] && ns == [ns[0]] + ns[1..];
    }
  }

  // ---------------------------------------------------------------- totality

  /** Exactly one of below, same, above. */
  predicate Trichotomy(less: bool, same: bool, greater: bool) {
    (less || same || greater) && !(less && same) && !(less && greater) && !(same && greater)
  }

  lemma TextTrichotomy(a: Text, b: Text)
    ensures Trichotomy(TextLess(a, b), a == b, TextLess(b, a))
  {
    TextLessTotal(a, b);
    TextLessIrreflexive(a);
    if TextLess(a, b) && TextLess(b, a) {
      TextLessTransitive(a, b, a);
    }
  }

  /** The order decides between any two comparable values. */
  lemma {:induction false} LessIsTotal(a: Value, b: Value)
    requires Comparable(a) && Comparable(b)
    ensures Trichotomy(Less(a, b), a == b, Less(b, a))
    decreases a, 0
  {
    if TypeOf(a) == TypeOf(b) {
      if a.Str? {
        TextTrichotomy(a.s, b.s);
      } else if a.Arr? && |a.elems| == |b.elems| {
        ElemsLessIsTotal(a.elems, b.elems);
      } else if a.Obj? && |a.members| == |b.members| {
        MembersLessIsTotal(a.members, b.members);
      }
    }
  }

  lemma {:induction false} ElemsLessIsTotal(es: seq<Value>, fs: seq<Value>)
    requires |es| == |fs| && ElemsComparable(es) && ElemsComparable(fs)
    ensures Trichotomy(ElemsLess(es, fs), es == fs, ElemsLess(fs, es))
    decreases es, 1
  {
    hide Less;
    if es != [] {
      LessIsTotal(es[0], fs[0]);
      ElemsLessIsTotal(es[1..], fs[1..]);
      assert es == [es[0]] + es[1..] && fs == [fs[0]] + fs[1..];
    }
  }

  lemma MemberLessIsTotal(m: Member, n: Member)
    requires Trichotomy(Less(m.value, n.value), m.value == n.value, Less(n.value, m.value))
    ensures Trichotomy(MemberLess(m, n), m == n, MemberLess(n, m))
  {
    TextTrichotomy(m.name, n.name);
  }

  lemma {:induction false} MembersLessIsTotal(ms: seq<Member>, ns: seq<Member>)
    requires |ms| == |ns| && MembersComparable(ms) && MembersComparable(ns)
    ensures Trichotomy(MembersLess(ms, ns), ms == ns, MembersLess(ns, ms))
    decreases ms, 1
  {
    hide Less, MemberLess;
    if ms != [] {
      LessIsTotal(ms[0].value, ns[0].value);
      MemberLessIsTotal(ms[0], ns[0]);
      MembersLessIsTotal(ms[1..], ns[1..]);
      assert ms == [ms[0]] + ms[1..] && ns == [ns[0]] + ns[1..];
    }
  }

  // ---------------------------------------------------------------- transitivity

  lemma {:induction false} LessIsTransitive(a: Value, b: Value, c: Value)
    requires Comparable(a) && Comparable(b) && Comparable(c)
    requires Less(a, b) && Less(b, c)
    ensures Less(a, c)
    decreases a, 0
  {
    if TypeOf(a) == TypeOf(b) == TypeOf(c) {
      if a.Str? {
        TextLessTransitive(a.s, b.s, c.s);
      } else if a.Arr? && |a.elems| == |b.elems| == |c.elems| {
        ElemsLessIsTransitive(a.elems, b.elems, c.elems);
      } else if a.Obj? && |a.members| == |b.members| == |c.members| {
        MembersLessIsTransitive(a.members, b.members, c.members);
      }
    }
  }

  lemma {:induction false} ElemsLessIsTransitive(es: seq<Value>, fs: seq<Value>, gs: seq<Value>)
    requires |es| == |fs| == |gs| && ElemsComparable(es) && ElemsComparable(fs) && ElemsComparable(gs)
    requires ElemsLess(es, fs) && ElemsLess(fs, gs)
    ensures ElemsLess(es, gs)
    decreases es, 1
  {
    hide Less;
    var a, b, c := es[0], fs[0], gs[0];
    LessIsTotal(a, b);
    LessIsTotal(b, c);
    if Less(a, b) && Less(b, c) {
      LessIsTransitive(a, b, c);
    } else if a == b == c {
      ElemsLessIsTransitive(es[1..], fs[1..], gs[1..]);
    }
  }

  lemma {:induction false} MemberLessIsTransitive(m: Member, n: Member, o: Member)
    requires Comparable(m.value) && Comparable(n.value) && Comparable(o.value)
    requires MemberLess(m, n) && MemberLess(n, o)
    ensures MemberLess(m, o)
    decreases m, 0
  {
    hide Less;
    TextTrichotomy(m.name, n.name);
    TextTrichotomy(n.name, o.name);
    TextTrichotomy(m.name, o.name);
    if TextLess(m.name, n.name) && TextLess(n.name, o.name) {
      TextLessTransitive(m.name, n.name, o.name);
    } else if m.name == n.name == o.name {
      LessIsTransitive(m.value, n.value, o.value);
    }
  }

  lemma {:induction false} MembersLessIsTransitive(ms: seq<Member>, ns: seq<Member>, os: seq<Member>)
    requires |ms| == |ns| == |os| && MembersComparable(ms) && MembersComparable(ns) && MembersComparable(os)
    requires MembersLess(ms, ns) && MembersLess(ns, os)
    ensures MembersLess(ms, os)
    decreases ms, 1
  {
    hide Less, MemberLess;
    var m, n, o := ms[0], ns[0], os[0];
    LessIsTotal(m.value, n.value);
    LessIsTotal(n.value, o.value);
    MemberLessIsTotal(m, n);
    MemberLessIsTotal(n, o);
    if MemberLess(m, n) && MemberLess(n, o) {
      MemberLessIsTransitive(m, n, o);
    } else if m == n == o {
      MembersLessIsTransitive(ms[1..], ns[1..], os[1..]);
    }
  }

  /** A strict total order on comparable values, and `compare` tells equality. */
  lemma StrictTotalOrder(a: Value, b: Value, c: Value)
    requires Comparable(a) && Comparable(b) && Comparable(c)
    ensures Trichotomy(Less(a, b), Equal(a, b), Less(b, a))
    ensures Less(a, b) && Less(b, c) ==> Less(a, c)
    ensures (Compare(a, b) == 0 <==> Equal(a, b)) && Compare(b, a) == -Compare(a, b)
    ensures Compare(a, b) < 0 <==> Less(a, b)
  {
    hide Less, Equal;
    LessIsTotal(a, b);
    EqualIsIdentity(a, b);
    if Less(a, b) && Less(b, c) {
      LessIsTransitive(a, b, c);
    }
  }

  // ---------------------------------------------------------------- which way round

  /** Values of different types are ordered by type: null, signed, unsigned, double, string, boolean, array,
      object. */
  lemma TypesAscend(a: Value, b: Value)
    ensures a.Null? && !b.Null? ==> Less(a, b)
    ensures a.Int? && !(b.Null? || b.Int?) ==> Less(a, b)
    ensures a.UInt? && (b.Real? || b.Str? || b.Bool? || b.Arr? || b.Obj?) ==> Less(a, b)
    ensures a.Real? && (b.Str? || b.Bool? || b.Arr? || b.Obj?) ==> Less(a, b)
    ensures a.Str? && (b.Bool? || b.Arr? || b.Obj?) ==> Less(a, b)
    ensures a.Bool? && (b.Arr? || b.Obj?) ==> Less(a, b)
    ensures a.Arr? && b.Obj? ==> Less(a, b)
  {
  }

  /** Numbers ascend, false comes before true, strings are ordered by their first difference. */
  lemma ScalarsAscend(i: Int64, j: Int64, u: UInt64, v: UInt64, s: Text, t: Text)
    ensures Less(Int(i), Int(j)) <==> i < j
    ensures Less(UInt(u), UInt(v)) <==> u < v
    ensures Less(Bool(false), Bool(true)) && !Less(Bool(true), Bool(false))
    ensures Less(Str(s), Str(t)) <==> exists n: nat :: BelowAt(s, t, n)
  {
    TextLessExactly(s, t);
  }

  /** Two arrays are the same up to `n`, where the first has the lower element. */
  predicate LowerAt(es: seq<Value>, fs: seq<Value>, n: nat) {
    n < |es| && n < |fs| && es[..n] == fs[..n] && Less(es[n], fs[n])
  }

  lemma {:induction false} ElemsLessExactly(es: seq<Value>, fs: seq<Value>)
    requires |es| == |fs| && ElemsComparable(es) && ElemsComparable(fs)
    ensures ElemsLess(es, fs) <==> exists n: nat :: LowerAt(es, fs, n)
  {
    hide Less;
    if es != [] {
      LessIsTotal(es[0], fs[0]);
      ElemsLessExactly(es[1..], fs[1..]);
      LowerAtFront(es, fs);
    }
  }

  /** The first difference is at the front, or it is one of the rest. */
  lemma LowerAtFront(es: seq<Value>, fs: seq<Value>)
    requires es != [] && fs != []
    ensures (exists n: nat :: LowerAt(es, fs, n))
       <==> Less(es[0], fs[0]) || (es[0] == fs[0] && exists n: nat :: LowerAt(es[1..], fs[1..], n))
  {
    hide Less;
    if n: nat :| LowerAt(es, fs, n) {
      if n > 0 {
        SameFronts(es, fs, n - 1);
        assert LowerAt(es[1..], fs[1..], n - 1);
      }
    }
    if Less(es[0], fs[0]) {
      assert LowerAt(es, fs, 0);
    }
    if n: nat :| es[0] == fs[0] && LowerAt(es[1..], fs[1..], n) {
      SameFronts(es, fs, n);
      assert LowerAt(es, fs, n + 1);
    }
  }

  /** The shorter of two arrays is below the longer one; of two that are equally long, the one with the lower
      element where they first differ. */
  lemma ArraysAscend(es: seq<Value>, fs: seq<Value>)
    requires Comparable(Arr(es)) && Comparable(Arr(fs))
    ensures Less(Arr(es), Arr(fs)) <==> |es| < |fs| || (|es| == |fs| && exists n: nat :: LowerAt(es, fs, n))
  {
    if |es| == |fs| {
      ElemsLessExactly(es, fs);
    }
  }

  /** Two objects are the same up to `n`, where the first has the lower name, or the same name with the lower
      value. */
  predicate LowerMemberAt(ms: seq<Member>, ns: seq<Member>, n: nat) {
    && n < |ms| && n < |ns| && ms[..n] == ns[..n]
    && (TextLess(ms[n].name, ns[n].name) || (ms[n].name == ns[n].name && Less(ms[n].value, ns[n].value)))
  }

  lemma {:induction false} MembersLessExactly(ms: seq<Member>, ns: seq<Member>)
    requires |ms| == |ns| && MembersComparable(ms) && MembersComparable(ns)
    ensures MembersLess(ms, ns) <==> exists n: nat :: LowerMemberAt(ms, ns, n)
  {
    hide Less;
    if ms != [] {
      LessIsTotal(ms[0].value, ns[0].value);
      MemberLessIsTotal(ms[0], ns[0]);
      TextTrichotomy(ms[0].name, ns[0].name);
      MembersLessExactly(ms[1..], ns[1..]);
      LowerMemberAtFront(ms, ns);
    }
  }

  lemma LowerMemberAtFront(ms: seq<Member>, ns: seq<Member>)
    requires ms != [] && ns != []
    ensures (exists n: nat :: LowerMemberAt(ms, ns, n))
       <==> LowerMemberAt(ms, ns, 0) || (ms[0] == ns[0] && exists n: nat :: LowerMemberAt(ms[1..], ns[1..], n))
  {
    hide Less, TextLess;
    if n: nat :| LowerMemberAt(ms, ns, n) {
      if n > 0 {
        SameFronts(ms, ns, n - 1);
        assert LowerMemberAt(ms[1..], ns[1..], n - 1);
      }
    }
    if n: nat :| ms[0] == ns[0] && LowerMemberAt(ms[1..], ns[1..], n) {
      SameFronts(ms, ns, n);
      assert LowerMemberAt(ms, ns, n + 1);
    }
  }

  /** The same for objects. */
  lemma ObjectsAscend(ms: seq<Member>, ns: seq<Member>)
    requires Comparable(Obj(ms)) && Comparable(Obj(ns))
    ensures Less(Obj(ms), Obj(ns)) <==> |ms| < |ns| || (|ms| == |ns| && exists n: nat :: LowerMemberAt(ms, ns, n))
  {
    if |ms| == |ns| {
      MembersLessExactly(ms, ns);
    }
  }

  // ---------------------------------------------------------------- how large containers may be

  /** The order is one on every value without doubles that has at most `n` entries in a container. */
  ghost predicate OrdersWithin(n: nat) {
    forall a, b, c
      :: RealFree(a) && RealFree(b) && RealFree(c) && Within(a, n) && Within(b, n) && Within(c, n)
         ==> Trichotomy(Less(a, b), a == b, Less(b, a))
             && (Less(a, b) && Less(b, c) ==> Less(a, c))
  }

  function Nulls(n: nat): (es: seq<Value>)
    ensures |es| == n
  {
    if n == 0 then [] else [Null] + Nulls(n - 1)
  }

  lemma {:induction false} NullsAreOrdinary(n: nat, m: nat)
    ensures RealFreeElems(Nulls(n)) && ElemsWithin(Nulls(n), m)
  {
    if n > 0 {
      NullsAreOrdinary(n - 1, m);
      assert Nulls(n)[1..] == Nulls(n - 1);
    }
  }

  lemma {:induction false} WithinMore(v: Value, n: nat, m: nat)
    requires Within(v, n) && n <= m
    ensures Within(v, m)
    decreases v, 0
  {
    match v
    case Arr(es) => ElemsWithinMore(es, n, m);
    case Obj(ms) => MembersWithinMore(ms, n, m);
    case _ =>
  }

  lemma {:induction false} ElemsWithinMore(es: seq<Value>, n: nat, m: nat)
    requires ElemsWithin(es, n) && n <= m
    ensures ElemsWithin(es, m)
    decreases es, 1
  {
    if es != [] {
      WithinMore(es[0], n, m);
      ElemsWithinMore(es[1..], n, m);
    }
  }

  lemma {:induction false} MembersWithinMore(ms: seq<Member>, n: nat, m: nat)
    requires MembersWithin(ms, n) && n <= m
    ensures MembersWithin(ms, m)
    decreases ms, 1
  {
    if ms != [] {
      WithinMore(ms[0].value, n, m);
      MembersWithinMore(ms[1..], n, m);
    }
  }

  /** An empty array and one of 2^31 elements are each below the other. */
  lemma TooLargeToOrder()
    ensures var big := Arr(Nulls(MAX_INT + 1));
            RealFree(big) && Within(big, MAX_INT + 1) && Less(Arr([]), big) && Less(big, Arr([]))
  {
    NullsAreOrdinary(MAX_INT + 1, MAX_INT + 1);
  }

  /** Containers may have as many entries as the largest `int`, and not one more. */
  lemma OrdersWithinExactly(n: nat)
    ensures OrdersWithin(n) <==> n <= MAX_INT
  {
    hide Less;
    if n <= MAX_INT {
      forall a, b, c
        | RealFree(a) && RealFree(b) && RealFree(c) && Within(a, n) && Within(b, n) && Within(c, n)
        ensures Trichotomy(Less(a, b), a == b, Less(b, a))
        ensures Less(a, b) && Less(b, c) ==> Less(a, c)
      {
        WithinMore(a, n, MAX_INT);
        WithinMore(b, n, MAX_INT);
        WithinMore(c, n, MAX_INT);
        StrictTotalOrder(a, b, c);
        EqualIsIdentity(a, b);
      }
    } else {
      var small, big := Arr([]), Arr(Nulls(MAX_INT + 1));
      TooLargeToOrder();
      WithinMore(big, MAX_INT + 1, n);
      assert RealFree(small) && Within(small, n);
    }
  }
}
