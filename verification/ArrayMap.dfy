/** An array value as the library keeps it: an ordered map from 32-bit indices to elements, with the size
    taken from its last key and absent elements read as null. */
module ArrayMap {
  const LIMIT: nat := 0x1_0000_0000

  type Index = i: nat | i < LIMIT


  /** The greatest key of a map that is not empty. */
  function LastKey<T>(m: map<Index, T>): (k: Index)
    requires m != map[]
    ensures k in m && forall j :: j in m ==> j <= k
  {
    LastKeyExists(m);
    var k :| k in m && forall j :: j in m ==> j <= k;
    k
  }

  lemma {:induction false} LastKeyExists<T>(m: map<Index, T>)
    requires m != map[]
    ensures exists k :: k in m && forall j :: j in m ==> j <= k
    decreases |m|
  {
    var i: Index :| i in m;
    var rest := m - {i};
    assert forall j :: j in m && j != i ==> j in rest;
    if rest == map[] {
    } else {
      LastKeyExists(rest);
      var k :| k in rest && forall j :: j in rest ==> j <= k;
      var top := if k < i then i else k;
      assert forall j :: j in m ==> j == i || j in rest;
      assert top in m && forall j :: j in m ==> j <= top;
    }
  }

  /** How far an array reaches. */
  function Extent<T>(m: map<Index, T>): (n: nat)
    ensures n <= LIMIT
  {
    if m == map[] then 0 else LastKey(m) + 1
  }

  /** Reading: a hole is null. */
  function At<T>(m: map<Index, T>, nil: T, i: Index): T {
    if i in m then m[i] else nil
  }

  /** The array as a sequence. */
  function View<T>(m: map<Index, T>, nil: T): (s: seq<T>)
    ensures |s| == Extent(m)
  {
    seq(Extent(m), i requires 0 <= i < LIMIT => At(m, nil, i))
  }

  predicate Dense<T>(m: map<Index, T>) {
    forall i :: 0 <= i < Extent(m) ==> i in m
  }

  /** Knowing the extent: everything below is the last key, nothing is at or above it. */
  lemma ExtentIs<T>(m: map<Index, T>, n: nat)
    requires forall j :: j in m ==> j < n
    requires n > 0 ==> n - 1 in m
    ensures Extent(m) == n
  {
    if m == map[] {
    } else {
      assert LastKey(m) < n;
      assert n - 1 in m;
    }
  }

  class ArrayValue<T(==)> {
    const nil: T
    var elements: map<Index, T>

    constructor (nil: T)
      ensures this.nil == nil && elements == map[]
    {
      this.nil := nil;
      elements := map[];
    }

    /** `size`, in 32 bits: an array that uses the last index has the size zero. */
    function Size(): Index
      reads this
    {
      Extent(elements) % LIMIT
    }

    ghost function Contents(): seq<T>
      reads this
    {
      View(elements, nil)
    }

    /** `operator[]` on a variable: a missing element is created as null. */
    method Touch(index: Index) returns (value: T)
      modifies this
      ensures elements == old(elements)[index := At(old(elements), nil, index)]
      ensures value == elements[index]
      ensures Contents() == if index < |old(Contents())| then old(Contents())
                            else old(Contents()) + seq(index + 1 - |old(Contents())|, _ => nil)
    {
      TouchView(elements, nil, index);
      if index !in elements {
        elements := elements[index := nil];
      } else {
        assert elements == elements[index := elements[index]];
      }
      value := elements[index];
    }

    /** `append`: assignment to the element just past the end, which is the first one when there is no
        index left. */
    method Append(value: T)
      modifies this
      ensures Contents() == if |old(Contents())| < 0x1_0000_0000 then old(Contents()) + [value]
                            else old(Contents())[0 := value]
      ensures old(Dense(elements)) ==> Dense(elements)
    {
      var n := Size();
      var created := Touch(n);
      ghost var extent := Extent(elements);
      elements := elements[n := value];
      ExtentIs(elements, extent);
    }

    /** `resize`. Growing touches the last new element only; shrinking erases from the new size on and then
        checks the size, which fails when the new last element is a hole. */
    method Resize(newSize: Index) returns (ok: bool)
      modifies this
      ensures ok <==> newSize == 0 || newSize > old(Size()) || newSize - 1 in old(elements)
      ensures newSize > |old(Contents())| ==>
                Contents() == old(Contents()) + seq(newSize - |old(Contents())|, _ => nil)
      ensures ok && newSize <= |old(Contents())| ==>
                Contents() == if |old(Contents())| < LIMIT || newSize == 0 then old(Contents())[..newSize]
                              else old(Contents())
    {
      var oldSize := Size();
      ok := true;
      if newSize == 0 {
        elements := map[];
      } else if newSize > oldSize {
        var created := Touch(newSize - 1);
      } else {
        ghost var before := elements;
        var index := newSize;
        while index < oldSize
          invariant newSize <= index <= oldSize
          invariant elements == map i | i in before && !(newSize <= i < index) :: before[i]
        {
          elements := elements - {index};
          index := index + 1;
        }
        assert forall i :: i in elements <==> i in before && i < newSize;
        if newSize - 1 in before {
          ExtentIs(elements, newSize);
          assert Contents() == View(before, nil)[..newSize];
        } else {
          ExtentBelow(elements, newSize - 1);
        }
        ok := Size() == newSize;
      }
    }

    /** `removeIndex`: the elements above move down one place, through `operator[]`, then the last key is
        erased. */
    method RemoveIndex(index: Index) returns (ok: bool, removed: T)
      modifies this
      ensures ok <==> index in old(elements)
      ensures !ok ==> elements == old(elements) && removed == nil
      ensures ok ==> removed == old(elements)[index]
      ensures ok ==>
                elements == RemovedMap(old(elements), nil, index)
      ensures ok && old(Dense(elements)) ==>
                Dense(elements) && Contents() == old(Contents())[..index] + old(Contents())[index + 1..]
    {
      if index !in elements {
        return false, nil;
      }
      LastIndex(elements, index);
      hide Shifted, View, At, Extent, Dense, Interval;
      removed := elements[index];
      var oldSize := Size();
      ghost var before := elements;
      var last: Index := (oldSize + LIMIT - 1) % LIMIT;
      var i := index;
      while i < last
        invariant index <= i <= last
        invariant elements == Shifted(before, nil, index, i)
      {
        var next := At(elements, nil, i + 1);
        elements := elements[i + 1 := next];
        elements := elements[i := next];
        ShiftStep(before, nil, index, i);
        i := i + 1;
      }
      elements := elements - {last};
      assert elements == RemovedMap(before, nil, index);
      if Dense(before) {
        RemovedDense(before, nil, index);
      }
      ok := true;
    }
  }

  /** The last index, computed from a size in 32 bits. */
  lemma LastIndex<T>(m: map<Index, T>, index: Index)
    requires index in m
    ensures index < Extent(m) && (Extent(m) % LIMIT + LIMIT - 1) % LIMIT == Extent(m) - 1
  {
  }

  lemma TouchView<T>(m: map<Index, T>, nil: T, index: Index)
    ensures var r := m[index := At(m, nil, index)];
            View(r, nil) == if index < Extent(m) then View(m, nil)
                            else View(m, nil) + seq(index + 1 - Extent(m), _ => nil)
  {
    var r := m[index := At(m, nil, index)];
    ExtentIs(r, if index < Extent(m) then Extent(m) else index + 1);
  }

  lemma ExtentBelow<T>(m: map<Index, T>, n: nat)
    requires forall j :: j in m ==> j < n
    ensures Extent(m) <= n
  {
  }

  /** The map after the elements above `index` up to `i` have moved down. */
  function Shifted<T>(m: map<Index, T>, nil: T, index: Index, i: Index): map<Index, T>
    requires index <= i
  {
    map k: Index | k in m.Keys + Interval(index, i + 1) :: AfterShift(m, nil, index, i, k)
  }

  function AfterShift<T>(m: map<Index, T>, nil: T, index: Index, i: Index, k: Index): T {
    if index <= k < i then At(m, nil, k + 1) else At(m, nil, k)
  }

  function Interval(a: nat, b: nat): (s: set<Index>)
    requires b <= LIMIT
    ensures forall j: Index :: j in s <==> a <= j < b
    decreases b - a
  {
    if a >= b then {} else {a} + Interval(a + 1, b)
  }

  lemma ShiftStep<T>(m: map<Index, T>, nil: T, index: Index, i: Index)
    requires index <= i < LIMIT - 1
    ensures var s := Shifted(m, nil, index, i);
            s[i + 1 := At(s, nil, i + 1)][i := At(s, nil, i + 1)] == Shifted(m, nil, index, i + 1)
  {
    var s: map<Index, T>, goal: map<Index, T> := Shifted(m, nil, index, i), Shifted(m, nil, index, i + 1);
    var r: map<Index, T> := s[i + 1 := At(s, nil, i + 1)][i := At(s, nil, i + 1)];
    forall k: Index
      ensures k in r <==> k in goal
    {
      assert k in Interval(index, i + 1) <==> index <= k < i + 1;
      assert k in Interval(index, i + 2) <==> index <= k < i + 2;
    }
    assert At(s, nil, i + 1) == At(m, nil, i + 1);
    forall k | k in r
      ensures r[k] == goal[k]
    {
    }
  }

  /** What removing an element leaves: the map below it, and everything above one place lower. */
  function RemovedMap<T>(m: map<Index, T>, nil: T, index: Index): map<Index, T>
    requires index in m
  {
    Shifted(m, nil, index, Extent(m) - 1) - {Extent(m) - 1}
  }

  lemma RemovedDense<T>(m: map<Index, T>, nil: T, index: Index)
    requires index in m && Dense(m)
    ensures var r := RemovedMap(m, nil, index);
            Dense(r) && View(r, nil) == View(m, nil)[..index] + View(m, nil)[index + 1..]
  {
    var r := RemovedMap(m, nil, index);
    ExtentIs(r, Extent(m) - 1);
  }

  /** An array with one element, at index 2: removing it leaves nothing, not the two nulls before it. */
  lemma RemovedAfterHole<T>(nil: T, x: T)
    ensures var m := map[2 := x];
            && View(m, nil) == [nil, nil, x]
            && View(RemovedMap(m, nil, 2), nil) != View(m, nil)[..2] + View(m, nil)[3..]
  {
    var m := map[2 := x];
    ExtentIs(m, 3);
    RemovedExactly(m, nil, 2);
  }

  /** With holes, too, the element is removed and no other, except when it is the last one and the one
      before it is a hole: then the size drops further. */
  lemma RemovedExactly<T>(m: map<Index, T>, nil: T, index: Index)
    requires index in m
    ensures View(RemovedMap(m, nil, index), nil) == View(m, nil)[..index] + View(m, nil)[index + 1..]
            <==> index + 1 < Extent(m) || index == 0 || index - 1 in m
  {
    var n := Extent(m);
    var r := RemovedMap(m, nil, index);
    if index + 1 < n || index == 0 || index - 1 in m {
      ExtentIs(r, n - 1);
    } else {
      ExtentBelow(r, n - 2);
    }
  }
}
