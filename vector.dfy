/** The growable array of element pointers of the kernel's minimal library:
    `m_pData` holds `m_nMaxElements` slots, the first `m_nElements` of which
    are the elements; a push into a full vector doubles the storage. An
    element pointer is a value of type `T`, compared by `==`. */
module Vectors {
  import opened Common

  /** `GetIndex`'s answer when the element is not there. */
  const NOT_FOUND: nat := 0xdeadbeef

  /** The position of the first `x` in `s`. */
  function FirstIndex<T(==)>(s: seq<T>, x: T): (i: nat)
    requires x in s
    ensures i < |s| && s[i] == x
    ensures forall j :: 0 <= j < i ==> s[j] != x
  {
    if s[0] == x then 0 else 1 + FirstIndex(s[1..], x)
  }

  /** `s` without its first `x`, the others kept in order. */
  function RemoveFirst<T(==)>(s: seq<T>, x: T): seq<T>
    requires x in s
  {
    s[..FirstIndex(s, x)] + s[FirstIndex(s, x) + 1..]
  }

  /** Removing the first `x` takes exactly one `x` out and keeps the length
      of the rest. */
  lemma RemoveFirstTakesOneOut<T>(s: seq<T>, x: T)
    requires x in s
    ensures |RemoveFirst(s, x)| == |s| - 1
    ensures multiset(RemoveFirst(s, x)) == multiset(s) - multiset{x}
  {
    var i := FirstIndex(s, x);
    assert s == s[..i] + [x] + s[i + 1..];
    assert multiset(s) == multiset(s[..i]) + multiset{x} + multiset(s[i + 1..]);
  }

  /** Popping an element that was pushed last, and is nowhere else, gives
      back the elements from before the push. */
  lemma RemoveFirstUndoesPush<T>(s: seq<T>, x: T)
    requires x !in s
    ensures x in s + [x] && RemoveFirst(s + [x], x) == s
  {
    var t := s + [x];
    assert t[..|s|] == s;
    FirstIndexIs(t, x, |s|);
  }

  /** The shift loop of `Pop` as written: `m_pData[i] = m_pData[i+1]` for
      `i` from `index` while `i < Length()`. `None` when a read falls past
      the `|data|` slots of the storage. */
  function ShiftDownAsWritten<T>(data: seq<T>, i: nat, length: nat): (r: Option<seq<T>>)
    ensures r.None? <==> i < length && |data| <= length
    ensures r.Some? ==> |r.value| == |data|
    ensures r.Some? ==> forall k :: i <= k < length ==> r.value[k] == data[k + 1]
    ensures r.Some? ==> forall k :: 0 <= k < |data| && !(i <= k < length) ==> r.value[k] == data[k]
    decreases length - i
  {
    if i >= length then Some(data)
    else if i + 1 >= |data| then None
    else ShiftDownAsWritten(data[i := data[i + 1]], i + 1, length)
  }

  /** As written, popping from a full vector reads `m_pData[Length()]`, one
      slot past the storage, whatever the element popped. */
  lemma {:induction false} ShiftDownAsWrittenOverrunsFullVector<T>(data: seq<T>, i: nat, length: nat)
    requires i < length == |data|
    ensures ShiftDownAsWritten(data, i, length) == None
    decreases length - i
  {
    if i + 1 < |data| {
      ShiftDownAsWrittenOverrunsFullVector(data[i := data[i + 1]], i + 1, length);
    }
  }

  class Vector<T(0,==)> {
    /** `m_pData`. */
    var data: array<T>
    /** `m_nElements`. */
    var nElements: nat
    /** `m_nMaxElements`. */
    var nMaxElements: nat

    /** The storage has `m_nMaxElements` slots, at least one, and the elements
        fit in it. */
    ghost predicate Valid()
      reads this
    {
      0 < nMaxElements == data.Length && nElements <= nMaxElements
    }

    /** The elements, in order. */
    ghost function Elements(): seq<T>
      requires Valid()
      reads this, data
    {
      data[..nElements]
    }

    /** `Vector(nElements)`: `nElements` slots when that is positive, two
        otherwise; the first `nElements` slots count as elements. */
    constructor (nElements: nat)
      ensures Valid() && fresh(data)
      ensures this.nElements == nElements
      ensures nElements > 0 ==> nMaxElements == nElements
      ensures nElements == 0 ==> nMaxElements == 2
    {
      this.nElements := nElements;
      var capacity := if nElements > 0 then nElements else 2;
      nMaxElements := capacity;
      data := new T[capacity];
    }

    /** `Length()`. */
    function Length(): (n: nat)
      requires Valid()
      reads this, data
      ensures n == |Elements()|
    {
      nElements
    }

    /** `operator[]`: the pointer in slot `index` of the storage; below
        `Length()` that is the element at `index`. */
    function Get(index: nat): (r: T)
      requires Valid() && index < data.Length
      reads this, data
      ensures index < |Elements()| ==> r == Elements()[index]
    {
      data[index]
    }

    /** `Push`: stores `value` after the elements; a full vector first moves
        its elements, in order, to new storage of twice as many slots. */
    method Push(value: T)
      requires Valid()
      modifies this, data
      ensures Valid()
      ensures Elements() == old(Elements()) + [value]
      ensures old(nElements) < old(nMaxElements) ==> data == old(data) && nMaxElements == old(nMaxElements)
      ensures old(nElements) == old(nMaxElements) ==> fresh(data) && nMaxElements == 2 * old(nElements)
      decreases if nElements < nMaxElements then 0 else 1
    {
      if nElements < nMaxElements {
        data[nElements] := value;
        nElements := nElements + 1;
      } else {
        var newData := new T[nElements * 2];
        nMaxElements := nElements * 2;
        for i := 0 to nElements
          modifies newData
          invariant newData[..i] == data[..i]
        {
          newData[i] := data[i];
        }
        data := newData;
        Push(value);
      }
    }

    /** `GetIndex`: the first slot below `Length()` holding `element`, or
        `0xdeadbeef` when there is none. */
    method GetIndex(element: T) returns (index: nat)
      requires Valid()
      ensures element in Elements() ==> index == FirstIndex(Elements(), element)
      ensures element !in Elements() ==> index == NOT_FOUND
    {
      for i := 0 to nElements
        invariant element !in data[..i]
      {
        if data[i] == element {
          assert data[..nElements][..i] == data[..i];
          FirstIndexIs(Elements(), element, i);
          return i;
        }
      }
      assert data[..nElements] == Elements();
      return NOT_FOUND;
    }

    /** `Pop`: removes the first occurrence of `element`, moving the later
        elements down one slot in order; the shift stops at the last element. */
    method Pop(element: T)
      requires Valid() && element in Elements()
      modifies this, data
      ensures Valid() && data == old(data) && nMaxElements == old(nMaxElements)
      ensures Elements() == RemoveFirst(old(Elements()), element)
    {
      ghost var before := Elements();
      var index := GetIndex(element);
      for i := index to nElements - 1
        modifies data
        invariant forall k :: 0 <= k < index ==> data[k] == before[k]
        invariant forall k :: index <= k < i ==> data[k] == before[k + 1]
        invariant forall k :: i <= k < nElements ==> data[k] == before[k]
      {
        data[i] := data[i + 1];
      }
      nElements := nElements - 1;
      ghost var after := RemoveFirst(before, element);
      assert |after| == nElements;
      forall k | 0 <= k < nElements
        ensures data[k] == after[k]
      {
        if k < index {
          assert after[k] == before[..index][k];
        } else {
          assert after[k] == before[index + 1..][k - index];
        }
      }
    }
  }

  /** An index whose slot holds `x` and before which no slot does is the
      first index of `x`. */
  lemma FirstIndexIs<T>(s: seq<T>, x: T, i: nat)
    requires i < |s| && s[i] == x && x !in s[..i]
    ensures x in s && FirstIndex(s, x) == i
  {
    assert forall j :: 0 <= j < i ==> s[..i][j] == s[j];
  }
}
