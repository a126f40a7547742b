/** `OrderedComparable`: wraps a comparable value together with a direction, so
    that an aspect can be compared in descending order. The inner value's
    `CompareTo` is foreign code and is a parameter, `innerCompareTo(x, y)`
    standing for `x.CompareTo(y)`. */
module Ordering {
  import opened DotNet

  datatype OrderByEnum = Desc | Asc

  /** The negation `-x` of a 32-bit integer in an unchecked context: two's
      complement wrap-around, so `int.MinValue` is its own negation. */
  function UncheckedNegate(x: int32): (r: int32)
    ensures (r + x) % 0x1_0000_0000 == 0
    ensures x != Int32MinValue ==> r == -x
  {
    if x == Int32MinValue then x else -x
  }

  /** A value and the direction it is compared in. */
  datatype OrderedComparable<C> = OrderedComparable(innerItem: C, orderBy: OrderByEnum)
  {
    /** `CompareTo(OrderedComparable obj)`: two wrappers of different directions
        throw `InvalidOperationException`; otherwise the inner comparison is
        returned as it is (ascending) or negated (descending), and an exception
        from the inner comparison passes through. */
    function CompareTo(obj: OrderedComparable<C>, innerCompareTo: (C, C) -> Result<int32, Exception>)
      : (r: Result<int32, Exception>)
      ensures orderBy != obj.orderBy ==> r == Failure(InvalidOperationException("Order by mismatch"))
      ensures orderBy == obj.orderBy == Asc ==> r == innerCompareTo(innerItem, obj.innerItem)
      ensures orderBy == obj.orderBy == Desc ==>
        var inner := innerCompareTo(innerItem, obj.innerItem);
        (r.Failure? <==> inner.Failure?) && (r.Failure? ==> r == inner) &&
        (r.Success? ==> (r.value + inner.value) % 0x1_0000_0000 == 0)
    {
      if orderBy != obj.orderBy then Failure(InvalidOperationException("Order by mismatch"))
      else
        match innerCompareTo(innerItem, obj.innerItem)
        case Failure(e) => Failure(e)
        case Success(ascCompareResult) =>
          if orderBy == Asc then Success(ascCompareResult) else Success(UncheckedNegate(ascCompareResult))
    }

    /** `CompareTo(object obj)`: `obj` is `Some(w)` when it is an
        `OrderedComparable` and `None` when the cast throws. */
    function CompareToObject(obj: Option<OrderedComparable<C>>, innerCompareTo: (C, C) -> Result<int32, Exception>)
      : (r: Result<int32, Exception>)
      ensures obj.None? ==> r == Failure(InvalidCastException)
      ensures obj.Some? ==> r == CompareTo(obj.value, innerCompareTo)
    {
      match obj
      case None => Failure(InvalidCastException)
      case Some(w) => CompareTo(w, innerCompareTo)
    }
  }

  /** The outcome of a cast of `object` to a given class. */
  datatype Option<+T> = None | Some(value: T)

  /** `OrderedComparable.Asc(item)`. */
  function AscOf<C>(item: C): (r: OrderedComparable<C>)
    ensures r.innerItem == item && r.orderBy == Asc
  {
    OrderedComparable(item, Asc)
  }

  /** `OrderedComparable.Desc(item)`. */
  function DescOf<C>(item: C): (r: OrderedComparable<C>)
    ensures r.innerItem == item && r.orderBy == Desc
  {
    OrderedComparable(item, Desc)
  }

  /** `Asc(x)` against `Asc(y)` is exactly `x.CompareTo(y)`; `Desc(x)` against
      `Desc(y)` has the opposite sign whenever the inner result is not
      `int.MinValue`; mixing the two throws. */
  lemma AscAndDesc<C>(x: C, y: C, innerCompareTo: (C, C) -> Result<int32, Exception>)
    ensures AscOf(x).CompareTo(AscOf(y), innerCompareTo) == innerCompareTo(x, y)
    ensures var inner := innerCompareTo(x, y);
      var r := DescOf(x).CompareTo(DescOf(y), innerCompareTo);
      inner.Success? && inner.value != Int32MinValue ==> r.Success? && Sign(r.value) == -Sign(inner.value)
    ensures AscOf(x).CompareTo(DescOf(y), innerCompareTo).Failure?
    ensures DescOf(x).CompareTo(AscOf(y), innerCompareTo).Failure?
  {
  }

  /** Equal inner items compare as 0 in either direction. */
  lemma EqualItemsCompareEqual<C>(w: OrderedComparable<C>, obj: OrderedComparable<C>,
                                  innerCompareTo: (C, C) -> Result<int32, Exception>)
    requires w.orderBy == obj.orderBy
    requires innerCompareTo(w.innerItem, obj.innerItem) == Success(0)
    ensures w.CompareTo(obj, innerCompareTo) == Success(0)
  {
  }

  /** The wrap-around of the negation: a descending wrapper around an inner
      comparison that returns `int.MinValue` returns `int.MinValue` too, so the
      order is not reversed. */
  lemma DescKeepsMinValue<C>(x: C, y: C, innerCompareTo: (C, C) -> Result<int32, Exception>)
    requires innerCompareTo(x, y) == Success(Int32MinValue)
    ensures DescOf(x).CompareTo(DescOf(y), innerCompareTo) == Success(Int32MinValue)
  {
  }

  /** An inner comparison is antisymmetric and never returns `int.MinValue`. */
  ghost predicate AntisymmetricInRange<C(!new)>(innerCompareTo: (C, C) -> Result<int32, Exception>)
  {
    Antisymmetric(innerCompareTo) &&
    forall x, y :: innerCompareTo(x, y).Success? ==> innerCompareTo(x, y).value != Int32MinValue
  }

  /** When the inner comparison is antisymmetric and never returns
      `int.MinValue`, comparing wrappers is antisymmetric in both directions
      (and mismatched directions throw both ways). */
  lemma CompareToAntisymmetric<C(!new)>(w: OrderedComparable<C>, obj: OrderedComparable<C>,
                                        innerCompareTo: (C, C) -> Result<int32, Exception>)
    requires AntisymmetricInRange(innerCompareTo)
    ensures Opposite(w.CompareTo(obj, innerCompareTo), obj.CompareTo(w, innerCompareTo))
  {
    assert Opposite(innerCompareTo(w.innerItem, obj.innerItem), innerCompareTo(obj.innerItem, w.innerItem));
  }
}
