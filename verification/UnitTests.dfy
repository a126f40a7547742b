/** The expectations of the repository's unit tests, stated over the model:
    aspect comparisons of `ClassForComparing` objects by their string and
    integer fields, ascending and descending, and the order that sorting a
    list of four such objects with a `GenericComparer` must produce. */
module UnitTests {
  import opened DotNet
  import opened ComparingExtensions
  import opened Ordering
  import opened Comparers

  datatype ClassForComparing = ClassForComparing(ID: int, IntValue: int32, StringValue: string)

  /** The comparable values the tests' aspects produce: strings and integers ... */
  datatype Primitive = Str(s: string) | Int(i: int32)

  /** ... either as they are or wrapped in an `OrderedComparable`. */
  datatype Key = Plain(p: Primitive) | Ordered(w: OrderedComparable<Primitive>)

  /** String comparison, ordinal: the first differing character decides, and a
      proper prefix comes first. */
  function CompareOrdinal(a: string, b: string): (r: int32)
    ensures r == -1 || r == 0 || r == 1
    ensures r == 0 <==> a == b
  {
    if a == [] && b == [] then 0
    else if a == [] then -1
    else if b == [] then 1
    else if a[0] < b[0] then -1
    else if a[0] > b[0] then 1
    else
      var r := CompareOrdinal(a[1..], b[1..]);
      assert a == [a[0]] + a[1..] && b == [b[0]] + b[1..];
      r
  }

  /** `x.CompareTo(y)` for a string or an integer: values of different kinds
      throw `ArgumentException`. */
  function PrimitiveCompareTo(x: Primitive, y: Primitive): Result<int32, Exception>
  {
    match (x, y)
    case (Str(s), Str(t)) => Success(CompareOrdinal(s, t))
    case (Int(i), Int(j)) => Success(Sign(i - j))
    case _ => Failure(ArgumentException)
  }

  /** `x.CompareTo(y)` through `IComparable`: a plain value against a wrapper
      throws `ArgumentException`; a wrapper casts its argument, which throws
      `InvalidCastException` for a plain value. */
  function KeyCompareTo(x: Key, y: Key): Result<int32, Exception>
  {
    match x
    case Plain(p) => if y.Plain? then PrimitiveCompareTo(p, y.p) else Failure(ArgumentException)
    case Ordered(w) => w.CompareToObject(if y.Ordered? then Some(y.w) else None, PrimitiveCompareTo)
  }

  lemma {:induction false} CompareOrdinalAntisymmetric(a: string, b: string)
    ensures CompareOrdinal(a, b) == -CompareOrdinal(b, a)
  {
    if a != [] && b != [] && a[0] == b[0] {
      CompareOrdinalAntisymmetric(a[1..], b[1..]);
    }
  }

  /** String and integer comparison is antisymmetric and never returns `int.MinValue`. */
  lemma PrimitiveCompareToInRange()
    ensures AntisymmetricInRange(PrimitiveCompareTo)
  {
    forall x, y ensures Opposite(PrimitiveCompareTo(x, y), PrimitiveCompareTo(y, x)) {
      if x.Str? && y.Str? {
        CompareOrdinalAntisymmetric(x.s, y.s);
      }
    }
  }

  /** The keys the tests use compare antisymmetrically, wrapped or not. */
  lemma KeyCompareToAntisymmetric()
    ensures Antisymmetric(KeyCompareTo)
  {
    PrimitiveCompareToInRange();
    forall x, y ensures Opposite(KeyCompareTo(x, y), KeyCompareTo(y, x)) {
      if x.Ordered? && y.Ordered? {
        CompareToAntisymmetric(x.w, y.w, PrimitiveCompareTo);
      } else if x.Plain? && y.Plain? {
        assert Opposite(PrimitiveCompareTo(x.p, y.p), PrimitiveCompareTo(y.p, x.p));
      }
    }
  }

  // The aspects of the tests.
  function ByString(x: ClassForComparing): Nullable<Key> { NonNull(Plain(Str(x.StringValue))) }
  function ByInt(x: ClassForComparing): Nullable<Key> { NonNull(Plain(Int(x.IntValue))) }
  function ByStringDesc(x: ClassForComparing): Nullable<Key> { NonNull(Ordered(DescOf(Str(x.StringValue)))) }
  function ByIntAsc(x: ClassForComparing): Nullable<Key> { NonNull(Ordered(AscOf(Int(x.IntValue)))) }
  function ByIntDesc(x: ClassForComparing): Nullable<Key> { NonNull(Ordered(DescOf(Int(x.IntValue)))) }

  const ObjA := ClassForComparing(1, 1, "abc")
  const ObjB := ClassForComparing(2, 2, "abc")
  const ObjC := ClassForComparing(3, 1, "xyz")
  const ObjD := ClassForComparing(4, 2, "xyz")

  function Compare(a: ClassForComparing, b: ClassForComparing,
                   aspects: seq<ClassForComparing -> Nullable<Key>>): Result<int32, Exception>
  {
    CompareToByAspects(NonNull(a), NonNull(b), NonNull(aspects), KeyCompareTo)
  }

  /** What each of the tests' aspects makes of two objects. */
  lemma AspectOutcomes(x: ClassForComparing, y: ClassForComparing)
    ensures CompareAspect(x, y, ByString, KeyCompareTo) == Success(CompareOrdinal(x.StringValue, y.StringValue))
    ensures CompareAspect(x, y, ByInt, KeyCompareTo) == Success(Sign(x.IntValue - y.IntValue))
    ensures CompareAspect(x, y, ByStringDesc, KeyCompareTo) == Success(-CompareOrdinal(x.StringValue, y.StringValue))
    ensures CompareAspect(x, y, ByIntAsc, KeyCompareTo) == Success(Sign(x.IntValue - y.IntValue))
    ensures CompareAspect(x, y, ByIntDesc, KeyCompareTo) == Success(-Sign(x.IntValue - y.IntValue))
  {
  }

  /** Comparing by two aspects: the first decides unless it ties. */
  lemma CompareByTwo(a: ClassForComparing, b: ClassForComparing,
                     f: ClassForComparing -> Nullable<Key>, g: ClassForComparing -> Nullable<Key>)
    ensures Compare(a, b, [f]) == CompareAspect(a, b, f, KeyCompareTo)
    ensures Compare(a, b, [f, g]) ==
      var c := CompareAspect(a, b, f, KeyCompareTo);
      if c != Success(0) then c else CompareAspect(a, b, g, KeyCompareTo)
  {
    assert [f][1..] == [] && [g][1..] == [];
    assert CompareByAspects(a, b, [g], KeyCompareTo) == CompareAspect(a, b, g, KeyCompareTo);
    assert [f, g][1..] == [g];
  }

  /** `TestCompare`: equal strings tie; "abc" comes before "xyz" ascending and
      after it descending; on a tie of the strings, the integer decides, and
      descending reverses it. */
  lemma TestCompare()
    ensures Compare(ObjA, ObjB, [ByString]) == Success(0)
    ensures Compare(ObjA, ObjC, [ByString]) == Success(-1)
    ensures Compare(ObjA, ObjC, [ByStringDesc]) == Success(1)
    ensures Compare(ObjA, ObjB, [ByString, ByInt]) == Success(-1)
    ensures Compare(ObjA, ObjB, [ByString, ByIntAsc]) == Success(-1)
    ensures Compare(ObjA, ObjB, [ByString, ByIntDesc]) == Success(1)
  {
    assert CompareOrdinal("abc", "xyz") == -1;
    AspectOutcomes(ObjA, ObjB);
    AspectOutcomes(ObjA, ObjC);
    CompareByTwo(ObjA, ObjB, ByString, ByInt);
    CompareByTwo(ObjA, ObjC, ByString, ByInt);
    CompareByTwo(ObjA, ObjC, ByStringDesc, ByInt);
    CompareByTwo(ObjA, ObjB, ByString, ByIntAsc);
    CompareByTwo(ObjA, ObjB, ByString, ByIntDesc);
  }

  function Ids(xs: seq<ClassForComparing>): seq<int>
  {
    seq(|xs|, i requires 0 <= i < |xs| => xs[i].ID)
  }

  const AllAscending := GenericComparer(NonNull([ByString, ByInt]))
  const StringDescending := GenericComparer(NonNull([ByStringDesc, ByInt]))
  const AllDescending := GenericComparer(NonNull([ByStringDesc, ByIntDesc]))

  /** Four objects, each comparing as less than every later one by a comparer
      with two aspects, are strictly ordered by it. */
  lemma StrictlySortedFour(f: ClassForComparing -> Nullable<Key>, g: ClassForComparing -> Nullable<Key>,
                           w: ClassForComparing, x: ClassForComparing, y: ClassForComparing, z: ClassForComparing)
    requires Less(Compare(w, x, [f, g])) && Less(Compare(w, y, [f, g])) && Less(Compare(w, z, [f, g]))
    requires Less(Compare(x, y, [f, g])) && Less(Compare(x, z, [f, g])) && Less(Compare(y, z, [f, g]))
    ensures StrictlySortedBy([w, x, y, z], GenericComparer(NonNull([f, g])), KeyCompareTo)
  {
    var comparer := GenericComparer(NonNull([f, g]));
    var xs := [w, x, y, z];
    forall i, j | 0 <= i < j < |xs|
      ensures Less(comparer.Compare(NonNull(xs[i]), NonNull(xs[j]), KeyCompareTo))
    {
      assert comparer.Compare(NonNull(xs[i]), NonNull(xs[j]), KeyCompareTo) == Compare(xs[i], xs[j], [f, g]);
      if i == 0 {
        assert xs[i] == w && (xs[j] == x || xs[j] == y || xs[j] == z);
      } else if i == 1 {
        assert xs[i] == x && (xs[j] == y || xs[j] == z);
      } else {
        assert xs[i] == y && xs[j] == z;
      }
    }
  }

  /** The sort of `TestSorting`, for one comparer: the only arrangement of the
      four objects that the comparer finds in order is `expected`. */
  lemma SortsTo(comparer: GenericComparer<ClassForComparing, Key>, expected: seq<ClassForComparing>,
                sorted: seq<ClassForComparing>)
    requires multiset(sorted) == multiset(expected)
    requires StrictlySortedBy(expected, comparer, KeyCompareTo)
    requires SortedBy(sorted, comparer, KeyCompareTo)
    ensures sorted == expected
  {
    KeyCompareToAntisymmetric();
    SortedOrderIsUnique(expected, sorted, comparer, KeyCompareTo);
  }

  /** The three expected orders are arrangements of the test's list. */
  lemma ExpectedOrdersArePermutations()
    ensures multiset([ObjC, ObjD, ObjA, ObjB]) == multiset([ObjA, ObjB, ObjC, ObjD])
    ensures multiset([ObjD, ObjC, ObjB, ObjA]) == multiset([ObjA, ObjB, ObjC, ObjD])
  {
    assert multiset([ObjC, ObjD, ObjA, ObjB]) == multiset{ObjA, ObjB, ObjC, ObjD};
    assert multiset([ObjD, ObjC, ObjB, ObjA]) == multiset{ObjA, ObjB, ObjC, ObjD};
  }

  /** The IDs of the three expected orders. */
  lemma ExpectedIds()
    ensures Ids([ObjA, ObjB, ObjC, ObjD]) == [1, 2, 3, 4]
    ensures Ids([ObjC, ObjD, ObjA, ObjB]) == [3, 4, 1, 2]
    ensures Ids([ObjD, ObjC, ObjB, ObjA]) == [4, 3, 2, 1]
  {
  }

  /** The comparers order the expected lists strictly. */
  lemma AllAscendingOrdersExpected()
    ensures StrictlySortedBy([ObjA, ObjB, ObjC, ObjD], AllAscending, KeyCompareTo)
  {
    assert Less(Compare(ObjA, ObjB, [ByString, ByInt])) by {
      assert CompareOrdinal("abc", "xyz") == -1;
      AspectOutcomes(ObjA, ObjB);
      CompareByTwo(ObjA, ObjB, ByString, ByInt);
    }
    assert Less(Compare(ObjA, ObjC, [ByString, ByInt])) by {
      assert CompareOrdinal("abc", "xyz") == -1;
      AspectOutcomes(ObjA, ObjC);
      CompareByTwo(ObjA, ObjC, ByString, ByInt);
    }
    assert Less(Compare(ObjA, ObjD, [ByString, ByInt])) by {
      assert CompareOrdinal("abc", "xyz") == -1;
      AspectOutcomes(ObjA, ObjD);
      CompareByTwo(ObjA, ObjD, ByString, ByInt);
    }
    assert Less(Compare(ObjB, ObjC, [ByString, ByInt])) by {
      assert CompareOrdinal("abc", "xyz") == -1;
      AspectOutcomes(ObjB, ObjC);
      CompareByTwo(ObjB, ObjC, ByString, ByInt);
    }
    assert Less(Compare(ObjB, ObjD, [ByString, ByInt])) by {
      assert CompareOrdinal("abc", "xyz") == -1;
      AspectOutcomes(ObjB, ObjD);
      CompareByTwo(ObjB, ObjD, ByString, ByInt);
    }
    assert Less(Compare(ObjC, ObjD, [ByString, ByInt])) by {
      assert CompareOrdinal("abc", "xyz") == -1;
      AspectOutcomes(ObjC, ObjD);
      CompareByTwo(ObjC, ObjD, ByString, ByInt);
    }
    StrictlySortedFour(ByString, ByInt, ObjA, ObjB, ObjC, ObjD);
  }

  lemma StringDescendingOrdersExpected()
    ensures StrictlySortedBy([ObjC, ObjD, ObjA, ObjB], StringDescending, KeyCompareTo)
  {
    assert Less(Compare(ObjC, ObjD, [ByStringDesc, ByInt])) by {
      assert CompareOrdinal("xyz", "abc") == 1;
      AspectOutcomes(ObjC, ObjD);
      CompareByTwo(ObjC, ObjD, ByStringDesc, ByInt);
    }
    assert Less(Compare(ObjC, ObjA, [ByStringDesc, ByInt])) by {
      assert CompareOrdinal("xyz", "abc") == 1;
      AspectOutcomes(ObjC, ObjA);
      CompareByTwo(ObjC, ObjA, ByStringDesc, ByInt);
    }
    assert Less(Compare(ObjC, ObjB, [ByStringDesc, ByInt])) by {
      assert CompareOrdinal("xyz", "abc") == 1;
      AspectOutcomes(ObjC, ObjB);
      CompareByTwo(ObjC, ObjB, ByStringDesc, ByInt);
    }
    assert Less(Compare(ObjD, ObjA, [ByStringDesc, ByInt])) by {
      assert CompareOrdinal("xyz", "abc") == 1;
      AspectOutcomes(ObjD, ObjA);
      CompareByTwo(ObjD, ObjA, ByStringDesc, ByInt);
    }
    assert Less(Compare(ObjD, ObjB, [ByStringDesc, ByInt])) by {
      assert CompareOrdinal("xyz", "abc") == 1;
      AspectOutcomes(ObjD, ObjB);
      CompareByTwo(ObjD, ObjB, ByStringDesc, ByInt);
    }
    assert Less(Compare(ObjA, ObjB, [ByStringDesc, ByInt])) by {
      assert CompareOrdinal("xyz", "abc") == 1;
      AspectOutcomes(ObjA, ObjB);
      CompareByTwo(ObjA, ObjB, ByStringDesc, ByInt);
    }
    StrictlySortedFour(ByStringDesc, ByInt, ObjC, ObjD, ObjA, ObjB);
  }

  lemma AllDescendingOrdersExpected()
    ensures StrictlySortedBy([ObjD, ObjC, ObjB, ObjA], AllDescending, KeyCompareTo)
  {
    assert Less(Compare(ObjD, ObjC, [ByStringDesc, ByIntDesc])) by {
      assert CompareOrdinal("xyz", "abc") == 1;
      AspectOutcomes(ObjD, ObjC);
      CompareByTwo(ObjD, ObjC, ByStringDesc, ByIntDesc);
    }
    assert Less(Compare(ObjD, ObjB, [ByStringDesc, ByIntDesc])) by {
      assert CompareOrdinal("xyz", "abc") == 1;
      AspectOutcomes(ObjD, ObjB);
      CompareByTwo(ObjD, ObjB, ByStringDesc, ByIntDesc);
    }
    assert Less(Compare(ObjD, ObjA, [ByStringDesc, ByIntDesc])) by {
      assert CompareOrdinal("xyz", "abc") == 1;
      AspectOutcomes(ObjD, ObjA);
      CompareByTwo(ObjD, ObjA, ByStringDesc, ByIntDesc);
    }
    assert Less(Compare(ObjC, ObjB, [ByStringDesc, ByIntDesc])) by {
      assert CompareOrdinal("xyz", "abc") == 1;
      AspectOutcomes(ObjC, ObjB);
      CompareByTwo(ObjC, ObjB, ByStringDesc, ByIntDesc);
    }
    assert Less(Compare(ObjC, ObjA, [ByStringDesc, ByIntDesc])) by {
      assert CompareOrdinal("xyz", "abc") == 1;
      AspectOutcomes(ObjC, ObjA);
      CompareByTwo(ObjC, ObjA, ByStringDesc, ByIntDesc);
    }
    assert Less(Compare(ObjB, ObjA, [ByStringDesc, ByIntDesc])) by {
      assert CompareOrdinal("xyz", "abc") == 1;
      AspectOutcomes(ObjB, ObjA);
      CompareByTwo(ObjB, ObjA, ByStringDesc, ByIntDesc);
    }
    StrictlySortedFour(ByStringDesc, ByIntDesc, ObjD, ObjC, ObjB, ObjA);
  }

  /** Sorting the four objects by string then integer, both ascending, gives the
      IDs 1, 2, 3, 4: whatever arrangement of them is in order is that one. */
  lemma TestSortingAllAscending(sorted: seq<ClassForComparing>)
    requires multiset(sorted) == multiset([ObjA, ObjB, ObjC, ObjD])
    requires SortedBy(sorted, AllAscending, KeyCompareTo)
    ensures Ids(sorted) == [1, 2, 3, 4]
  {
    AllAscendingOrdersExpected();
    SortsTo(AllAscending, [ObjA, ObjB, ObjC, ObjD], sorted);
    ExpectedIds();
  }

  /** String descending, integer ascending: the IDs 3, 4, 1, 2. */
  lemma TestSortingStringDescending(sorted: seq<ClassForComparing>)
    requires multiset(sorted) == multiset([ObjA, ObjB, ObjC, ObjD])
    requires SortedBy(sorted, StringDescending, KeyCompareTo)
    ensures Ids(sorted) == [3, 4, 1, 2]
  {
    StringDescendingOrdersExpected();
    ExpectedOrdersArePermutations();
    SortsTo(StringDescending, [ObjC, ObjD, ObjA, ObjB], sorted);
    ExpectedIds();
  }

  /** Both descending: the IDs 4, 3, 2, 1. */
  lemma TestSortingAllDescending(sorted: seq<ClassForComparing>)
    requires multiset(sorted) == multiset([ObjA, ObjB, ObjC, ObjD])
    requires SortedBy(sorted, AllDescending, KeyCompareTo)
    ensures Ids(sorted) == [4, 3, 2, 1]
  {
    AllDescendingOrdersExpected();
    ExpectedOrdersArePermutations();
    SortsTo(AllDescending, [ObjD, ObjC, ObjB, ObjA], sorted);
    ExpectedIds();
  }
}
