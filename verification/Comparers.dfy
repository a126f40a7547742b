/** `GenericComparer<T>`: an `IComparer<T>` built from a fixed list of aspects,
    comparing by `CompareToByAspects`. */
module Comparers {
  import opened DotNet
  import opened ComparingExtensions

  /** The comparer; its aspect array is fixed when it is built. */
  datatype GenericComparer<!T, C> = GenericComparer(comparingMethods: Nullable<seq<T -> Nullable<C>>>)
  {
    /** `Compare(x, y)`: `x.CompareToByAspects(y, comparingMethods)`. */
    function Compare(x: Nullable<T>, y: Nullable<T>, compareTo: (C, C) -> Result<int32, Exception>)
      : (r: Result<int32, Exception>)
      ensures r == CompareToByAspects(x, y, comparingMethods, compareTo)
    {
      CompareToByAspects(x, y, comparingMethods, compareTo)
    }
  }

  /** `xs` is in order: every element compares as not greater than every later one. */
  ghost predicate SortedBy<T, C>(xs: seq<T>, comparer: GenericComparer<T, C>,
                                 compareTo: (C, C) -> Result<int32, Exception>)
  {
    forall i, j | 0 <= i < j < |xs| :: NotGreater(comparer.Compare(NonNull(xs[i]), NonNull(xs[j]), compareTo))
  }

  /** `xs` is in strict order: every element compares as less than every later one. */
  ghost predicate StrictlySortedBy<T, C>(xs: seq<T>, comparer: GenericComparer<T, C>,
                                         compareTo: (C, C) -> Result<int32, Exception>)
  {
    forall i, j | 0 <= i < j < |xs| :: Less(comparer.Compare(NonNull(xs[i]), NonNull(xs[j]), compareTo))
  }

  /** With antisymmetric keys the comparer is antisymmetric, as `IComparer<T>` asks. */
  lemma CompareAntisymmetric<T, C(!new)>(comparer: GenericComparer<T, C>, x: Nullable<T>, y: Nullable<T>,
                                         compareTo: (C, C) -> Result<int32, Exception>)
    requires Antisymmetric(compareTo)
    ensures Opposite(comparer.Compare(x, y, compareTo), comparer.Compare(y, x, compareTo))
  {
    CompareToByAspectsAntisymmetric(x, y, comparer.comparingMethods, compareTo);
  }

  /** The first element of a strictly ordered `xs` comes first in any ordered
      arrangement `ys` of the same elements. */
  lemma LeastComesFirst<T, C(!new)>(xs: seq<T>, ys: seq<T>, comparer: GenericComparer<T, C>,
                                    compareTo: (C, C) -> Result<int32, Exception>)
    requires Antisymmetric(compareTo)
    requires xs != [] && multiset(xs) == multiset(ys)
    requires StrictlySortedBy(xs, comparer, compareTo)
    requires SortedBy(ys, comparer, compareTo)
    ensures ys != [] && xs[0] == ys[0]
  {
    assert xs[0] in multiset(ys);
    var k :| 0 <= k < |ys| && ys[k] == xs[0];
    assert ys[0] in multiset(xs);
    var m :| 0 <= m < |xs| && xs[m] == ys[0];
    if 0 < k && 0 < m {
      // xs puts xs[0] strictly before ys[0]; ys puts ys[0] no later than xs[0].
      assert Less(comparer.Compare(NonNull(xs[0]), NonNull(xs[m]), compareTo));
      assert NotGreater(comparer.Compare(NonNull(ys[0]), NonNull(ys[k]), compareTo));
      CompareAntisymmetric(comparer, NonNull(xs[0]), NonNull(ys[0]), compareTo);
      assert false;
    }
  }

  /** Dropping the first element keeps a sequence ordered. */
  lemma TailsStaySorted<T, C>(xs: seq<T>, comparer: GenericComparer<T, C>,
                              compareTo: (C, C) -> Result<int32, Exception>)
    requires xs != []
    ensures SortedBy(xs, comparer, compareTo) ==> SortedBy(xs[1..], comparer, compareTo)
    ensures StrictlySortedBy(xs, comparer, compareTo) ==> StrictlySortedBy(xs[1..], comparer, compareTo)
  {
    assert forall i | 0 <= i < |xs[1..]| :: xs[1..][i] == xs[i + 1];
  }

  /** A strictly ordered sequence is the only ordered arrangement of its
      elements: any sort that orders the same elements by this comparer
      produces exactly `xs`, whatever algorithm it uses. */
  lemma {:induction false} SortedOrderIsUnique<T, C(!new)>(xs: seq<T>, ys: seq<T>, comparer: GenericComparer<T, C>,
                                                          compareTo: (C, C) -> Result<int32, Exception>)
    requires Antisymmetric(compareTo)
    requires multiset(xs) == multiset(ys)
    requires StrictlySortedBy(xs, comparer, compareTo)
    requires SortedBy(ys, comparer, compareTo)
    ensures xs == ys
  {
    if xs == [] {
      assert |ys| == |multiset(ys)| == 0;
    } else {
      LeastComesFirst(xs, ys, comparer, compareTo);
      assert xs == [xs[0]] + xs[1..] && ys == [ys[0]] + ys[1..];
      assert multiset(xs[1..]) == multiset(xs) - multiset{xs[0]};
      assert multiset(ys[1..]) == multiset(ys) - multiset{ys[0]};
      TailsStaySorted(xs, comparer, compareTo);
      TailsStaySorted(ys, comparer, compareTo);
      SortedOrderIsUnique(xs[1..], ys[1..], comparer, compareTo);
    }
  }
}
