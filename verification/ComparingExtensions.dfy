/** `CompareToByAspects`: compare two objects aspect by aspect, where each aspect
    extracts a key (`Func<T, IComparable>`) and the first aspect on which the two
    objects differ decides. The keys' own `CompareTo` is foreign code and is a
    parameter here, `compareTo(x, y)` standing for `x.CompareTo(y)`. */
module ComparingExtensions {
  import opened DotNet

  /** One turn of the loop: two null keys tie (the loop goes on), a null key
      sorts after a present one, and two present keys are compared by
      `compareTo`, whose result (or exception) is passed on as it is. */
  function CompareAspect<T, C>(a: T, b: T, aspect: T -> Nullable<C>,
                               compareTo: (C, C) -> Result<int32, Exception>): (r: Result<int32, Exception>)
    ensures aspect(a).Null? && aspect(b).Null? ==> r == Success(0)
    ensures aspect(a).Null? != aspect(b).Null? ==> r == Success(if aspect(a).Null? then 1 else -1)
    ensures aspect(a).NonNull? && aspect(b).NonNull? ==> r == compareTo(aspect(a).value, aspect(b).value)
  {
    var keyA := aspect(a);
    var keyB := aspect(b);
    if keyA.Null? && keyB.Null? then Success(0)
    else if keyB.Null? then Success(-1)
    else if keyA.Null? then Success(1)
    else compareTo(keyA.value, keyB.value)
  }

  /** The loop over the aspects of two non-null objects: the first aspect that
      does not tie decides; when every aspect ties the objects are equal. */
  function CompareByAspects<T, C>(a: T, b: T, aspects: seq<T -> Nullable<C>>,
                                  compareTo: (C, C) -> Result<int32, Exception>): (r: Result<int32, Exception>)
    ensures r == Success(0) <==>
      forall i | 0 <= i < |aspects| :: CompareAspect(a, b, aspects[i], compareTo) == Success(0)
  {
    if aspects == [] then Success(0)
    else
      var c := CompareAspect(a, b, aspects[0], compareTo);
      if c != Success(0) then c
      else
        var r := CompareByAspects(a, b, aspects[1..], compareTo);
        assert forall i | 1 <= i < |aspects| :: aspects[i] == aspects[1..][i - 1];
        r
  }

  /** `a.CompareToByAspects(b, comparingMethods)`. A null aspect array throws
      `ArgumentNullException`; null objects are ordered before any aspect is
      looked at (two nulls are equal, a null sorts after a non-null); otherwise
      the aspects decide. */
  function CompareToByAspects<T, C>(a: Nullable<T>, b: Nullable<T>, comparingMethods: Nullable<seq<T -> Nullable<C>>>,
                                    compareTo: (C, C) -> Result<int32, Exception>): (r: Result<int32, Exception>)
    ensures comparingMethods.Null? ==> r == Failure(ArgumentNullException)
    ensures comparingMethods.NonNull? && a.Null? ==> r == Success(if b.Null? then 0 else 1)
    ensures comparingMethods.NonNull? && a.NonNull? && b.Null? ==> r == Success(-1)
    ensures comparingMethods.NonNull? && a.NonNull? && b.NonNull? ==>
      (r == Success(0) <==>
       forall i | 0 <= i < |comparingMethods.value| ::
         CompareAspect(a.value, b.value, comparingMethods.value[i], compareTo) == Success(0))
  {
    if comparingMethods.Null? then Failure(ArgumentNullException)
    else if a.Null? && b.Null? then Success(0)
    else if b.Null? then Success(-1)
    else if a.Null? then Success(1)
    else CompareByAspects(a.value, b.value, comparingMethods.value, compareTo)
  }

  /** The result is the outcome of the first aspect that does not tie, returned
      verbatim; with no such aspect it is 0. */
  lemma {:induction false} FirstDecisiveAspect<T, C>(a: T, b: T, aspects: seq<T -> Nullable<C>>,
                                                    compareTo: (C, C) -> Result<int32, Exception>)
    ensures var r := CompareByAspects(a, b, aspects, compareTo);
      r == Success(0) ||
      exists k | 0 <= k < |aspects| ::
        r == CompareAspect(a, b, aspects[k], compareTo) &&
        forall j | 0 <= j < k :: CompareAspect(a, b, aspects[j], compareTo) == Success(0)
  {
    if aspects != [] && CompareAspect(a, b, aspects[0], compareTo) == Success(0) {
      var r := CompareByAspects(a, b, aspects[1..], compareTo);
      FirstDecisiveAspect(a, b, aspects[1..], compareTo);
      if r != Success(0) {
        var k :| 0 <= k < |aspects[1..]| &&
          r == CompareAspect(a, b, aspects[1..][k], compareTo) &&
          forall j | 0 <= j < k :: CompareAspect(a, b, aspects[1..][j], compareTo) == Success(0);
        assert forall j | 1 <= j < k + 1 :: aspects[j] == aspects[1..][j - 1];
        assert r == CompareAspect(a, b, aspects[k + 1], compareTo);
      }
    }
  }

  /** Comparing by `xs` then `ys` is comparing by `xs`, and only on a tie by `ys`:
      the aspects after a deciding one are never consulted. */
  lemma {:induction false} CompareConcatenated<T, C>(a: T, b: T, xs: seq<T -> Nullable<C>>, ys: seq<T -> Nullable<C>>,
                                                    compareTo: (C, C) -> Result<int32, Exception>)
    ensures CompareByAspects(a, b, xs + ys, compareTo) ==
      var r := CompareByAspects(a, b, xs, compareTo);
      if r == Success(0) then CompareByAspects(a, b, ys, compareTo) else r
  {
    if xs == [] {
      assert xs + ys == ys;
    } else {
      assert (xs + ys)[0] == xs[0];
      assert (xs + ys)[1..] == xs[1..] + ys;
      CompareConcatenated(a, b, xs[1..], ys, compareTo);
    }
  }

  /** With antisymmetric keys, one aspect is antisymmetric. */
  lemma CompareAspectAntisymmetric<T, C(!new)>(a: T, b: T, aspect: T -> Nullable<C>,
                                         compareTo: (C, C) -> Result<int32, Exception>)
    requires Antisymmetric(compareTo)
    ensures Opposite(CompareAspect(a, b, aspect, compareTo), CompareAspect(b, a, aspect, compareTo))
  {
    var keyA, keyB := aspect(a), aspect(b);
    if keyA.NonNull? && keyB.NonNull? {
      assert Opposite(compareTo(keyA.value, keyB.value), compareTo(keyB.value, keyA.value));
    }
  }

  /** With antisymmetric keys, comparing `a` to `b` mirrors comparing `b` to `a`:
      both throw, or their signs are opposite. */
  lemma {:induction false} CompareByAspectsAntisymmetric<T, C(!new)>(a: T, b: T, aspects: seq<T -> Nullable<C>>,
                                                              compareTo: (C, C) -> Result<int32, Exception>)
    requires Antisymmetric(compareTo)
    ensures Opposite(CompareByAspects(a, b, aspects, compareTo), CompareByAspects(b, a, aspects, compareTo))
  {
    if aspects != [] {
      CompareAspectAntisymmetric(a, b, aspects[0], compareTo);
      CompareByAspectsAntisymmetric(a, b, aspects[1..], compareTo);
    }
  }

  /** With antisymmetric keys, `CompareToByAspects` is antisymmetric, null objects included. */
  lemma CompareToByAspectsAntisymmetric<T, C(!new)>(a: Nullable<T>, b: Nullable<T>, comparingMethods: Nullable<seq<T -> Nullable<C>>>,
                                              compareTo: (C, C) -> Result<int32, Exception>)
    requires Antisymmetric(compareTo)
    ensures Opposite(CompareToByAspects(a, b, comparingMethods, compareTo),
                     CompareToByAspects(b, a, comparingMethods, compareTo))
  {
    if comparingMethods.NonNull? && a.NonNull? && b.NonNull? {
      CompareByAspectsAntisymmetric(a.value, b.value, comparingMethods.value, compareTo);
    }
  }

  /** When every key equals itself, every object equals itself. */
  lemma {:induction false} CompareToByAspectsReflexive<T, C(!new)>(a: Nullable<T>, comparingMethods: seq<T -> Nullable<C>>,
                                                            compareTo: (C, C) -> Result<int32, Exception>)
    requires Reflexive(compareTo)
    ensures CompareToByAspects(a, a, NonNull(comparingMethods), compareTo) == Success(0)
  {
    if a.NonNull? {
      forall i | 0 <= i < |comparingMethods|
        ensures CompareAspect(a.value, a.value, comparingMethods[i], compareTo) == Success(0)
      {
        var key := comparingMethods[i](a.value);
        if key.NonNull? {
          assert compareTo(key.value, key.value) == Success(0);
        }
      }
    }
  }
}
