/** `CaseInsensitiveString`: a string that keeps its text as given but compares,
    and hashes, without regard to case. Case folding is ASCII only here: `a`-`z`
    against `A`-`Z`. */
module CaseInsensitive {
  import opened DotNet

  /** Upper-casing of one character (ASCII letters only). */
  function ToUpperChar(c: char): char
  {
    if 'a' <= c <= 'z' then (c as int - 32) as char else c
  }

  /** `String.ToUpper()`: every character upper-cased, the length kept. */
  function ToUpper(s: string): (r: string)
    ensures |r| == |s|
    ensures forall i | 0 <= i < |s| :: r[i] == ToUpperChar(s[i])
  {
    if s == [] then [] else [ToUpperChar(s[0])] + ToUpper(s[1..])
  }

  /** `string.Equals(a, b, StringComparison.OrdinalIgnoreCase)`: same length, and
      character by character equal once both are upper-cased. */
  function EqualsIgnoreCase(a: string, b: string): (r: bool)
    ensures r <==> |a| == |b| && forall i | 0 <= i < |a| :: ToUpperChar(a[i]) == ToUpperChar(b[i])
  {
    if |a| != |b| then false
    else if a == [] then true
    else
      var rest := EqualsIgnoreCase(a[1..], b[1..]);
      assert forall i | 1 <= i < |a| :: a[i] == a[1..][i - 1] && b[i] == b[1..][i - 1];
      ToUpperChar(a[0]) == ToUpperChar(b[0]) && rest
  }

  /** Comparing ignoring case is comparing the upper-cased texts. */
  lemma {:induction false} EqualsIgnoreCaseIsSameUpper(a: string, b: string)
    ensures EqualsIgnoreCase(a, b) <==> ToUpper(a) == ToUpper(b)
  {
    if |a| == |b| && a != [] {
      EqualsIgnoreCaseIsSameUpper(a[1..], b[1..]);
      assert ToUpper(a) == [ToUpperChar(a[0])] + ToUpper(a[1..]);
      assert ToUpper(b) == [ToUpperChar(b[0])] + ToUpper(b[1..]);
      if ToUpper(a) == ToUpper(b) {
        assert ToUpper(a)[1..] == ToUpper(a[1..]);
        assert ToUpper(b)[1..] == ToUpper(b[1..]);
      }
    }
  }

  /** Upper-casing distributes over concatenation. */
  lemma {:induction false} ToUpperConcat(a: string, b: string)
    ensures ToUpper(a + b) == ToUpper(a) + ToUpper(b)
  {
    if a != [] {
      assert (a + b)[1..] == a[1..] + b;
      ToUpperConcat(a[1..], b);
    } else {
      assert a + b == b;
    }
  }

  datatype CaseInsensitiveString = CaseInsensitiveString(Value: string)
  {
    /** `ToString()`: the text as it was given. */
    function ToString(): (r: string)
      ensures r == Value
    {
      Value
    }

    /** `GetHashCode()`: the string hash of the upper-cased text. The string
        hash itself is the runtime's and is a parameter. Every instance equal to
        this one would give the same hash. */
    function GetHashCode(stringHash: string -> int32): (r: int32)
      ensures forall other: CaseInsensitiveString :: Equals(other) ==> r == stringHash(ToUpper(other.Value))
    {
      stringHash(ToUpper(Value))
    }

    /** `Equals(obj)`: the two texts are equal ignoring case. */
    function Equals(obj: CaseInsensitiveString): (r: bool)
      ensures r <==> ToUpper(Value) == ToUpper(obj.Value)
    {
      EqualsIgnoreCaseIsSameUpper(Value, obj.Value);
      EqualsIgnoreCase(Value, obj.Value)
    }
  }

  /** `s1 == s2`: agrees with `Equals`, and so ignores case. */
  function OpEquality(s1: CaseInsensitiveString, s2: CaseInsensitiveString): (r: bool)
    ensures r == s1.Equals(s2)
    ensures r <==> ToUpper(s1.Value) == ToUpper(s2.Value)
  {
    s1.Equals(s2)
  }

  /** `s1 != s2`: the negation of `==`. */
  function OpInequality(s1: CaseInsensitiveString, s2: CaseInsensitiveString): (r: bool)
    ensures r == !OpEquality(s1, s2)
    ensures r <==> ToUpper(s1.Value) != ToUpper(s2.Value)
  {
    !s1.Equals(s2)
  }

  /** `s1 + s2` for two case-insensitive strings: the texts joined with their
      case kept, whose upper-cased form joins the upper-cased operands. */
  function Concat(s1: CaseInsensitiveString, s2: CaseInsensitiveString): (r: CaseInsensitiveString)
    ensures r.Value == s1.Value + s2.Value
    ensures ToUpper(r.Value) == ToUpper(s1.Value) + ToUpper(s2.Value)
  {
    ToUpperConcat(s1.Value, s2.Value);
    CaseInsensitiveString(s1.Value + s2.Value)
  }

  /** `s1 + s2` with a plain string on the right, which may be null: C# string
      concatenation reads a null string as "". */
  function ConcatString(s1: CaseInsensitiveString, s2: Nullable<string>): (r: CaseInsensitiveString)
    ensures s2.Null? ==> r == s1
    ensures s2.NonNull? ==> r == Concat(s1, CaseInsensitiveString(s2.value))
  {
    match s2
    case Null => assert s1.Value + "" == s1.Value; CaseInsensitiveString(s1.Value + "")
    case NonNull(t) => CaseInsensitiveString(s1.Value + t)
  }

  /** `s1 + s2` with a plain string on the left, which may be null. */
  function StringConcat(s1: Nullable<string>, s2: CaseInsensitiveString): (r: CaseInsensitiveString)
    ensures s1.Null? ==> r == s2
    ensures s1.NonNull? ==> r == Concat(CaseInsensitiveString(s1.value), s2)
  {
    match s1
    case Null => assert "" + s2.Value == s2.Value; CaseInsensitiveString("" + s2.Value)
    case NonNull(t) => CaseInsensitiveString(t + s2.Value)
  }

  /** The text goes in and comes out unchanged, case included, while equality
      ignores it: "Abc" keeps its capital yet equals "aBC". */
  lemma TextKeepsItsCase(s: string)
    ensures CaseInsensitiveString(s).Value == s && CaseInsensitiveString(s).ToString() == s
    ensures CaseInsensitiveString("Abc").ToString() == "Abc"
    ensures CaseInsensitiveString("Abc").Equals(CaseInsensitiveString("aBC"))
    ensures !CaseInsensitiveString("Abc").Equals(CaseInsensitiveString("Abd"))
  {
    assert ToUpper("Abc") == "ABC";
    assert ToUpper("aBC") == "ABC";
    assert ToUpper("Abd")[2] == 'D';
  }

  /** `Equals` is an equivalence: reflexive, symmetric and transitive. */
  lemma EqualsIsEquivalence(a: CaseInsensitiveString, b: CaseInsensitiveString, c: CaseInsensitiveString)
    ensures a.Equals(a)
    ensures a.Equals(b) ==> b.Equals(a)
    ensures a.Equals(b) && b.Equals(c) ==> a.Equals(c)
  {
  }

  /** Equal instances have equal hash codes, whatever the string hash is. */
  lemma EqualsImpliesEqualHash(a: CaseInsensitiveString, b: CaseInsensitiveString, stringHash: string -> int32)
    ensures a.Equals(b) ==> a.GetHashCode(stringHash) == b.GetHashCode(stringHash)
  {
  }

  /** All three `+` operators concatenate the texts with their case kept, and
      concatenating equal operands gives equal results. */
  lemma ConcatKeepsText(a: CaseInsensitiveString, b: CaseInsensitiveString,
                        a': CaseInsensitiveString, b': CaseInsensitiveString, s: string)
    ensures Concat(a, b).Value == a.Value + b.Value
    ensures ConcatString(a, NonNull(s)).Value == a.Value + s
    ensures StringConcat(NonNull(s), b).Value == s + b.Value
    ensures ConcatString(a, Null) == a && StringConcat(Null, b) == b
    ensures a.Equals(a') && b.Equals(b') ==> Concat(a, b).Equals(Concat(a', b'))
  {
  }
}
