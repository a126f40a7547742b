# YaronThurm.Lib in Dafny

A model of the core of the `YaronThurm.Lib` C# library, with proofs about it:

- **`GenericCache<TKey, TItem>`** (`Cache.dfy`): an expiring keyed cache. A dictionary maps each key to an entry. An entry holds an item, which may be null, and an expiration marker. The marker is a deadline plus a one-way "expired manually" flag. `GetItem` returns a fresh stored item. Otherwise it calls the loader, asks the expiration policy for a deadline, and stores the result. `SetItem` inserts or replaces an entry. When the count then exceeds `MaxCacheSize`, it wipes the dictionary and keeps only the new entry. `RevokeItem` flags one entry as expired, and `RevokeAll` empties the cache. The cache is a class. Its dictionary is a `map` field that the methods reassign. Each method is proved against a pure function of the old dictionary (`Fetched`, `Stored`, `Revoked`), and the lemmas state the cache's properties about those functions. A ghost field `loads` records every call to the loader, so the contracts can say when the loader runs.
- **`CompareToByAspects`** (`ComparingExtensions.dfy`): lexicographic comparison by a list of key extractors ("aspects"), with explicit rules for null objects and null keys.
- **`OrderedComparable`** (`Ordering.dfy`): wraps a value with a direction, Asc or Desc. Desc negates the inner comparison. The negation is C#'s unchecked 32-bit negation, so `int.MinValue` stays `int.MinValue`.
- **`GenericComparer<T>`** (`Comparers.dfy`): an `IComparer<T>` that delegates to `CompareToByAspects`.
- **`CaseInsensitiveString`** (`CaseInsensitive.dfy`): equality and hashing ignore case, while the text is kept exactly as given.
- `UnitTests.dfy` restates the expected results of the repository's unit tests. Each sort test is proved for every correct sort: the expected list is the only arrangement of the four objects that the comparer finds in order.
- `DotNet.dfy` holds the runtime notions the model needs: nullable references, `Result` for calls that may throw, the exception kinds, and the 32-bit `int32` type of comparison results.

Inputs from outside the library are parameters:
- the clock (`now`, in ticks);
- the subclass's `LoadItemImpl` and `GetExpiration`;
- the keys' own `IComparable.CompareTo`;
- the runtime's `string.GetHashCode`.

`IsExpired` (`GenericCache.cs:76`) uses a strict `<`, so an entry whose deadline equals `now` is still fresh. `NewMarkerExpiresAfterDeadline` states it.

## Model

| member | source | states |
|---|---|---|
| `Cache.ExpirationInformation.IsExpired` | YaronThurm.Lib/GenericCache.cs:72-79 | a revoked marker is always expired; an unrevoked one is expired iff its deadline is strictly before `now` |
| `Cache.ExpirationInformation.SetToExpire` | YaronThurm.Lib/GenericCache.cs:67-70 | the marker becomes revoked and keeps its deadline |
| `Cache.NewExpirationInformation` | YaronThurm.Lib/GenericCache.cs:62-65 | a new marker holds the given deadline and is not revoked |
| `Cache.ExpiryIsMonotone` | YaronThurm.Lib/GenericCache.cs:72-79 | a marker expired at `now` is expired at every later time |
| `Cache.NewMarkerExpiresAfterDeadline` | YaronThurm.Lib/GenericCache.cs:62-79 | a new marker is not revoked; it is expired at `now` iff its deadline is strictly before `now`, so it is still fresh at its deadline |
| `Cache.RevokedMarkerIsExpired` | YaronThurm.Lib/GenericCache.cs:67-79 | after `SetToExpire` the marker is expired at every time and keeps its deadline; a second `SetToExpire` changes nothing |
| `Cache.GenericCache.constructor` | YaronThurm.Lib/GenericCache.cs:50-52 | a new cache is empty, its `MaxCacheSize` is `int.MaxValue`, and the loader has not run |
| `Cache.GenericCache.MaxCacheSize` | YaronThurm.Lib/GenericCache.cs:190-192 | the getter of `MaxCacheSize` returns the 32-bit field |
| `Cache.GenericCache.SetMaxCacheSize` | YaronThurm.Lib/GenericCache.cs:190-194 | the setter of `MaxCacheSize` changes that value and nothing else |
| `Cache.GenericCache.GetItem` | YaronThurm.Lib/GenericCache.cs:96-127 | on a fresh non-null hit: returns the stored item, the dictionary is unchanged, the loader is not called. Otherwise: returns what the loader returns and records one loader call; a failed load leaves the dictionary unchanged; a successful load leaves it as `SetItem` with the policy's deadline would |
| `Cache.GenericCache.SetItem` | YaronThurm.Lib/GenericCache.cs:129-153 | the key maps to the new entry, which is not revoked. Afterwards the count is within `MaxCacheSize`, or the new key is the only key. A cache within a maximum of at least one stays within it |
| `Cache.GenericCache.RevokeItem` | YaronThurm.Lib/GenericCache.cs:155-175 | the set of keys is unchanged; a present key's entry is flagged expired and keeps its item; every other entry is unchanged |
| `Cache.GenericCache.RevokeAll` | YaronThurm.Lib/GenericCache.cs:177-188 | the dictionary is empty |
| `Cache.StoredBindsKey` | YaronThurm.Lib/GenericCache.cs:129-147 | after `SetItem`, the key maps to the item, the given deadline and a cleared flag, whether or not capacity was breached |
| `Cache.StoredWithinCapacity` | YaronThurm.Lib/GenericCache.cs:137-140 | when the new count is within `MaxCacheSize`: the keys are the old keys plus the new one, and every other key's entry is unchanged |
| `Cache.StoredPastCapacity` | YaronThurm.Lib/GenericCache.cs:142-147 | when the new count exceeds `MaxCacheSize`: the dictionary is exactly the single new entry |
| `Cache.StoredIsBounded` | YaronThurm.Lib/GenericCache.cs:137-147 | after any `SetItem`, the count is within `MaxCacheSize` or the dictionary is the single new entry; with a maximum of at least one it is always within |
| `Cache.BreachKeepsOnlyNewKey` | YaronThurm.Lib/GenericCache.cs:142-147 | storing a new key into a dictionary already holding `MaxCacheSize` entries leaves only that key |
| `Cache.RevokedFlagsOnlyKey` | YaronThurm.Lib/GenericCache.cs:162-169 | revoking a present key sets its flag and keeps its item, its deadline, all other entries and the set of keys |
| `Cache.RevokeAbsentAndTwice` | YaronThurm.Lib/GenericCache.cs:155-170 | revoking an absent key is a no-op; revoking is idempotent |
| `Cache.FetchedHit` | YaronThurm.Lib/GenericCache.cs:100-114 | a present, non-null, unexpired entry is returned as stored, without a load and without a change to the dictionary |
| `Cache.FetchedMiss` | YaronThurm.Lib/GenericCache.cs:117-124 | a missing, null, expired or revoked entry: the loader runs and its outcome is returned. On failure the dictionary is unchanged. On success the key maps to the loaded item, the policy's deadline and a cleared flag |
| `Cache.FetchedKeepsBound` | YaronThurm.Lib/GenericCache.cs:121-147 | `GetItem` keeps a dictionary within a maximum of at least one within that maximum |
| `Cache.HitAfterSet` | YaronThurm.Lib/GenericCache.cs:100-147 | a non-null item set with a deadline not before `now` is returned by `GetItem` without a load |
| `Cache.ReloadAfterExpiry` | YaronThurm.Lib/GenericCache.cs:100-147 | an entry set with a past deadline is reloaded; the reloaded non-null item is then a hit, with no further load, until the new deadline |
| `Cache.ReloadAfterRevoke` | YaronThurm.Lib/GenericCache.cs:100-170 | after `SetItem` then `RevokeItem`, `GetItem` loads even though the deadline has not passed |
| `Cache.RevokeLeavesOtherKeys` | YaronThurm.Lib/GenericCache.cs:155-170 | revoking one key changes neither the result nor the loading of `GetItem` for any other key |
| `Cache.ReloadAfterBreach` | YaronThurm.Lib/GenericCache.cs:121-147 | after a capacity breach, `GetItem` of any key other than the new one loads |
| `ComparingExtensions.CompareAspect` | YaronThurm.Lib/ComparingExtensions.cs:32-39 | one aspect: two null keys tie; a null key sorts after a present one (-1 when only `b`'s key is null, 1 when only `a`'s is); two present keys give the keys' own `CompareTo`, exception included |
| `ComparingExtensions.CompareByAspects` | YaronThurm.Lib/ComparingExtensions.cs:30-42 | the loop over the aspects returns 0 iff every aspect ties (two null keys count as a tie) |
| `ComparingExtensions.CompareToByAspects` | YaronThurm.Lib/ComparingExtensions.cs:21-43 | a null aspect array throws `ArgumentNullException`. Null objects come first in the checks: two nulls give 0, a null `b` gives -1, a null `a` gives 1. For two non-null objects the result is 0 iff every aspect ties |
| `ComparingExtensions.FirstDecisiveAspect` | YaronThurm.Lib/ComparingExtensions.cs:30-42 | the result is 0, or it is verbatim the outcome of an aspect before which every aspect ties |
| `ComparingExtensions.CompareConcatenated` | YaronThurm.Lib/ComparingExtensions.cs:30-42 | comparing by `xs ++ ys` gives the result of `xs`, unless that is 0, in which case it gives the result of `ys`; aspects after a deciding one are never consulted |
| `ComparingExtensions.CompareAspectAntisymmetric` | YaronThurm.Lib/ComparingExtensions.cs:32-39 | with antisymmetric keys, one aspect with its null-key rules is antisymmetric |
| `ComparingExtensions.CompareByAspectsAntisymmetric` | YaronThurm.Lib/ComparingExtensions.cs:30-42 | with antisymmetric keys, comparing `a` to `b` and `b` to `a` both throw, or give opposite signs |
| `ComparingExtensions.CompareToByAspectsAntisymmetric` | YaronThurm.Lib/ComparingExtensions.cs:21-43 | the same, with null objects and a null aspect array included |
| `ComparingExtensions.CompareToByAspectsReflexive` | YaronThurm.Lib/ComparingExtensions.cs:26-42 | when every key compares 0 to itself, every object compares 0 to itself |
| `Ordering.UncheckedNegate` | YaronThurm.Lib/OrderedComparable.cs:45 | the result plus the input is 0 modulo 2^32, as in two's complement negation, and it is the true negation except at `int.MinValue` |
| `Ordering.OrderedComparable.CompareTo` | YaronThurm.Lib/OrderedComparable.cs:34-46 | different directions throw `InvalidOperationException`. Asc returns the inner result exactly. Desc passes an inner exception through, and otherwise returns the 32-bit negation of the inner result |
| `Ordering.OrderedComparable.CompareToObject` | YaronThurm.Lib/OrderedComparable.cs:48-52 | the `object` overload gives the typed overload's result, or `InvalidCastException` when the argument is not an `OrderedComparable` |
| `Ordering.AscOf` | YaronThurm.Lib/OrderedComparable.cs:61-65 | `Asc(x)` wraps `x` in the ascending direction |
| `Ordering.DescOf` | YaronThurm.Lib/OrderedComparable.cs:55-59 | `Desc(x)` wraps `x` in the descending direction |
| `Ordering.AscAndDesc` | YaronThurm.Lib/OrderedComparable.cs:34-65 | `Asc(x)` against `Asc(y)` is `x.CompareTo(y)`. `Desc(x)` against `Desc(y)` has the opposite sign whenever the inner result is not `int.MinValue`. Mixing Asc and Desc throws |
| `Ordering.EqualItemsCompareEqual` | YaronThurm.Lib/OrderedComparable.cs:40-45 | inner items that compare 0 compare 0 in either direction |
| `Ordering.DescKeepsMinValue` | YaronThurm.Lib/OrderedComparable.cs:45 | an inner result of `int.MinValue` stays `int.MinValue` under Desc, so the order is not reversed there |
| `Ordering.CompareToAntisymmetric` | YaronThurm.Lib/OrderedComparable.cs:34-46 | when the inner comparison is antisymmetric and never returns `int.MinValue`, comparing wrappers is antisymmetric |
| `Comparers.GenericComparer.Compare` | YaronThurm.Lib/GenericComparer.cs:11-20 | `Compare(x, y)` is `x.CompareToByAspects(y, aspects)` with the aspects fixed at construction |
| `Comparers.CompareAntisymmetric` | YaronThurm.Lib/GenericComparer.cs:17-20 | with antisymmetric keys, `Compare(x, y)` and `Compare(y, x)` both throw or have opposite signs |
| `Comparers.SortedOrderIsUnique` | YaronThurm.Lib/GenericComparer.cs:17-20 | with antisymmetric keys, a sequence that the comparer orders strictly is the only arrangement of its elements that the comparer orders, so every correct sort returns it |
| `CaseInsensitive.CaseInsensitiveString.ToString` | YaronThurm.Lib/CaseInsensitiveString.cs:57-60 | `ToString` returns the text as given |
| `CaseInsensitive.CaseInsensitiveString.GetHashCode` | YaronThurm.Lib/CaseInsensitiveString.cs:20-23 | with ASCII casing, the hash is the string hash of the upper-cased text of every instance equal to this one |
| `CaseInsensitive.EqualsIgnoreCase` | YaronThurm.Lib/CaseInsensitiveString.cs:27 | ordinal ignore-case equality holds iff the lengths agree and the characters agree one by one once upper-cased |
| `CaseInsensitive.CaseInsensitiveString.Equals` | YaronThurm.Lib/CaseInsensitiveString.cs:25-28 | two instances are equal iff their texts are equal once upper-cased |
| `CaseInsensitive.EqualsIgnoreCaseIsSameUpper` | YaronThurm.Lib/CaseInsensitiveString.cs:20-28 | the character-by-character case-insensitive comparison agrees with comparing the upper-cased texts, in both directions |
| `CaseInsensitive.EqualsIsEquivalence` | YaronThurm.Lib/CaseInsensitiveString.cs:25-28 | equality is reflexive, symmetric and transitive |
| `CaseInsensitive.EqualsImpliesEqualHash` | YaronThurm.Lib/CaseInsensitiveString.cs:20-28 | with ASCII casing, equal instances have equal hash codes, for any string hash |
| `CaseInsensitive.OpEquality` | YaronThurm.Lib/CaseInsensitiveString.cs:31-34 | `==` agrees with `Equals`, so it holds iff the upper-cased texts are equal |
| `CaseInsensitive.OpInequality` | YaronThurm.Lib/CaseInsensitiveString.cs:36-39 | `!=` is the negation of `==` |
| `CaseInsensitive.ToUpper` | YaronThurm.Lib/CaseInsensitiveString.cs:22 | upper-casing keeps the length and upper-cases each character in place |
| `CaseInsensitive.Concat` | YaronThurm.Lib/CaseInsensitiveString.cs:42-45 | `s1 + s2` joins the two texts with case kept, and its upper-cased text is the join of the upper-cased operands |
| `CaseInsensitive.ConcatString` | YaronThurm.Lib/CaseInsensitiveString.cs:47-50 | `s1 + string` is `s1 + new CaseInsensitiveString(string)`, and `s1` itself when the string is null |
| `CaseInsensitive.StringConcat` | YaronThurm.Lib/CaseInsensitiveString.cs:52-55 | `string + s2` is `new CaseInsensitiveString(string) + s2`, and `s2` itself when the string is null |
| `CaseInsensitive.ConcatKeepsText` | YaronThurm.Lib/CaseInsensitiveString.cs:42-55 | all three `+` overloads concatenate the texts with case kept; a null plain string adds nothing; concatenating equal operands gives equal results |
| `CaseInsensitive.TextKeepsItsCase` | YaronThurm.Lib/CaseInsensitiveString.cs:11-18 | `Value` and `ToString` return the text as given: "Abc" stays "Abc" and still equals "aBC" |
| `UnitTests.AspectOutcomes` | UnitTests/UnitTests.cs:35-55 | the outcome of each test aspect, ascending or descending, on any two objects |
| `UnitTests.TestCompare` | UnitTests/UnitTests.cs:34-56 | the six expected results of `TestCompare`: 0, -1, 1, -1, -1, 1 |
| `UnitTests.TestSortingAllAscending` | UnitTests/UnitTests.cs:70-72 | any ordered arrangement of the four objects by (string asc, int asc) has IDs 1, 2, 3, 4 |
| `UnitTests.TestSortingStringDescending` | UnitTests/UnitTests.cs:74-76 | by (string desc, int asc): IDs 3, 4, 1, 2 |
| `UnitTests.TestSortingAllDescending` | UnitTests/UnitTests.cs:78-80 | by (string desc, int desc): IDs 4, 3, 2, 1 |

## Left out

- Locking: the `ReaderWriterLockSlim` and its read and write sections are not modelled, and each operation is atomic. The unlocked gap between the read phase and the load in `GetItem` lets two threads load the same key twice. That is concurrent behaviour, so it is not modelled either.
- Clock and time zones: `DateTime.UtcNow` is the parameter `now`, in ticks, and `ToUniversalTime` is the identity. The range of `DateTime` is not modelled.
- `LoadItemImpl` and `GetExpiration` are pure function parameters. The loader may fail. The expiration policy cannot throw in the model. In C# a throwing policy would also leave the dictionary unchanged, after the loader had run.
- Null `CacheInformation` values and a null `ExpirationInfo` (the `cache != null` tests and `GenericCache.cs:165-166`) are not modelled. The class is private and always builds entries with a marker, so these branches are unreachable.
- `SetToExpire` mutates the marker object in place. The model replaces the dictionary entry with a flagged copy. No other reference to the marker exists, so no aliasing is lost.
- The static-singleton and subclassing recipe in the class's doc comment is usage guidance, not code.
- Casing is ASCII only: culture-sensitive `ToUpper` and the Unicode side of `OrdinalIgnoreCase` are not modelled. `string.GetHashCode` is a parameter.
- CaseInsensitive.EqualsImpliesEqualHash: holds because the model folds case the same way in `Equals` and `GetHashCode`. In C#, `Equals` uses the culture-invariant `OrdinalIgnoreCase` (`CaseInsensitiveString.cs:27`), while `GetHashCode` uses the current culture's `ToUpper()` (line 22). Under a Turkish culture "i" equals "I", but "i".ToUpper() is "İ", so the two hashes can differ there.
- `CaseInsensitiveString.Equals`, `==` and `!=` with a null or non-`CaseInsensitiveString` argument, and `+` with a null `CaseInsensitiveString` operand, throw in C#. The model's types rule those arguments out. A null plain `string` operand of `+` is modelled: it counts as "".
- A `CaseInsensitiveString` built with a null text (`CaseInsensitiveString.cs:11-14`) is not modelled: the model's text is always a string. In C#, `Equals` then holds iff both texts are null, and `GetHashCode` throws.
- `OrderedComparable` with a null inner item on the receiver's side, or a null argument, throws `NullReferenceException` in C#. A null inner item on the argument's side is handed to the inner `CompareTo` (`OrderedComparable.cs:40`), which for strings and integers returns 1. The model's inner items are never null, so neither case is modelled. The inner `CompareTo` is a parameter.
- Aspect extractors are total functions. An extractor that throws is not modelled.
- `List.Sort` is not the library's code and is not modelled. Each sort test is stated as: every sorted permutation of the list has the expected IDs.
- `String.CompareTo` in the unit tests is culture-sensitive. It is modelled as ordinal comparison returning -1, 0 or 1, which agrees on the strings the tests use. The test keys wrap only strings and integers in `OrderedComparable`, not nested wrappers.
