# Collection comparison, verified in Dafny

This project models `CollectionComparison.isEqualCollection`, a utility that
decides whether two collections hold the same elements with the same
multiplicities, regardless of element order. Elements are compared with
`equals`. Here a collection is a `seq<T>` in iteration order, and `equals`
is Dafny's `==`.

The procedure works in four steps. It returns `false` when the sizes differ.
A counting pass over `a` fills a hash map from element to count. A consuming
pass over `b` decrements counts. It returns `false` early on an element that
has no entry or whose entry is zero. A final scan of the map's values returns
`false` on any non-zero count.

- `CollectionComparison.dfy`, module `CollectionComparison`:
  - `IsEqualCollection` is the imperative procedure. Its hash map is a local
    `map<T, int>`. It keeps the three loops and the early returns.
  - `Tally`, `Consume`, `AllZero` and `EqualCollection` are the same passes
    written as functions over the processed prefix. The method's loop
    invariants tie its map to them.
  - The lemmas state what each pass computes, in terms of multisets.
  - The main result is `EqualCollectionCorrect`: the answer is `true` exactly
    when `multiset(a) == multiset(b)`.
  - A separate lemma proves that the size check makes the final scan
    redundant.
  - Further lemmas give symmetry, reflexivity, transitivity, sensitivity to
    duplicates and invariance under reordering. A reordering is a list of
    exchanges of two positions.
- `CollectionComparisonTest.dfy`, module `CollectionComparisonTest`: each
  JUnit test case as a lemma stating the expected answer in both argument
  orders.

## Model

| member | source | states |
|---|---|---|
| `CollectionComparison.IsEqualCollection` | src/main/java/se/llbit/util/CollectionComparison.java:54-88 | The three loops compute exactly the functional model `EqualCollection(a, b)`. The answer is `true` iff `multiset(a) == multiset(b)`. It is `false` whenever the sizes differ. |
| `CollectionComparison.TallyCounts` | src/main/java/se/llbit/util/CollectionComparison.java:58-68 | After the counting pass, the keys are exactly the elements of `a`. Each key's count is its number of occurrences in `a`. |
| `CollectionComparison.ConsumeTally` | src/main/java/se/llbit/util/CollectionComparison.java:69-81 | The consuming pass finishes without an early `false` iff no element occurs more often in `b` than in `a`. After processing a prefix of `b`, each key's count is its multiplicity in `a` minus its multiplicity in that prefix. No count is ever negative. |
| `CollectionComparison.ElementExcess` | src/main/java/se/llbit/util/CollectionComparison.java:70-79 | An element of `b` with no entry, or whose entry has fallen to zero, occurs more often in `b` than in `a`. The early `false` is therefore correct. |
| `CollectionComparison.DecrementStep` | src/main/java/se/llbit/util/CollectionComparison.java:80 | Decrementing a positive count records one more matched occurrence. The new map is the residual for the longer prefix of `b`. |
| `CollectionComparison.ConsumeFailureIsFinal` | src/main/java/se/llbit/util/CollectionComparison.java:69-81 | Once the consuming pass has hit an absent or zero entry, no further elements of `b` change the outcome. |
| `CollectionComparison.ResidualAllZero` | src/main/java/se/llbit/util/CollectionComparison.java:82-87 | With equal sizes, a consuming pass that finishes leaves every count at zero. The final scan therefore never returns `false`. |
| `CollectionComparison.EqualCollectionWithoutScan` | src/main/java/se/llbit/util/CollectionComparison.java:55-87 | The procedure's answer is the size check together with the completion of the consuming pass. The residual scan adds nothing. |
| `CollectionComparison.EqualCollectionCorrect` | src/main/java/se/llbit/util/CollectionComparison.java:43-88 | The answer is `true` iff both collections contain the same elements with the same cardinalities. |
| `CollectionComparison.SizeMismatch` | src/main/java/se/llbit/util/CollectionComparison.java:55-57 | Collections of different sizes are unequal in both argument orders. |
| `CollectionComparison.Symmetric` | src/test/java/se/llbit/util/CollectionComparisonTest.java:93-97 | Swapping the two arguments never changes the answer. |
| `CollectionComparison.Reflexive` | src/test/java/se/llbit/util/CollectionComparisonTest.java:82-87 | Every collection compares equal to itself. |
| `CollectionComparison.Transitive` | src/main/java/se/llbit/util/CollectionComparison.java:43-53 | If `a` equals `b` and `b` equals `c`, then `a` equals `c`. |
| `CollectionComparison.DuplicateSensitive` | src/test/java/se/llbit/util/CollectionComparisonTest.java:147-158 | One element with different multiplicities makes the collections unequal in both orders. This holds even when they share the same distinct elements. |
| `CollectionComparison.PermutationInvariant` | src/main/java/se/llbit/util/CollectionComparison.java:43-53 | Reordering the second collection by any sequence of exchanges does not change the answer. With `Symmetric` this covers the first collection too. |
| `CollectionComparison.PermutedEqual` | src/test/java/se/llbit/util/CollectionComparisonTest.java:139-145 | Any reordering of a collection, by any sequence of exchanges, compares equal to it. |
| `CollectionComparisonTest.SimpleEqual` | src/test/java/se/llbit/util/CollectionComparisonTest.java:81-87 | `[a,b,c]` equals `[a,b,c]`. |
| `CollectionComparisonTest.SimplePermuted` | src/test/java/se/llbit/util/CollectionComparisonTest.java:92-98 | `[2,1,3]` and `[1,2,3]` are equal in both orders. |
| `CollectionComparisonTest.SimpleSubset` | src/test/java/se/llbit/util/CollectionComparisonTest.java:104-110 | `[x,y,z]` and `[x,y,z,w]` are unequal in both orders. |
| `CollectionComparisonTest.SimplePermutedSubset` | src/test/java/se/llbit/util/CollectionComparisonTest.java:116-122 | `[i,j,k]` and `[l,i,k,j]` are unequal in both orders. |
| `CollectionComparisonTest.Duplicates` | src/test/java/se/llbit/util/CollectionComparisonTest.java:127-133 | `[A,A,C]` equals `[A,A,C]`. |
| `CollectionComparisonTest.DuplicatesPermuted` | src/test/java/se/llbit/util/CollectionComparisonTest.java:139-145 | `[&,&,?]` and `[&,?,&]` are equal in both orders. |
| `CollectionComparisonTest.DuplicatesSubset` | src/test/java/se/llbit/util/CollectionComparisonTest.java:152-158 | `[0,0,1]` and `[0,1]` are unequal in both orders. |
| `CollectionComparisonTest.DuplicatesSubset2` | src/test/java/se/llbit/util/CollectionComparisonTest.java:165-171 | `[u,u,v]` and `[u,u]` are unequal in both orders. |
| `CollectionComparisonTest.DuplicatesMismatch` | src/test/java/se/llbit/util/CollectionComparisonTest.java:173-183 | `[xyz,xyz,...]` and `[xyz,...,...]` are unequal in both orders. Each still contains every element of the other. So equal size plus containment both ways is not enough. |
| `CollectionComparisonTest.EqualityComparison` | src/test/java/se/llbit/util/CollectionComparisonTest.java:189-195 | Two collections of two mutually equal values are equal. |
| `CollectionComparisonTest.EqualityComparison2` | src/test/java/se/llbit/util/CollectionComparisonTest.java:201-207 | Two mutually equal values against one are unequal in both orders. |
| `CollectionComparisonTest.SameSizeInequal` | src/test/java/se/llbit/util/CollectionComparisonTest.java:213-219 | `[1,12,12]` and `[1,12,1729]` are unequal in both orders. |

## Left out

- Java's `int` arithmetic on counts is not modelled. `count + 1` could overflow
  past 2^31 - 1 identical elements. Counts here are mathematical integers.
- Null arguments are not modelled. In the source they raise a
  `NullPointerException` from `a.size()`, and a Dafny sequence is never null.
- `HashMap` hashing and bucket layout are not modelled. The map is Dafny's
  `map<T, int>`, so `equals` and `hashCode` are assumed consistent.
- The iteration order of `map.values()` is not modelled. The final scan picks
  the remaining values in an arbitrary order, and the answer does not depend
  on that order.
- Object identity is not modelled. In the test, distinct `AlwaysEqual`
  instances compare equal under `equals`. Here they are all the one value of a
  field-less datatype, which is what `==` sees.
- The `listOf` helper and the JUnit harness are not modelled. They only build
  lists and run the assertions.
