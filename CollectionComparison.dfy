/**
 * Order-insensitive, duplicate-aware equality of two collections.
 *
 * A collection is a sequence of elements; Java's `equals` on the elements is
 * Dafny's `==`. The decision procedure counts the elements of the first
 * collection in a map, consumes those counts with the elements of the second
 * collection and finally checks that no count is left over. Its meaning is
 * multiset equality: `multiset(a) == multiset(b)`.
 */
module CollectionComparison {

  datatype Option<T> = None | Some(value: T)

  /** The count stored for `o`, or 0 when the map has no entry for it. */
  function CountOf<T(==)>(m: map<T, int>, o: T): int
  {
    if o in m then m[o] else 0
  }

  // ---------------------------------------------------------------------------
  // The three passes of the procedure, as functions over the processed prefix
  // ---------------------------------------------------------------------------

  /**
   * The counting map after the first pass has visited `s`: every element's
   * count is read (0 when absent) and stored back incremented by one.
   */
  function Tally<T(==)>(s: seq<T>): map<T, int>
  {
    if s == [] then map[]
    else
      var m := Tally(s[..|s| - 1]);
      var o := s[|s| - 1];
      m[o := CountOf(m, o) + 1]
  }

  /**
   * The second pass over `b`, starting from the counts `m`: `None` as soon as
   * an element of `b` has no entry or a zero entry, otherwise the counts that
   * remain after one decrement per element of `b`.
   */
  function Consume<T(==)>(m: map<T, int>, b: seq<T>): Option<map<T, int>>
  {
    if b == [] then Some(m)
    else
      match Consume(m, b[..|b| - 1])
      case None => None
      case Some(r) =>
        var o := b[|b| - 1];
        if o !in r || r[o] == 0 then None else Some(r[o := r[o] - 1])
  }

  /** The final scan: every count left in the map is zero. */
  predicate AllZero<T(==)>(m: map<T, int>)
  {
    forall v :: v in m.Values ==> v == 0
  }

  /** The whole procedure: size check, counting pass, consuming pass, scan. */
  function EqualCollection<T(==)>(a: seq<T>, b: seq<T>): bool
  {
    && |a| == |b|
    && match Consume(Tally(a), b)
       case None => false
       case Some(r) => AllZero(r)
  }

  /** What the counts should be once all of `a` and the prefix `b` are processed. */
  function Residual<T(==)>(a: seq<T>, b: seq<T>): map<T, int>
  {
    map x | x in a :: multiset(a)[x] as int - multiset(b)[x]
  }

  // ---------------------------------------------------------------------------
  // The imperative procedure
  // ---------------------------------------------------------------------------

  /**
   * Decides whether `a` and `b` hold the same elements with the same
   * multiplicities. `counts` is the hash map of the procedure; the three loops
   * are its counting pass, its consuming pass and its scan of the residual
   * counts, each returning `false` early as soon as the answer is known.
   */
  method IsEqualCollection<T(==)>(a: seq<T>, b: seq<T>) returns (equal: bool)
    ensures equal == EqualCollection(a, b)
    ensures equal <==> multiset(a) == multiset(b)
    ensures |a| != |b| ==> !equal
  {
    if |a| != |b| {
      EqualCollectionCorrect(a, b);
      return false;
    }
    var counts: map<T, int> := map[];
    for i := 0 to |a|
      invariant counts == Tally(a[..i])
    {
      var o := a[i];
      var count := if o in counts then counts[o] else 0;
      counts := counts[o := count + 1];
      assert a[..i + 1][..i] == a[..i];
    }
    assert a[..|a|] == a;
    for j := 0 to |b|
      invariant Consume(Tally(a), b[..j]) == Some(counts)
    {
      var o := b[j];
      assert b[..j + 1][..j] == b[..j];
      if o !in counts {
        ConsumeFailureIsFinal(Tally(a), b, j + 1);
        EqualCollectionCorrect(a, b);
        return false;
      }
      var count := counts[o];
      if count == 0 {
        ConsumeFailureIsFinal(Tally(a), b, j + 1);
        EqualCollectionCorrect(a, b);
        return false;
      }
      counts := counts[o := count - 1];
    }
    assert b[..|b|] == b;
    var rest := counts.Values;
    while rest != {}
      invariant rest <= counts.Values
      invariant forall v :: v in counts.Values && v !in rest ==> v == 0
    {
      NonEmptyHasElement(rest);
      var count :| count in rest;
      if count != 0 {
        EqualCollectionCorrect(a, b);
        return false;
      }
      rest := rest - {count};
    }
    EqualCollectionCorrect(a, b);
    return true;
  }

  // ---------------------------------------------------------------------------
  // What each pass computes
  // ---------------------------------------------------------------------------

  /**
   * After the counting pass, the keys are exactly the elements of `s` and each
   * key's count is its number of occurrences in `s`.
   */
  lemma {:induction false} TallyCounts<T>(s: seq<T>)
    ensures forall x :: x in s ==> x in Tally(s)
    ensures forall x :: x in Tally(s) ==> x in s && Tally(s)[x] == multiset(s)[x]
  {
    if s != [] {
      var p, o := s[..|s| - 1], s[|s| - 1];
      TallyCounts(p);
      assert s == p + [o];
      forall x
        ensures x in s ==> x in Tally(s)
      {
        if x in s && x != o {
          var k :| 0 <= k < |s| && s[k] == x;
          assert p[k] == x;
        }
      }
    }
  }

  /**
   * The consuming pass started from the counts of `a` completes exactly when
   * `b` has no element more often than `a`; it then leaves, for every element
   * of `a`, its multiplicity in `a` minus its multiplicity in `b`, never a
   * negative count, and no other key.
   */
  lemma {:induction false} ConsumeTally<T>(a: seq<T>, b: seq<T>)
    ensures Consume(Tally(a), b).Some? <==> multiset(b) <= multiset(a)
    ensures Consume(Tally(a), b).Some? ==> Consume(Tally(a), b).value == Residual(a, b)
    ensures Consume(Tally(a), b).Some? ==>
              forall x :: x in Consume(Tally(a), b).value ==> Consume(Tally(a), b).value[x] >= 0
  {
    if b == [] {
      TallyCounts(a);
      assert multiset(b) == multiset{};
      assert Tally(a) == Residual(a, b);
    } else {
      var p, o := b[..|b| - 1], b[|b| - 1];
      ConsumeTally(a, p);
      assert b == p + [o];
      if Consume(Tally(a), p).None? {
        PrefixExcess(a, p, o);
      } else if o !in a || multiset(a)[o] == multiset(p)[o] {
        ElementExcess(a, p, o);
      } else {
        DecrementStep(a, p, o);
      }
    }
  }

  /** An element of `p` occurring more often than in `a` still does so in `p + [o]`. */
  lemma PrefixExcess<T>(a: seq<T>, p: seq<T>, o: T)
    requires !(multiset(p) <= multiset(a))
    ensures !(multiset(p + [o]) <= multiset(a))
  {
  }

  /** An element absent from `a`, or already matched as often as it occurs there, is one too many. */
  lemma ElementExcess<T>(a: seq<T>, p: seq<T>, o: T)
    requires o !in a || multiset(a)[o] == multiset(p)[o]
    ensures !(multiset(p + [o]) <= multiset(a))
  {
    assert multiset(p + [o]) == multiset(p) + multiset{o};
    assert multiset(p + [o])[o] > multiset(a)[o];
  }

  /** Matching `o` once more decrements its residual count and nothing else. */
  lemma DecrementStep<T>(a: seq<T>, p: seq<T>, o: T)
    requires multiset(p) <= multiset(a)
    requires o in a && multiset(p)[o] < multiset(a)[o]
    ensures multiset(p + [o]) <= multiset(a)
    ensures Residual(a, p + [o]) == Residual(a, p)[o := Residual(a, p)[o] - 1]
  {
  }

  /** Once the consuming pass has returned early, more of `b` does not revive it. */
  lemma {:induction false} ConsumeFailureIsFinal<T>(m: map<T, int>, b: seq<T>, k: nat)
    requires k <= |b|
    requires Consume(m, b[..k]) == None
    ensures Consume(m, b) == None
    decreases |b| - k
  {
    if k < |b| {
      assert b[..k + 1][..k] == b[..k];
      ConsumeFailureIsFinal(m, b, k + 1);
    } else {
      assert b[..k] == b;
    }
  }

  /** A set of counts other than the empty set has an element to pick. */
  lemma NonEmptyHasElement(s: set<int>)
    requires s != {}
    ensures exists x :: x in s
  {
    if forall x :: x !in s {
      assert false;
    }
  }

  /** A sub-multiset with as many elements as the whole is the whole. */
  lemma SubMultisetOfSameSize<T>(m: multiset<T>, n: multiset<T>)
    requires m <= n
    requires |m| == |n|
    ensures m == n
  {
    var d := n - m;
    assert n == m + d;
    assert |d| == 0;
  }

  /**
   * The size check is what makes the final scan redundant: with equal sizes,
   * a consuming pass that completes leaves every count at zero, so the scan
   * never returns `false`.
   */
  lemma ResidualAllZero<T>(a: seq<T>, b: seq<T>)
    requires |a| == |b|
    requires Consume(Tally(a), b).Some?
    ensures AllZero(Consume(Tally(a), b).value)
  {
    ConsumeTally(a, b);
    SubMultisetOfSameSize(multiset(b), multiset(a));
  }

  /**
   * The procedure may equally end after the consuming pass: its answer is the
   * size check and the completion of that pass.
   */
  lemma EqualCollectionWithoutScan<T>(a: seq<T>, b: seq<T>)
    ensures EqualCollection(a, b) <==> |a| == |b| && Consume(Tally(a), b).Some?
  {
    if |a| == |b| && Consume(Tally(a), b).Some? {
      ResidualAllZero(a, b);
    }
  }

  // ---------------------------------------------------------------------------
  // What the procedure decides
  // ---------------------------------------------------------------------------

  /**
   * The procedure answers `true` exactly when both collections contain the
   * same elements with the same multiplicities.
   */
  lemma EqualCollectionCorrect<T>(a: seq<T>, b: seq<T>)
    ensures EqualCollection(a, b) <==> multiset(a) == multiset(b)
  {
    ConsumeTally(a, b);
    if multiset(a) == multiset(b) {
      assert |a| == |multiset(a)| == |multiset(b)| == |b|;
      ResidualAllZero(a, b);
    } else if EqualCollection(a, b) {
      var r := Consume(Tally(a), b).value;
      forall x ensures multiset(a)[x] == multiset(b)[x] {
        if x in a {
          assert r[x] in r.Values;
        }
      }
    }
  }

  /** Collections that differ in size are never equal. */
  lemma SizeMismatch<T>(a: seq<T>, b: seq<T>)
    requires |a| != |b|
    ensures !EqualCollection(a, b) && !EqualCollection(b, a)
  {
  }

  /** The answer does not depend on the order of the arguments. */
  lemma Symmetric<T>(a: seq<T>, b: seq<T>)
    ensures EqualCollection(a, b) == EqualCollection(b, a)
  {
    EqualCollectionCorrect(a, b);
    EqualCollectionCorrect(b, a);
  }

  /** Every collection equals itself. */
  lemma Reflexive<T>(a: seq<T>)
    ensures EqualCollection(a, a)
  {
    EqualCollectionCorrect(a, a);
  }

  /** Equality of collections is transitive. */
  lemma Transitive<T>(a: seq<T>, b: seq<T>, c: seq<T>)
    requires EqualCollection(a, b) && EqualCollection(b, c)
    ensures EqualCollection(a, c)
  {
    EqualCollectionCorrect(a, b);
    EqualCollectionCorrect(b, c);
    EqualCollectionCorrect(a, c);
  }

  /**
   * One element occurring a different number of times in the two collections
   * makes them unequal in both directions, even when both hold the same
   * distinct elements.
   */
  lemma DuplicateSensitive<T>(a: seq<T>, b: seq<T>, x: T)
    requires multiset(a)[x] != multiset(b)[x]
    ensures !EqualCollection(a, b) && !EqualCollection(b, a)
  {
    EqualCollectionCorrect(a, b);
    EqualCollectionCorrect(b, a);
  }

  // ---------------------------------------------------------------------------
  // Order independence
  // ---------------------------------------------------------------------------

  /** Exchanges the elements at positions `i` and `j`. */
  function Swap<T(==)>(s: seq<T>, i: nat, j: nat): (r: seq<T>)
    requires i < |s| && j < |s|
    ensures |r| == |s| && r[i] == s[j] && r[j] == s[i]
    ensures forall k :: 0 <= k < |s| && k != i && k != j ==> r[k] == s[k]
  {
    s[i := s[j]][j := s[i]]
  }

  /** Every pair of positions in `swaps` lies inside a sequence of length `n`. */
  predicate SwapsInRange(n: nat, swaps: seq<(nat, nat)>)
  {
    forall k :: 0 <= k < |swaps| ==> swaps[k].0 < n && swaps[k].1 < n
  }

  /**
   * Applies the exchanges in `swaps` one after the other; every reordering of
   * a sequence is the result of some such list of exchanges.
   */
  function Permute<T(==)>(s: seq<T>, swaps: seq<(nat, nat)>): (r: seq<T>)
    requires SwapsInRange(|s|, swaps)
    ensures |r| == |s|
    decreases |swaps|
  {
    if swaps == [] then s
    else Permute(Swap(s, swaps[0].0, swaps[0].1), swaps[1..])
  }

  /** Reordering keeps every element's multiplicity. */
  lemma {:induction false} PermuteKeepsMultiset<T>(s: seq<T>, swaps: seq<(nat, nat)>)
    requires SwapsInRange(|s|, swaps)
    ensures multiset(Permute(s, swaps)) == multiset(s)
    decreases |swaps|
  {
    if swaps != [] {
      var (i, j) := swaps[0];
      var t := Swap(s, i, j);
      assert multiset(t) == multiset(s) by {
        assert t == s[i := s[j]][j := s[i]];
      }
      PermuteKeepsMultiset(t, swaps[1..]);
    }
  }

  /** Reordering the second collection does not change the answer. */
  lemma PermutationInvariant<T>(a: seq<T>, b: seq<T>, swaps: seq<(nat, nat)>)
    requires SwapsInRange(|b|, swaps)
    ensures EqualCollection(a, Permute(b, swaps)) == EqualCollection(a, b)
  {
    PermuteKeepsMultiset(b, swaps);
    EqualCollectionCorrect(a, Permute(b, swaps));
    EqualCollectionCorrect(a, b);
  }

  /** A reordering of a collection equals it. */
  lemma PermutedEqual<T>(a: seq<T>, swaps: seq<(nat, nat)>)
    requires SwapsInRange(|a|, swaps)
    ensures EqualCollection(a, Permute(a, swaps))
  {
    PermuteKeepsMultiset(a, swaps);
    EqualCollectionCorrect(a, Permute(a, swaps));
  }
}
