/**
 * The unit tests of the collection comparison, each stated as a lemma about
 * the procedure's model: the expected answer, in both argument orders.
 */
module CollectionComparisonTest {
  import opened CollectionComparison

  /** Values that are all equal to each other and to nothing else. */
  datatype AlwaysEqual = AlwaysEqual

  /**
   * Every element of `b` occurs somewhere in `a`: the set-style containment
   * that, used both ways and together with a size check, is not enough to
   * compare collections with duplicates.
   */
  predicate ContainsAll<T(==)>(a: seq<T>, b: seq<T>)
  {
    forall x :: x in b ==> x in a
  }

  /** Two collections with no duplicates, in the same order. */
  lemma SimpleEqual()
    ensures EqualCollection(["a", "b", "c"], ["a", "b", "c"])
  {
    Reflexive(["a", "b", "c"]);
  }

  /** Two collections with no duplicates, one a reordering of the other. */
  lemma SimplePermuted()
    ensures EqualCollection(["2", "1", "3"], ["1", "2", "3"])
    ensures EqualCollection(["1", "2", "3"], ["2", "1", "3"])
  {
    var a := ["2", "1", "3"];
    PermutedEqual(a, [(0, 1)]);
    assert Permute(a, [(0, 1)]) == ["1", "2", "3"];
    Symmetric(a, ["1", "2", "3"]);
  }

  /** One collection is a proper superset of the other. */
  lemma SimpleSubset()
    ensures !EqualCollection(["x", "y", "z"], ["x", "y", "z", "w"])
    ensures !EqualCollection(["x", "y", "z", "w"], ["x", "y", "z"])
  {
    SizeMismatch(["x", "y", "z"], ["x", "y", "z", "w"]);
  }

  /** One collection is a reordered proper superset of the other. */
  lemma SimplePermutedSubset()
    ensures !EqualCollection(["i", "j", "k"], ["l", "i", "k", "j"])
    ensures !EqualCollection(["l", "i", "k", "j"], ["i", "j", "k"])
  {
    SizeMismatch(["i", "j", "k"], ["l", "i", "k", "j"]);
  }

  /** Two collections with duplicates, in the same order. */
  lemma Duplicates()
    ensures EqualCollection(["A", "A", "C"], ["A", "A", "C"])
  {
    Reflexive(["A", "A", "C"]);
  }

  /** Two collections with duplicates, one a reordering of the other. */
  lemma DuplicatesPermuted()
    ensures EqualCollection(["&", "&", "?"], ["&", "?", "&"])
    ensures EqualCollection(["&", "?", "&"], ["&", "&", "?"])
  {
    var a := ["&", "&", "?"];
    PermutedEqual(a, [(1, 2)]);
    assert Permute(a, [(1, 2)]) == ["&", "?", "&"];
    Symmetric(a, ["&", "?", "&"]);
  }

  /** Extra duplicates of an element both collections hold. */
  lemma DuplicatesSubset()
    ensures !EqualCollection(["0", "0", "1"], ["0", "1"])
    ensures !EqualCollection(["0", "1"], ["0", "0", "1"])
  {
    DuplicateSensitive(["0", "0", "1"], ["0", "1"], "0");
  }

  /** Extra duplicates and an element the other collection lacks. */
  lemma DuplicatesSubset2()
    ensures !EqualCollection(["u", "u", "v"], ["u", "u"])
    ensures !EqualCollection(["u", "u"], ["u", "u", "v"])
  {
    SizeMismatch(["u", "u", "v"], ["u", "u"]);
  }

  /**
   * Same size and the same distinct elements, different multiplicities: the
   * case that size plus containment both ways gets wrong.
   */
  lemma DuplicatesMismatch()
    ensures !EqualCollection(["xyz", "xyz", "..."], ["xyz", "...", "..."])
    ensures !EqualCollection(["xyz", "...", "..."], ["xyz", "xyz", "..."])
    ensures ContainsAll(["xyz", "xyz", "..."], ["xyz", "...", "..."])
    ensures ContainsAll(["xyz", "...", "..."], ["xyz", "xyz", "..."])
  {
    var a, b := ["xyz", "xyz", "..."], ["xyz", "...", "..."];
    assert "xyz" != "...";
    assert multiset(a)["xyz"] == 2 && multiset(b)["xyz"] == 1;
    DuplicateSensitive(a, b, "xyz");
  }

  /** Distinct values that are equal to each other compare equal. */
  lemma EqualityComparison()
    ensures EqualCollection([AlwaysEqual, AlwaysEqual], [AlwaysEqual, AlwaysEqual])
  {
    Reflexive([AlwaysEqual, AlwaysEqual]);
  }

  /** Equal values still count once per occurrence. */
  lemma EqualityComparison2()
    ensures !EqualCollection([AlwaysEqual, AlwaysEqual], [AlwaysEqual])
    ensures !EqualCollection([AlwaysEqual], [AlwaysEqual, AlwaysEqual])
  {
    SizeMismatch([AlwaysEqual, AlwaysEqual], [AlwaysEqual]);
  }

  /** Same size, one with a duplicate and the other with an element the first lacks. */
  lemma SameSizeInequal()
    ensures !EqualCollection([1, 12, 12], [1, 12, 1729])
    ensures !EqualCollection([1, 12, 1729], [1, 12, 12])
  {
    var a, b := [1, 12, 12], [1, 12, 1729];
    assert multiset(a)[12] == 2 && multiset(b)[12] == 1;
    DuplicateSensitive(a, b, 12);
  }
}
