/** The order in which the product service sorts attributes: by name,
    case-insensitively first, with the case-sensitive compareTo breaking ties.
    Both the anonymous comparator of sortAttributesByName and the unused
    ALPHABETICAL_ORDER compute this function. */
module AttributeOrder {
  import opened JavaStrings

  /** The two-level comparator; negative, zero or positive as in Java. */
  function AlphabeticalOrder(s1: string, s2: string): int
  {
    var res := CompareIgnoreCase(s1, s2);
    if res == 0 then CompareTo(s1, s2) else res
  }

  /** The comparator calls two names equal only when they are identical, so
      no two distinct names tie. */
  lemma AlphabeticalOrderZeroIff(s1: string, s2: string)
    ensures AlphabeticalOrder(s1, s2) == 0 <==> s1 == s2
  {
    CompareToZeroIff(s1, s2);
    CompareIgnoreCaseIsCompareToLowered(s1, s2);
    CompareToZeroIff(LowerAll(s1), LowerAll(s2));
  }

  /** Swapping the names negates the comparison. */
  lemma AlphabeticalOrderAntisymmetric(s1: string, s2: string)
    ensures AlphabeticalOrder(s1, s2) == -AlphabeticalOrder(s2, s1)
  {
    CompareIgnoreCaseIsCompareToLowered(s1, s2);
    CompareIgnoreCaseIsCompareToLowered(s2, s1);
    CompareToAntisymmetric(LowerAll(s1), LowerAll(s2));
    CompareToAntisymmetric(s1, s2);
  }

  /** The strict comparator order is transitive. */
  lemma AlphabeticalOrderTransitive(a: string, b: string, c: string)
    requires AlphabeticalOrder(a, b) < 0 && AlphabeticalOrder(b, c) < 0
    ensures AlphabeticalOrder(a, c) < 0
  {
    var la, lb, lc := LowerAll(a), LowerAll(b), LowerAll(c);
    CompareIgnoreCaseIsCompareToLowered(a, b);
    CompareIgnoreCaseIsCompareToLowered(b, c);
    CompareIgnoreCaseIsCompareToLowered(a, c);
    CompareToZeroIff(la, lb);
    CompareToZeroIff(lb, lc);
    if CompareTo(la, lb) < 0 && CompareTo(lb, lc) < 0 {
      CompareToTransitive(la, lb, lc);
    } else if CompareTo(la, lb) == 0 && CompareTo(lb, lc) == 0 {
      CompareToTransitive(a, b, c);
    }
  }

  /** The non-strict order (comparator result at most zero) is transitive. */
  lemma AlphabeticalOrderTransitiveLe(a: string, b: string, c: string)
    requires AlphabeticalOrder(a, b) <= 0 && AlphabeticalOrder(b, c) <= 0
    ensures AlphabeticalOrder(a, c) <= 0
  {
    AlphabeticalOrderZeroIff(a, b);
    AlphabeticalOrderZeroIff(b, c);
    if AlphabeticalOrder(a, b) < 0 && AlphabeticalOrder(b, c) < 0 {
      AlphabeticalOrderTransitive(a, b, c);
    }
  }

  /** Every two names are comparable one way or the other. */
  lemma AlphabeticalOrderTotal(s1: string, s2: string)
    ensures AlphabeticalOrder(s1, s2) <= 0 || AlphabeticalOrder(s2, s1) <= 0
  {
    AlphabeticalOrderAntisymmetric(s1, s2);
  }

  /** Names that differ case-insensitively are ordered case-insensitively:
      the case-sensitive comparison only decides ties. */
  lemma CaseInsensitiveDecides(s1: string, s2: string)
    requires LowerAll(s1) != LowerAll(s2)
    ensures AlphabeticalOrder(s1, s2) < 0 <==> CompareTo(LowerAll(s1), LowerAll(s2)) < 0
  {
    CompareIgnoreCaseIsCompareToLowered(s1, s2);
    CompareToZeroIff(LowerAll(s1), LowerAll(s2));
  }

  /** A name that is a case-insensitive proper prefix of another comes first. */
  lemma CaseInsensitivePrefixFirst(s1: string, s2: string)
    requires |s1| < |s2|
    requires forall i :: 0 <= i < |s1| ==> ToLower(s1[i]) == ToLower(s2[i])
    ensures AlphabeticalOrder(s1, s2) < 0
  {
    assert LowerAll(s1) == LowerAll(s2)[..|s1|];
    CompareToPrefix(LowerAll(s1), LowerAll(s2));
    CompareIgnoreCaseIsCompareToLowered(s1, s2);
  }

  /** Every name is at most every later name of the sequence. */
  predicate SortedNames(names: seq<string>)
  {
    forall i, j :: 0 <= i < j < |names| ==> AlphabeticalOrder(names[i], names[j]) <= 0
  }

  /** Every name is at most the one right after it. */
  predicate AdjacentSorted(names: seq<string>)
  {
    forall i :: 0 < i < |names| ==> AlphabeticalOrder(names[i - 1], names[i]) <= 0
  }

  /** Because the comparator is transitive, ordering each adjacent pair orders
      the whole sequence. */
  lemma {:induction false} AdjacentSortedIsSorted(names: seq<string>)
    requires AdjacentSorted(names)
    ensures SortedNames(names)
  {
    if |names| > 1 {
      var front := names[..|names| - 1];
      assert AdjacentSorted(front) by {
        forall i | 0 < i < |front|
          ensures AlphabeticalOrder(front[i - 1], front[i]) <= 0
        {
          assert front[i - 1] == names[i - 1] && front[i] == names[i];
        }
      }
      AdjacentSortedIsSorted(front);
      var n := |names| - 1;
      forall i, j | 0 <= i < j < |names|
        ensures AlphabeticalOrder(names[i], names[j]) <= 0
      {
        if j < n {
          assert names[i] == front[i] && names[j] == front[j];
        } else if i < n - 1 {
          assert names[i] == front[i] && names[n - 1] == front[n - 1];
          AlphabeticalOrderTransitiveLe(names[i], names[n - 1], names[n]);
        }
      }
    }
  }

  /** The first name of a sorted sequence is at most each of its names. */
  lemma SortedHeadFirst(names: seq<string>, x: string)
    requires SortedNames(names) && x in names
    ensures AlphabeticalOrder(names[0], x) <= 0
  {
    var k :| 0 <= k < |names| && names[k] == x;
    if k == 0 {
      AlphabeticalOrderZeroIff(x, x);
    }
  }

  /** Dropping the first name keeps a sequence sorted. */
  lemma SortedTail(names: seq<string>)
    requires SortedNames(names) && names != []
    ensures SortedNames(names[1..])
  {
  }

  /** The names left once the first is dropped. */
  lemma MultisetTail(s: seq<string>)
    requires s != []
    ensures multiset(s[1..]) == multiset(s) - multiset{s[0]}
  {
    assert s == [s[0]] + s[1..];
  }

  /** Because no two distinct names tie, there is only one sorted
      arrangement of a collection of names: two sorted sequences with the
      same names, counted with multiplicity, are equal. */
  lemma {:induction false} SortedUnique(a: seq<string>, b: seq<string>)
    requires SortedNames(a) && SortedNames(b)
    requires multiset(a) == multiset(b)
    ensures a == b
  {
    if a != [] {
      assert |b| == |multiset(b)| == |multiset(a)| == |a|;
      assert a[0] in multiset(b) && b[0] in multiset(a);
      SortedHeadFirst(b, a[0]);
      SortedHeadFirst(a, b[0]);
      AlphabeticalOrderAntisymmetric(a[0], b[0]);
      AlphabeticalOrderZeroIff(a[0], b[0]);
      var ta, tb := a[1..], b[1..];
      MultisetTail(a);
      MultisetTail(b);
      SortedTail(a);
      SortedTail(b);
      SortedUnique(ta, tb);
    }
  }
}
