/** The value-level rules of the product service: how one value is
    capitalised, how one attribute's values are normalised and filtered, and
    which entries of a list are kept. */
module ValueRules {
  import opened JavaStrings

  /** The one attribute name that normalisation skips (compared exactly). */
  const TitleValue: string := "title"

  /** The capitalisation of one value: a value longer than one character gets
      its first character upper-cased and the rest kept as it is; a value of
      length 0 or 1 is kept whole. */
  function Capitalize(v: string): (r: string)
    ensures |r| == |v|
    ensures forall i :: 1 <= i < |v| ==> r[i] == v[i]
    ensures |v| > 0 ==> r[0] == if |v| > 1 then ToUpper(v[0]) else v[0]
  {
    if |v| > 1 then [ToUpper(v[0])] + v[1..] else v
  }

  /** A value that capitalisation leaves alone. */
  predicate IsCapitalized(v: string)
  {
    |v| <= 1 || !IsLowerAscii(v[0])
  }

  /** Capitalisation changes exactly the values that are not yet capitalised,
      and what it returns is capitalised. */
  lemma CapitalizeFixedPoints(v: string)
    ensures Capitalize(v) == v <==> IsCapitalized(v)
    ensures IsCapitalized(Capitalize(v))
  {
    if |v| > 1 {
      assert Capitalize(v)[0] == ToUpper(v[0]);
      if Capitalize(v) == v {
        assert ToUpper(v[0]) == v[0];
      }
    }
  }

  /** Capitalising twice is capitalising once. */
  lemma CapitalizeIdempotent(v: string)
    ensures Capitalize(Capitalize(v)) == Capitalize(v)
  {
    CapitalizeFixedPoints(v);
    CapitalizeFixedPoints(Capitalize(v));
  }

  /** Every value of the list capitalised, in the same order. */
  function CapitalizeAll(values: seq<string>): (r: seq<string>)
    ensures |r| == |values|
    ensures forall i :: 0 <= i < |values| ==> r[i] == Capitalize(values[i])
  {
    if values == [] then [] else [Capitalize(values[0])] + CapitalizeAll(values[1..])
  }

  /** The values normalisation gives an attribute named `name`: the title's
      values untouched, every other attribute's values capitalised. */
  function NormalizeValues(name: string, values: seq<string>): (r: seq<string>)
    ensures |r| == |values|
    ensures name == TitleValue ==> r == values
    ensures name != TitleValue ==> forall i :: 0 <= i < |values| ==> r[i] == Capitalize(values[i])
  {
    if name == TitleValue then values else CapitalizeAll(values)
  }

  /** Normalising already normalised values changes nothing. */
  lemma {:induction false} NormalizeIdempotent(name: string, values: seq<string>)
    ensures NormalizeValues(name, NormalizeValues(name, values)) == NormalizeValues(name, values)
  {
    var once := NormalizeValues(name, values);
    var twice := NormalizeValues(name, once);
    forall i | 0 <= i < |values|
      ensures twice[i] == once[i]
    {
      if name != TitleValue {
        CapitalizeIdempotent(values[i]);
      }
    }
  }

  /** The values of `values` that are not members of `illegal`, in their
      original order; membership is exact, case-sensitive equality. */
  function FilterValues(values: seq<string>, illegal: seq<string>): (r: seq<string>)
    ensures |r| <= |values|
  {
    if values == [] then []
    else (if values[0] in illegal then [] else [values[0]]) + FilterValues(values[1..], illegal)
  }

  /** A value survives the filter iff it is in the list and not illegal. */
  lemma {:induction false} FilterMembers(values: seq<string>, illegal: seq<string>)
    ensures forall x :: x in FilterValues(values, illegal) <==> x in values && x !in illegal
  {
    if values != [] {
      FilterMembers(values[1..], illegal);
      assert values == [values[0]] + values[1..];
    }
  }

  /** Filtering distributes over concatenation: what survives of a list is
      what survives of its front followed by what survives of its back, so the
      surviving values keep their relative order. */
  lemma {:induction false} FilterAppend(a: seq<string>, b: seq<string>, illegal: seq<string>)
    ensures FilterValues(a + b, illegal) == FilterValues(a, illegal) + FilterValues(b, illegal)
  {
    if a != [] {
      assert (a + b)[0] == a[0] && (a + b)[1..] == a[1..] + b;
      FilterAppend(a[1..], b, illegal);
    } else {
      assert a + b == b;
    }
  }

  /** Each legal value survives as often as it occurs; no illegal value does. */
  lemma {:induction false} FilterMultiplicity(values: seq<string>, illegal: seq<string>, x: string)
    ensures multiset(FilterValues(values, illegal))[x] == if x in illegal then 0 else multiset(values)[x]
  {
    if values != [] {
      FilterMultiplicity(values[1..], illegal, x);
      assert values == [values[0]] + values[1..];
    }
  }

  /** A list with no illegal value passes the filter whole. */
  lemma {:induction false} FilterKeepsLegal(values: seq<string>, illegal: seq<string>)
    requires forall x :: x in values ==> x !in illegal
    ensures FilterValues(values, illegal) == values
  {
    if values != [] {
      FilterKeepsLegal(values[1..], illegal);
      assert values == [values[0]] + values[1..];
    }
  }

  /** Filtering twice is filtering once. */
  lemma FilterIdempotent(values: seq<string>, illegal: seq<string>)
    ensures FilterValues(FilterValues(values, illegal), illegal) == FilterValues(values, illegal)
  {
    FilterMembers(values, illegal);
    FilterKeepsLegal(FilterValues(values, illegal), illegal);
  }

  /** Whether an attribute is still present after normalisation and filtering:
      some value of it is legal once normalised. */
  predicate Survives(name: string, values: seq<string>, illegal: seq<string>)
  {
    FilterValues(NormalizeValues(name, values), illegal) != []
  }

  /** Survival read off the value list once it is normalised. */
  lemma SurvivesNormalized(name: string, values: seq<string>, normalized: seq<string>, illegal: seq<string>)
    requires normalized == NormalizeValues(name, values)
    ensures Survives(name, values, illegal) == (FilterValues(normalized, illegal) != [])
  {
  }

  /** An attribute survives iff one of its values, normalised as its name
      demands, is not illegal. */
  lemma SurvivesIff(name: string, values: seq<string>, illegal: seq<string>)
    ensures Survives(name, values, illegal) <==>
      exists i :: 0 <= i < |values| && NormalizeValues(name, values)[i] !in illegal
  {
    var n := NormalizeValues(name, values);
    FilterMembers(n, illegal);
    if Survives(name, values, illegal) {
      var x := FilterValues(n, illegal)[0];
      assert x in n;
      var i :| 0 <= i < |n| && n[i] == x;
    } else {
      forall i | 0 <= i < |values|
        ensures n[i] in illegal
      {
        assert n[i] in n;
      }
    }
  }

  /** What normalisation followed by filtering leaves of an attribute's values:
      for the title, exactly its legal values; for any other attribute, the
      capitalised forms that are legal, so that a value which becomes illegal
      only once capitalised is gone. */
  lemma NormalizeThenFilterMembers(name: string, values: seq<string>, illegal: seq<string>, x: string)
    ensures name == TitleValue ==>
      (x in FilterValues(NormalizeValues(name, values), illegal) <==> x in values && x !in illegal)
    ensures name != TitleValue ==>
      (x in FilterValues(NormalizeValues(name, values), illegal) <==>
        x !in illegal && exists i :: 0 <= i < |values| && Capitalize(values[i]) == x)
  {
    var n := NormalizeValues(name, values);
    FilterMembers(n, illegal);
    if name != TitleValue && x in n {
      var i :| 0 <= i < |n| && n[i] == x;
    }
  }

  /** Running normalisation and filtering again over their own output changes
      nothing. */
  lemma NormalizeThenFilterIdempotent(name: string, values: seq<string>, illegal: seq<string>)
    ensures var once := FilterValues(NormalizeValues(name, values), illegal);
      FilterValues(NormalizeValues(name, once), illegal) == once
  {
    var n := NormalizeValues(name, values);
    var once := FilterValues(n, illegal);
    FilterMembers(n, illegal);
    if name != TitleValue {
      forall i | 0 <= i < |once|
        ensures Capitalize(once[i]) == once[i]
      {
        assert once[i] in once;
        var k :| 0 <= k < |n| && n[k] == once[i];
        CapitalizeIdempotent(values[k]);
      }
      assert NormalizeValues(name, once) == once;
    }
    FilterIdempotent(n, illegal);
  }

  /** The values an attribute holds once the filter pass has looked at it:
      its legal values when it has any, otherwise its list unchanged (the
      attribute is then dropped from the product, not rewritten). */
  function ValuesAfterFilter(values: seq<string>, illegal: seq<string>): (r: seq<string>)
  {
    var filtered := FilterValues(values, illegal);
    if filtered != [] then filtered else values
  }

  /** An attribute with some legal value is left holding exactly its legal
      values; one with none keeps its list as it is. */
  lemma ValuesAfterFilterMembers(values: seq<string>, illegal: seq<string>)
    ensures (forall x :: x in values ==> x in illegal) ==> ValuesAfterFilter(values, illegal) == values
    ensures (exists x :: x in values && x !in illegal) ==>
      forall x :: x in ValuesAfterFilter(values, illegal) <==> x in values && x !in illegal
  {
    FilterMembers(values, illegal);
    var filtered := FilterValues(values, illegal);
    if filtered != [] {
      assert filtered[0] in values && filtered[0] !in illegal;
    }
  }

  /** Looking at an attribute a second time filters nothing more, so a
      shared attribute object is treated as if seen once. */
  lemma ValuesAfterFilterStable(values: seq<string>, illegal: seq<string>)
    ensures FilterValues(ValuesAfterFilter(values, illegal), illegal) == FilterValues(values, illegal)
    ensures ValuesAfterFilter(ValuesAfterFilter(values, illegal), illegal) == ValuesAfterFilter(values, illegal)
  {
    FilterIdempotent(values, illegal);
  }

  /** Both passes of an upsert, applied to an attribute they kept, keep it
      again and leave its values as they are. */
  lemma UpsertAttributeIdempotent(name: string, values: seq<string>, illegal: seq<string>)
    requires Survives(name, values, illegal)
    ensures var once := ValuesAfterFilter(NormalizeValues(name, values), illegal);
      Survives(name, once, illegal) &&
      ValuesAfterFilter(NormalizeValues(name, once), illegal) == once
  {
    NormalizeThenFilterIdempotent(name, values, illegal);
  }

  /** Visiting an attribute whose values are still `before`, or are
      already what the filter pass leaves of them, decides the same way and
      leaves the same values. */
  lemma FilterRevisit(cur: seq<string>, before: seq<string>, illegal: seq<string>)
    requires cur == before || cur == ValuesAfterFilter(before, illegal)
    ensures (FilterValues(cur, illegal) != []) == (FilterValues(before, illegal) != [])
    ensures ValuesAfterFilter(cur, illegal) == ValuesAfterFilter(before, illegal)
  {
    FilterIdempotent(before, illegal);
  }

  /** The entries of `xs` whose flag in `keep` is set, in their original
      order. */
  function Select<T>(xs: seq<T>, keep: seq<bool>): (r: seq<T>)
    requires |keep| == |xs|
    ensures |r| <= |xs|
  {
    if xs == [] then []
    else
      var n := |xs| - 1;
      Select(xs[..n], keep[..n]) + (if keep[n] then [xs[n]] else [])
  }

  /** With every flag set, selection keeps the whole list. */
  lemma {:induction false} SelectAll<T>(xs: seq<T>, keep: seq<bool>)
    requires |keep| == |xs|
    requires forall i :: 0 <= i < |xs| ==> keep[i]
    ensures Select(xs, keep) == xs
  {
    if xs != [] {
      var n := |xs| - 1;
      SelectAll(xs[..n], keep[..n]);
      assert xs == xs[..n] + [xs[n]];
    }
  }

  /** Selecting from one more entry of a prefix. */
  lemma SelectPrefixStep<T>(xs: seq<T>, keep: seq<bool>, i: nat)
    requires |keep| == |xs| && i < |xs|
    ensures xs[..i + 1] == xs[..i] + [xs[i]]
    ensures Select(xs[..i + 1], keep[..i + 1]) == Select(xs[..i], keep[..i]) + (if keep[i] then [xs[i]] else [])
  {
    assert xs[..i + 1][..i] == xs[..i] && keep[..i + 1][..i] == keep[..i];
  }

  /** What is selected is exactly the flagged entries. */
  lemma {:induction false} SelectMembers<T>(xs: seq<T>, keep: seq<bool>, j: nat)
    requires |keep| == |xs|
    requires j < |Select(xs, keep)|
    ensures exists i :: 0 <= i < |xs| && keep[i] && xs[i] == Select(xs, keep)[j]
  {
    var n := |xs| - 1;
    var front := Select(xs[..n], keep[..n]);
    if j < |front| {
      SelectMembers(xs[..n], keep[..n], j);
      var i :| 0 <= i < n && keep[..n][i] && xs[..n][i] == front[j];
      assert keep[i] && xs[i] == Select(xs, keep)[j];
    } else {
      assert keep[n] && xs[n] == Select(xs, keep)[j];
    }
  }

  /** Every flagged entry is selected. */
  lemma {:induction false} SelectKeepsFlagged<T>(xs: seq<T>, keep: seq<bool>, i: nat)
    requires |keep| == |xs|
    requires i < |xs| && keep[i]
    ensures xs[i] in Select(xs, keep)
  {
    var n := |xs| - 1;
    if i < n {
      SelectKeepsFlagged(xs[..n], keep[..n], i);
    }
  }

  /** An entry is selected iff it sits at some flagged position. */
  lemma SelectContains<T>(xs: seq<T>, keep: seq<bool>, x: T)
    requires |keep| == |xs|
    ensures x in Select(xs, keep) <==> exists i :: 0 <= i < |xs| && keep[i] && xs[i] == x
  {
    if x in Select(xs, keep) {
      var j :| 0 <= j < |Select(xs, keep)| && Select(xs, keep)[j] == x;
      SelectMembers(xs, keep, j);
    }
    if exists i :: 0 <= i < |xs| && keep[i] && xs[i] == x {
      var i :| 0 <= i < |xs| && keep[i] && xs[i] == x;
      SelectKeepsFlagged(xs, keep, i);
    }
  }

  /** When every occurrence of `x` carries the same flag `k`, selection keeps
      all of them or none. */
  lemma {:induction false} SelectMultiplicity<T>(xs: seq<T>, keep: seq<bool>, x: T, k: bool)
    requires |keep| == |xs|
    requires forall i :: 0 <= i < |xs| && xs[i] == x ==> keep[i] == k
    ensures multiset(Select(xs, keep))[x] == if k then multiset(xs)[x] else 0
  {
    if xs != [] {
      var n := |xs| - 1;
      var last := if keep[n] then [xs[n]] else [];
      SelectMultiplicity(xs[..n], keep[..n], x, k);
      assert Select(xs, keep) == Select(xs[..n], keep[..n]) + last;
      assert multiset(xs) == multiset(xs[..n]) + multiset{xs[n]} by {
        assert xs == xs[..n] + [xs[n]];
      }
      assert multiset(Select(xs, keep)) == multiset(Select(xs[..n], keep[..n])) + multiset(last);
    }
  }

  /** Selection distributes over concatenation, so it keeps the relative
      order of what it keeps. */
  lemma {:induction false} SelectAppend<T>(a: seq<T>, ka: seq<bool>, b: seq<T>, kb: seq<bool>)
    requires |ka| == |a| && |kb| == |b|
    ensures Select(a + b, ka + kb) == Select(a, ka) + Select(b, kb)
  {
    if b != [] {
      var n := |b| - 1;
      assert (a + b)[..|a| + n] == a + b[..n];
      assert (ka + kb)[..|a| + n] == ka + kb[..n];
      SelectAppend(a, ka, b[..n], kb[..n]);
    } else {
      assert a + b == a && ka + kb == ka;
    }
  }
}
