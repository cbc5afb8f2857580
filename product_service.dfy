/** The product service: three passes that change a product in place. */
module Services {
  import opened JavaStrings
  import opened Model
  import opened ValueRules
  import opened AttributeOrder

  /** The names of the attributes, in list order. */
  ghost function NamesOf(attrs: seq<Attribute>): (names: seq<string>)
    reads attrs`name
    ensures |names| == |attrs|
    ensures forall i :: 0 <= i < |attrs| ==> names[i] == attrs[i].name
  {
    if attrs == [] then [] else [attrs[0].name] + NamesOf(attrs[1..])
  }

  /** The value list of each attribute, in list order. */
  ghost function ValuesOf(attrs: seq<Attribute>): (vals: seq<seq<string>>)
    reads attrs
    ensures |vals| == |attrs|
    ensures forall i :: 0 <= i < |attrs| ==> vals[i] == attrs[i].values
  {
    if attrs == [] then [] else [attrs[0].values] + ValuesOf(attrs[1..])
  }

  /** The names of a concatenation are the names of its parts. */
  lemma NamesAppend(a: seq<Attribute>, b: seq<Attribute>)
    ensures NamesOf(a + b) == NamesOf(a) + NamesOf(b)
  {
    assert forall i :: 0 <= i < |a + b| ==> (a + b)[i] == if i < |a| then a[i] else b[i - |a|];
  }

  /** Taking out the entry at `k` takes one copy of it out of the multiset. */
  lemma RemoveAt<T>(s: seq<T>, k: nat)
    requires k < |s|
    ensures multiset(s[..k] + s[k + 1..]) == multiset(s) - multiset{s[k]}
  {
    assert s == s[..k] + [s[k]] + s[k + 1..];
  }

  /** The value lists of a concatenation are those of its parts. */
  lemma ValuesAppend(a: seq<Attribute>, b: seq<Attribute>)
    ensures ValuesOf(a + b) == ValuesOf(a) + ValuesOf(b)
  {
    assert forall i :: 0 <= i < |a + b| ==> (a + b)[i] == if i < |a| then a[i] else b[i - |a|];
  }

  /** Where the first entry of `a` sits in a permutation `b` of it, and what
      is left of both once it is taken out. */
  lemma FindFirst<T>(a: seq<T>, b: seq<T>) returns (k: nat)
    requires a != [] && multiset(a) == multiset(b)
    ensures k < |b| && b[k] == a[0]
    ensures multiset(a[1..]) == multiset(b[..k] + b[k + 1..])
  {
    assert a[0] in multiset(b);
    k :| 0 <= k < |b| && b[k] == a[0];
    assert a == [a[0]] + a[1..];
    assert multiset(a) == multiset{a[0]} + multiset(a[1..]);
    RemoveAt(b, k);
  }

  /** Putting `y` back in the middle rather than in front gives the same
      multiset. */
  lemma Splice<U>(y: seq<U>, p: seq<U>, q: seq<U>, rest: seq<U>)
    requires multiset(rest) == multiset(p + q)
    ensures multiset(y + rest) == multiset(p + (y + q))
  {
  }

  /** Permuting attribute objects permutes their names. */
  lemma {:induction false} NamesPermuted(a: seq<Attribute>, b: seq<Attribute>)
    requires multiset(a) == multiset(b)
    ensures multiset(NamesOf(a)) == multiset(NamesOf(b))
    decreases |a|
  {
    hide *;
    if a == [] {
      assert |b| == |multiset(b)| == 0;
    } else {
      var k := FindFirst(a, b);
      var x, front, back := a[0], b[..k], b[k + 1..];
      NamesPermuted(a[1..], front + back);
      assert a == [x] + a[1..];
      NamesAppend([x], a[1..]);
      assert b == front + ([x] + back);
      NamesAppend(front, [x] + back);
      NamesAppend([x], back);
      NamesAppend(front, back);
      Splice(NamesOf([x]), NamesOf(front), NamesOf(back), NamesOf(a[1..]));
    }
  }

  /** When every attribute is kept, the result holds the posted names, in
      some order. */
  lemma KeptAllNames(posted: seq<Attribute>, result: seq<Attribute>, keep: seq<bool>)
    requires |keep| == |posted| && forall i :: 0 <= i < |keep| ==> keep[i]
    requires multiset(result) == multiset(Select<Attribute>(posted, keep))
    ensures multiset(NamesOf(result)) == multiset(NamesOf(posted))
  {
    SelectAll(posted, keep);
    NamesPermuted(result, posted);
  }

  /** For each value list, whether filtering leaves some value. */
  function FilterMask(vals: seq<seq<string>>, illegal: seq<string>): (keep: seq<bool>)
    ensures |keep| == |vals|
    ensures forall i :: 0 <= i < |vals| ==> keep[i] == (FilterValues(vals[i], illegal) != [])
  {
    if vals == [] then [] else [FilterValues(vals[0], illegal) != []] + FilterMask(vals[1..], illegal)
  }

  /** The state of the filter pass after its first `i` iterations, against
      `orig`, the value list each attribute held when the pass began: the
      attributes visited so far hold what filtering leaves of their original
      values, the others still hold their original values. An attribute
      object that occurs twice counts as visited from its first occurrence. */
  ghost predicate FilteredUpTo(attrs: seq<Attribute>, i: nat, orig: map<Attribute, seq<string>>, illegal: seq<string>)
    reads attrs
    requires i <= |attrs|
  {
    (forall a: Attribute :: a in attrs ==> a in orig) &&
    (forall a: Attribute :: a in attrs[..i] ==> a.values == ValuesAfterFilter(orig[a], illegal)) &&
    (forall a: Attribute :: a in attrs && a !in attrs[..i] ==> a.values == orig[a])
  }

  /** The attribute at `k` does not come after the one before it. */
  ghost predicate InOrderAt(s: seq<Attribute>, k: int)
    reads s
    requires 0 < k < |s|
  {
    AlphabeticalOrder(s[k - 1].name, s[k].name) <= 0
  }

  /** The state of one insertion pass that has moved the attribute from `i`
      down to `j`: in order below `j`, in order from `j` up to `i`, and the
      neighbours of `j` in order with each other. */
  ghost predicate Inserting(s: seq<Attribute>, i: nat, j: nat)
    reads s
  {
    j <= i < |s| &&
    (forall k :: 0 < k < j ==> InOrderAt(s, k)) &&
    (forall k :: j < k <= i ==> InOrderAt(s, k)) &&
    (0 < j < i ==> AlphabeticalOrder(s[j - 1].name, s[j + 1].name) <= 0)
  }

  /** `s` with the entries at `j - 1` and `j` exchanged. */
  function SwapBack(s: seq<Attribute>, j: nat): (r: seq<Attribute>)
    requires 0 < j < |s|
    ensures |r| == |s| && multiset(r) == multiset(s)
    ensures r[j - 1] == s[j] && r[j] == s[j - 1]
    ensures forall k :: 0 <= k < |s| && k != j - 1 && k != j ==> r[k] == s[k]
  {
    s[j - 1 := s[j]][j := s[j - 1]]
  }

  /** One exchange of an insertion pass keeps `Inserting`, one place lower. */
  lemma SwapStep(s: seq<Attribute>, i: nat, j: nat)
    requires Inserting(s, i, j) && 0 < j
    requires AlphabeticalOrder(s[j].name, s[j - 1].name) < 0
    ensures Inserting(SwapBack(s, j), i, j - 1)
  {
    var r := SwapBack(s, j);
    forall k | 0 < k < j - 1 || j + 1 < k <= i
      ensures InOrderAt(r, k)
    {
      assert InOrderAt(s, k);
    }
    if j > 1 {
      assert InOrderAt(s, j - 1);
    }
  }

  /** An insertion pass that stops leaves the first `i + 1` entries in order. */
  lemma InsertDone(s: seq<Attribute>, i: nat, j: nat)
    requires Inserting(s, i, j)
    requires j == 0 || AlphabeticalOrder(s[j].name, s[j - 1].name) >= 0
    ensures forall k :: 0 < k <= i ==> InOrderAt(s, k)
  {
    if j > 0 {
      AlphabeticalOrderAntisymmetric(s[j].name, s[j - 1].name);
    }
  }

  /** Capitalises each value of a list, in order. */
  method CapitalizeValues(values: seq<string>) returns (normalizedValues: seq<string>)
    ensures normalizedValues == CapitalizeAll(values)
  {
    normalizedValues := [];
    for k := 0 to |values|
      invariant |normalizedValues| == k
      invariant forall j :: 0 <= j < k ==> normalizedValues[j] == Capitalize(values[j])
    {
      var value := values[k];
      var normalizedValue := value;
      if |value| > 1 {
        normalizedValue := [ToUpper(value[0])] + value[1..];
      }
      normalizedValues := normalizedValues + [normalizedValue];
    }
  }

  /** One pass of the insertion sort: the attribute at `i` moves left past
      every attribute whose name it comes before, so that the first `i + 1`
      entries are in order when the first `i` were. */
  method InsertByName(s0: seq<Attribute>, i: nat) returns (s: seq<Attribute>)
    requires i < |s0|
    requires forall k :: 0 < k < i ==> InOrderAt(s0, k)
    ensures |s| == |s0| && multiset(s) == multiset(s0)
    ensures forall k :: 0 < k <= i ==> InOrderAt(s, k)
  {
    s := s0;
    var j := i;
    while j > 0 && AlphabeticalOrder(s[j].name, s[j - 1].name) < 0
      invariant 0 <= j <= i < |s| == |s0|
      invariant multiset(s) == multiset(s0)
      invariant Inserting(s, i, j)
    {
      SwapStep(s, i, j);
      s := SwapBack(s, j);
      j := j - 1;
    }
    InsertDone(s, i, j);
  }

  /** Insertion sort of a list of attributes by name, in the two-level
      order; a copy is sorted and returned. */
  method SortByName(attrs: seq<Attribute>) returns (s: seq<Attribute>)
    ensures multiset(s) == multiset(attrs)
    ensures AdjacentSorted(NamesOf(s))
  {
    s := attrs;
    for i := 0 to |attrs|
      invariant |s| == |attrs|
      invariant multiset(s) == multiset(attrs)
      invariant forall k :: 0 < k < i ==> InOrderAt(s, k)
    {
      s := InsertByName(s, i);
    }
    ghost var names := NamesOf(s);
    forall k | 0 < k < |names|
      ensures AlphabeticalOrder(names[k - 1], names[k]) <= 0
    {
      assert InOrderAt(s, k);
    }
  }

  class ProductService {
    /** The configured exclusion list; read-only once the service exists. */
    const illegalValues: seq<string>

    constructor (illegalValues: seq<string>)
      ensures this.illegalValues == illegalValues
    {
      this.illegalValues := illegalValues;
    }

    /** Capitalises the values of every attribute except the title, replacing
        each attribute's value list. An attribute object that occurs twice is
        normalised once in effect, since normalising is idempotent. */
    method NormalizeAttributesValues(product: Product)
      modifies product.attributes`values
      ensures forall i :: 0 <= i < |product.attributes| ==>
        product.attributes[i].values == NormalizeValues(product.attributes[i].name, old(product.attributes[i].values))
    {
      var attrs := product.attributes;
      for i := 0 to |attrs|
        invariant forall a: Attribute :: a in attrs[..i] ==> a.values == NormalizeValues(a.name, old(a.values))
        invariant forall a: Attribute :: a in attrs && a !in attrs[..i] ==> a.values == old(a.values)
      {
        var att := attrs[i];
        if att.name != TitleValue {
          var values := att.values;
          var normalizedValues := CapitalizeValues(values);
          att.values := normalizedValues;
          if att in attrs[..i] {
            NormalizeIdempotent(att.name, old(att.values));
          }
        }
        assert attrs[..i + 1] == attrs[..i] + [att];
      }
      assert attrs[..|attrs|] == attrs;
      forall i | 0 <= i < |attrs|
        ensures attrs[i].values == NormalizeValues(attrs[i].name, old(attrs[i].values))
      {
        assert attrs[i] in attrs[..|attrs|];
      }
    }

    /** One iteration of the filter loop, on the attribute at `i`: its
        value list is filtered; when some value is left, the attribute gets
        the filtered list and is appended to the attributes kept so far,
        otherwise it is left as it is. */
    method FilterStep(attrs: seq<Attribute>, i: nat, kept: seq<Attribute>,
                      ghost keep: seq<bool>, ghost orig: map<Attribute, seq<string>>)
      returns (next: seq<Attribute>)
      requires i < |attrs| == |keep| && FilteredUpTo(attrs, i, orig, illegalValues)
      requires keep[i] == (FilterValues(orig[attrs[i]], illegalValues) != [])
      requires kept == Select<Attribute>(attrs[..i], keep[..i])
      modifies attrs`values
      ensures FilteredUpTo(attrs, i + 1, orig, illegalValues)
      ensures next == Select<Attribute>(attrs[..i + 1], keep[..i + 1])
    {
      SelectPrefixStep<Attribute>(attrs, keep, i);
      var att := attrs[i];
      var values := att.values;
      FilterRevisit(values, orig[att], illegalValues);
      var filteredValues := FilterValues(values, illegalValues);
      next := kept;
      if |filteredValues| > 0 {
        att.values := filteredValues;
        next := kept + [att];
      }
    }

    /** The loop of the filter pass over `attrs`, whose value lists are
        `vals` on entry: every attribute ends up holding what filtering
        leaves of its values (or its values unchanged when nothing is left),
        and the attributes with values left are returned in order. */
    method FilterAttributes(attrs: seq<Attribute>, ghost vals: seq<seq<string>>)
      returns (filteredAttributes: seq<Attribute>)
      requires |vals| == |attrs| && forall k :: 0 <= k < |attrs| ==> vals[k] == attrs[k].values
      modifies attrs`values
      ensures filteredAttributes == Select<Attribute>(attrs, FilterMask(vals, illegalValues))
      ensures forall a: Attribute :: a in attrs ==> a.values == ValuesAfterFilter(old(a.values), illegalValues)
    {
      ghost var keep := FilterMask(vals, illegalValues);
      ghost var orig := map a | a in attrs :: a.values;
      filteredAttributes := [];
      for i := 0 to |attrs|
        invariant FilteredUpTo(attrs, i, orig, illegalValues)
        invariant filteredAttributes == Select<Attribute>(attrs[..i], keep[..i])
      {
        assert orig[attrs[i]] == vals[i];
        filteredAttributes := FilterStep(attrs, i, filteredAttributes, keep, orig);
      }
      assert attrs[..|attrs|] == attrs && keep[..|attrs|] == keep;
    }

    /** Drops every illegal value, then every attribute left with no value;
        the attributes kept and their values keep their order. An attribute
        that is dropped keeps its value list. */
    method FilterIllegalValues(product: Product) returns (ghost keep: seq<bool>)
      modifies product`attributes, product.attributes`values
      ensures |keep| == |old(product.attributes)|
      ensures forall i :: 0 <= i < |keep| ==>
        keep[i] == (FilterValues(old(product.attributes[i].values), illegalValues) != [])
      ensures product.attributes == Select<Attribute>(old(product.attributes), keep)
      ensures forall i :: 0 <= i < |old(product.attributes)| ==>
        old(product.attributes)[i].values == ValuesAfterFilter(old(product.attributes[i].values), illegalValues)
      ensures forall a: Attribute :: a in product.attributes ==> a.values != []
    {
      ghost var vals := ValuesOf(product.attributes);
      keep := FilterMask(vals, illegalValues);
      var filteredAttributes := FilterAttributes(product.attributes, vals);
      forall a: Attribute | a in filteredAttributes
        ensures a.values != []
      {
        var j :| 0 <= j < |filteredAttributes| && filteredAttributes[j] == a;
        SelectMembers<Attribute>(old(product.attributes), keep, j);
      }
      forall i | 0 <= i < |old(product.attributes)|
        ensures old(product.attributes)[i].values == ValuesAfterFilter(vals[i], illegalValues)
      {
        assert old(product.attributes)[i] in old(product.attributes);
      }
      product.attributes := filteredAttributes;
    }

    /** Sorts the attribute list by name, in the two-level order; the
        attribute objects themselves are not touched. */
    method SortAttributesByName(product: Product)
      modifies product`attributes
      ensures multiset(product.attributes) == multiset(old(product.attributes))
      ensures SortedNames(NamesOf(product.attributes))
    {
      var sorted := SortByName(product.attributes);
      ghost var names := NamesOf(sorted);
      AdjacentSortedIsSorted(names);
      product.attributes := sorted;
      assert NamesOf(product.attributes) == names;
    }
  }
}
