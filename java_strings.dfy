/** The parts of java.lang.String that the product service relies on.

    The case map is ASCII only: `ToUpper` and `ToLower` change the letters
    'a'..'z' and 'A'..'Z' and leave every other character alone.
    `String.toUpperCase` depends on the default locale and agrees with this
    on ASCII text in a non-Turkic locale; `String.CASE_INSENSITIVE_ORDER`
    maps characters with `Character.toUpperCase` and `toLowerCase`, ignores
    the locale, and agrees with this on ASCII text in every locale. */
module JavaStrings {

  predicate IsLowerAscii(c: char) { 'a' <= c <= 'z' }

  predicate IsUpperAscii(c: char) { 'A' <= c <= 'Z' }

  /** Character.toUpperCase on the ASCII range. */
  function ToUpper(c: char): (u: char)
    ensures IsLowerAscii(c) ==> IsUpperAscii(u) && u as int == c as int - 32
    ensures !IsLowerAscii(c) ==> u == c
  {
    if IsLowerAscii(c) then (c as int - 32) as char else c
  }

  /** Character.toLowerCase on the ASCII range. */
  function ToLower(c: char): (l: char)
    ensures IsUpperAscii(c) ==> IsLowerAscii(l) && l as int == c as int + 32
    ensures !IsUpperAscii(c) ==> l == c
  {
    if IsUpperAscii(c) then (c as int + 32) as char else c
  }

  /** Every character of `s` lower-cased. */
  function LowerAll(s: string): (r: string)
    ensures |r| == |s|
    ensures forall i :: 0 <= i < |s| ==> r[i] == ToLower(s[i])
  {
    if s == [] then [] else [ToLower(s[0])] + LowerAll(s[1..])
  }

  /** String.compareTo: the difference of the first pair of characters that
      differ, or the difference of the lengths when one string is a prefix of
      the other. */
  function CompareTo(s: string, t: string): int
  {
    if s == [] || t == [] then |s| - |t|
    else if s[0] != t[0] then s[0] as int - t[0] as int
    else CompareTo(s[1..], t[1..])
  }

  /** One step of String.CASE_INSENSITIVE_ORDER: both characters are
      upper-cased, and if they still differ, lower-cased and subtracted. */
  function CompareIgnoreCaseChar(c1: char, c2: char): (r: int)
    ensures r == ToLower(c1) as int - ToLower(c2) as int
  {
    if c1 == c2 then 0
    else
      var u1, u2 := ToUpper(c1), ToUpper(c2);
      if u1 == u2 then 0
      else
        var l1, l2 := ToLower(u1), ToLower(u2);
        if l1 == l2 then 0 else l1 as int - l2 as int
  }

  /** String.CASE_INSENSITIVE_ORDER.compare. */
  function CompareIgnoreCase(s: string, t: string): int
  {
    if s == [] || t == [] then |s| - |t|
    else
      var c := CompareIgnoreCaseChar(s[0], t[0]);
      if c != 0 then c else CompareIgnoreCase(s[1..], t[1..])
  }

  /** compareTo reports equality for equal strings only. */
  lemma {:induction false} CompareToZeroIff(s: string, t: string)
    ensures CompareTo(s, t) == 0 <==> s == t
  {
    if s != [] && t != [] && s[0] == t[0] {
      CompareToZeroIff(s[1..], t[1..]);
      assert s == [s[0]] + s[1..] && t == [t[0]] + t[1..];
    }
  }

  /** Swapping the operands of compareTo negates the result. */
  lemma {:induction false} CompareToAntisymmetric(s: string, t: string)
    ensures CompareTo(s, t) == -CompareTo(t, s)
  {
    if s != [] && t != [] && s[0] == t[0] {
      CompareToAntisymmetric(s[1..], t[1..]);
    }
  }

  /** compareTo is a transitive strict order. */
  lemma {:induction false} CompareToTransitive(a: string, b: string, c: string)
    requires CompareTo(a, b) < 0 && CompareTo(b, c) < 0
    ensures CompareTo(a, c) < 0
  {
    if a != [] && b != [] && c != [] && a[0] == b[0] && b[0] == c[0] {
      CompareToTransitive(a[1..], b[1..], c[1..]);
    }
  }

  /** A proper prefix comes before the longer string. */
  lemma {:induction false} CompareToPrefix(s: string, t: string)
    requires |s| < |t| && s == t[..|s|]
    ensures CompareTo(s, t) < 0
  {
    if s != [] {
      assert s[1..] == t[1..][..|s| - 1];
      CompareToPrefix(s[1..], t[1..]);
    }
  }

  /** Under the ASCII case map, CASE_INSENSITIVE_ORDER is compareTo applied to
      the lower-cased strings. */
  lemma {:induction false} CompareIgnoreCaseIsCompareToLowered(s: string, t: string)
    ensures CompareIgnoreCase(s, t) == CompareTo(LowerAll(s), LowerAll(t))
  {
    if s != [] && t != [] {
      CompareIgnoreCaseIsCompareToLowered(s[1..], t[1..]);
      assert LowerAll(s)[1..] == LowerAll(s[1..]);
      assert LowerAll(t)[1..] == LowerAll(t[1..]);
    }
  }
}
