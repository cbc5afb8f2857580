# Product processor: the attribute pipeline

This project models the core of the product processor. A product has an id
and an ordered list of attributes, and each attribute has a name and an
ordered list of string values. The upsert endpoint of `ProductController`
runs three in-place passes of `ProductService` over the posted product and
returns the same object:

1. `normalizeAttributesValues` skips the attribute named exactly `title`.
   Every other attribute's values are replaced: a value longer than one
   character gets its first character upper-cased and keeps its remainder.
2. `filterIllegalValues` drops every value equal to an entry of the
   configured exclusion list. It then drops every attribute left with no
   value, in order.
3. `sortAttributesByName` sorts the attribute list by name. Names are
   compared case-insensitively, and `compareTo` breaks ties.

The model is imperative, like the source. `Model.Attribute` and
`Model.Product` are classes with mutable fields. The passes are methods of
`Services.ProductService` with `modifies` clauses. Their loops carry
invariants, and their contracts relate the new state to specification
functions of the old state (`NormalizeValues`, `FilterValues`,
`ValuesAfterFilter`, `Select`, `AlphabeticalOrder`). Lemmas prove the
properties of those functions.

The case map is ASCII only. `JavaStrings.ToUpper` and `JavaStrings.ToLower`
change `a`..`z` and `A`..`Z` and nothing else. `String.toUpperCase`
(ProductService.java line 29) depends on the default locale and agrees with
this on ASCII text in a non-Turkic default locale. `String.CASE_INSENSITIVE_ORDER`
(line 54) maps characters with `Character.toUpperCase` and
`Character.toLowerCase`, ignores the locale, and agrees with this on ASCII
text in every locale. The exclusion list, injected from configuration in
the source, is the constructor argument and constant field
`illegalValues: seq<string>` of `ProductService`.

Attribute objects may be shared: the same attribute can occur twice in a
product's list. The contracts hold in that case too. Normalising and
filtering are idempotent, so processing an object twice has the effect of
processing it once.

Files:
- `java_strings.dfy`: the ASCII case map, `String.compareTo` and `String.CASE_INSENSITIVE_ORDER`.
- `attribute_order.dfy`: the two-level comparator and its order properties.
- `model.dfy`: the classes `Attribute` and `Product`.
- `value_rules.dfy`: what happens to one value and to one attribute's values, plus `Select`, keeping the flagged entries of a list.
- `product_service.dfy`: the three passes.
- `product_controller.dfy`: upsert.
- `scenarios.dfy`: the integration scenarios: the value tests as lemmas, and the two sort tests also as methods that build the posted product and call upsert.

## Model

Source paths are relative to the repository root.

| member | source | states |
|---|---|---|
| JavaStrings.ToUpper | product-processor/src/main/java/com/ebay/candidates/productprocessor/services/ProductService.java:29 | upper-casing maps `a`..`z` to `A`..`Z` (code point minus 32) and leaves every other character unchanged |
| JavaStrings.ToLower | product-processor/src/main/java/com/ebay/candidates/productprocessor/services/ProductService.java:54 | lower-casing maps `A`..`Z` to `a`..`z` and leaves every other character unchanged |
| JavaStrings.CompareIgnoreCaseChar | product-processor/src/main/java/com/ebay/candidates/productprocessor/services/ProductService.java:54 | one character step of the case-insensitive order (upper-case both, then lower-case both) is the difference of the lower-cased characters |
| JavaStrings.CompareTo | product-processor/src/main/java/com/ebay/candidates/productprocessor/services/ProductService.java:56 | `compareTo` as the difference of the first differing characters, or of the lengths when one string is a prefix of the other; it carries no contract of its own, and the four `CompareTo…` lemmas below state its properties: zero exactly on equal strings, antisymmetric, transitive, a proper prefix first |
| JavaStrings.CompareToZeroIff | product-processor/src/main/java/com/ebay/candidates/productprocessor/services/ProductService.java:56 | `compareTo` is zero iff the strings are equal |
| JavaStrings.CompareToAntisymmetric | product-processor/src/main/java/com/ebay/candidates/productprocessor/services/ProductService.java:56 | swapping the operands of `compareTo` negates the result |
| JavaStrings.CompareToTransitive | product-processor/src/main/java/com/ebay/candidates/productprocessor/services/ProductService.java:56 | `compareTo` is a transitive strict order |
| JavaStrings.CompareToPrefix | product-processor/src/main/java/com/ebay/candidates/productprocessor/services/ProductService.java:56 | a proper prefix compares below the longer string |
| JavaStrings.CompareIgnoreCase | product-processor/src/main/java/com/ebay/candidates/productprocessor/services/ProductService.java:54 | `CASE_INSENSITIVE_ORDER.compare`, character by character through `CompareIgnoreCaseChar`; it carries no contract of its own, and `CompareIgnoreCaseIsCompareToLowered` states that it equals `compareTo` of the lower-cased strings |
| JavaStrings.CompareIgnoreCaseIsCompareToLowered | product-processor/src/main/java/com/ebay/candidates/productprocessor/services/ProductService.java:54 | the case-insensitive order equals `compareTo` on the lower-cased strings |
| AttributeOrder.AlphabeticalOrder | product-processor/src/main/java/com/ebay/candidates/productprocessor/services/ProductService.java:53-59 | the comparator of `sortAttributesByName`: case-insensitive order, with `compareTo` deciding ties; it carries no contract of its own, and the `AlphabeticalOrder…` and `CaseInsensitive…` lemmas below state that it is zero only on identical names, antisymmetric, transitive and total, and that it orders names that differ up to case by their lower-cased forms |
| AttributeOrder.AlphabeticalOrderZeroIff | product-processor/src/main/java/com/ebay/candidates/productprocessor/services/ProductService.java:64-72 | the comparator is zero only for identical names, so distinct names never tie |
| AttributeOrder.AlphabeticalOrderAntisymmetric | product-processor/src/main/java/com/ebay/candidates/productprocessor/services/ProductService.java:53-59 | swapping the names negates the comparator |
| AttributeOrder.AlphabeticalOrderTransitive | product-processor/src/main/java/com/ebay/candidates/productprocessor/services/ProductService.java:53-59 | the strict comparator order is transitive |
| AttributeOrder.AlphabeticalOrderTransitiveLe | product-processor/src/main/java/com/ebay/candidates/productprocessor/services/ProductService.java:53-59 | the non-strict comparator order is transitive |
| AttributeOrder.AlphabeticalOrderTotal | product-processor/src/main/java/com/ebay/candidates/productprocessor/services/ProductService.java:53-59 | any two names are ordered one way or the other |
| AttributeOrder.CaseInsensitiveDecides | product-processor/src/main/java/com/ebay/candidates/productprocessor/services/ProductService.java:54-55 | names that differ case-insensitively are ordered by the lower-cased comparison alone; `compareTo` only decides ties |
| AttributeOrder.CaseInsensitivePrefixFirst | product-processor/src/main/java/com/ebay/candidates/productprocessor/services/ProductService.java:54 | a name that is a case-insensitive proper prefix of another comes first |
| AttributeOrder.AdjacentSortedIsSorted | product-processor/src/main/java/com/ebay/candidates/productprocessor/services/ProductService.java:52-60 | ordering each adjacent pair orders every pair, by transitivity |
| AttributeOrder.SortedUnique | product-processor/src/main/java/com/ebay/candidates/productprocessor/services/ProductService.java:52-60 | two sorted sequences holding the same names with the same multiplicities are equal: the sorted result is determined by its input names |
| ValueRules.Capitalize | product-processor/src/main/java/com/ebay/candidates/productprocessor/services/ProductService.java:27-30 | a value keeps its length and every character after the first; its first character is upper-cased iff the value is longer than one character |
| ValueRules.CapitalizeFixedPoints | product-processor/src/main/java/com/ebay/candidates/productprocessor/services/ProductService.java:27-30 | a value is left unchanged iff it has length at most 1 or does not start with a lower-case letter, and every result is of that kind |
| ValueRules.CapitalizeIdempotent | product-processor/src/main/java/com/ebay/candidates/productprocessor/services/ProductService.java:27-30 | capitalising twice equals capitalising once |
| ValueRules.CapitalizeAll | product-processor/src/main/java/com/ebay/candidates/productprocessor/services/ProductService.java:26-32 | the list keeps its length and order, and each entry is capitalised |
| ValueRules.NormalizeValues | product-processor/src/main/java/com/ebay/candidates/productprocessor/services/ProductService.java:23-33 | the title's values are returned unchanged (exact, case-sensitive name match); any other attribute's values keep their length and order and are each capitalised |
| ValueRules.NormalizeIdempotent | product-processor/src/main/java/com/ebay/candidates/productprocessor/services/ProductService.java:22-35 | normalising already normalised values changes nothing |
| ValueRules.FilterValues | product-processor/src/main/java/com/ebay/candidates/productprocessor/services/ProductService.java:42 | the stream filter of one attribute's values keeps at most as many values as it is given; `FilterMembers`, `FilterMultiplicity` and `FilterAppend` below state that it keeps exactly the values not on the exclusion list, each as often as it occurs, in their order |
| ValueRules.FilterMembers | product-processor/src/main/java/com/ebay/candidates/productprocessor/services/ProductService.java:42 | a value is in the filtered list iff it is in the input and not in the exclusion list |
| ValueRules.FilterAppend | product-processor/src/main/java/com/ebay/candidates/productprocessor/services/ProductService.java:42 | filtering distributes over concatenation, so surviving values keep their relative order |
| ValueRules.FilterMultiplicity | product-processor/src/main/java/com/ebay/candidates/productprocessor/services/ProductService.java:42 | a legal value survives as often as it occurs, and an illegal value never does |
| ValueRules.FilterKeepsLegal | product-processor/src/main/java/com/ebay/candidates/productprocessor/services/ProductService.java:42 | a list with no illegal value is returned whole |
| ValueRules.FilterIdempotent | product-processor/src/main/java/com/ebay/candidates/productprocessor/services/ProductService.java:42 | filtering twice equals filtering once |
| ValueRules.Survives | product-processor/src/main/java/com/ebay/candidates/productprocessor/services/ProductService.java:42-43 | whether the attribute is kept: its normalised values have one that the filter keeps; `SurvivesIff` below states this in terms of the original values |
| ValueRules.SurvivesIff | product-processor/src/main/java/com/ebay/candidates/productprocessor/services/ProductService.java:42-43 | an attribute survives normalisation and filtering iff one of its normalised values is not illegal |
| ValueRules.NormalizeThenFilterMembers | product-processor/src/main/java/com/ebay/candidates/productprocessor/controller/ProductController.java:23-24 | after both passes the title holds exactly its legal input values, and any other attribute holds exactly the legal capitalised forms of its values, so a value that becomes illegal only once capitalised is gone |
| ValueRules.NormalizeThenFilterIdempotent | product-processor/src/main/java/com/ebay/candidates/productprocessor/controller/ProductController.java:23-24 | normalising and filtering the output of normalisation and filtering changes nothing |
| ValueRules.ValuesAfterFilter | product-processor/src/main/java/com/ebay/candidates/productprocessor/services/ProductService.java:43-45 | the values an attribute holds once the filter pass has seen it; `ValuesAfterFilterMembers` and `ValuesAfterFilterStable` below state what they are |
| ValueRules.ValuesAfterFilterMembers | product-processor/src/main/java/com/ebay/candidates/productprocessor/services/ProductService.java:43-45 | an attribute with some legal value is left holding exactly its legal values; one with none keeps its list unchanged (and is then dropped) |
| ValueRules.ValuesAfterFilterStable | product-processor/src/main/java/com/ebay/candidates/productprocessor/services/ProductService.java:41-46 | visiting an attribute a second time in the filter pass filters nothing more and leaves its values alone |
| ValueRules.UpsertAttributeIdempotent | product-processor/src/main/java/com/ebay/candidates/productprocessor/controller/ProductController.java:23-24 | an attribute that survives both passes survives them again, and the second round leaves its values as the first round left them |
| ValueRules.Select | product-processor/src/main/java/com/ebay/candidates/productprocessor/services/ProductService.java:40-47 | the attributes the filter loop keeps, the flagged ones in order, at most as many as it is given; the `Select…` lemmas below state which entries it keeps |
| ValueRules.SelectAll | product-processor/src/main/java/com/ebay/candidates/productprocessor/services/ProductService.java:40-47 | when every attribute is flagged, the loop keeps the whole list unchanged |
| ValueRules.SelectMembers | product-processor/src/main/java/com/ebay/candidates/productprocessor/services/ProductService.java:40-47 | every entry of the kept list is an entry of the input at a flagged position |
| ValueRules.SelectKeepsFlagged | product-processor/src/main/java/com/ebay/candidates/productprocessor/services/ProductService.java:40-47 | every entry at a flagged position is kept |
| ValueRules.SelectContains | product-processor/src/main/java/com/ebay/candidates/productprocessor/services/ProductService.java:40-47 | an entry is kept iff it sits at some flagged position |
| ValueRules.SelectMultiplicity | product-processor/src/main/java/com/ebay/candidates/productprocessor/services/ProductService.java:40-47 | an entry whose occurrences are all flagged alike is kept as often as it occurs or not at all |
| ValueRules.SelectAppend | product-processor/src/main/java/com/ebay/candidates/productprocessor/services/ProductService.java:40-47 | keeping distributes over concatenation, so kept entries keep their relative order |
| Services.NamesPermuted | product-processor/src/main/java/com/ebay/candidates/productprocessor/services/ProductService.java:51-63 | a permutation of attribute objects permutes their names, so a list that holds the same objects holds the same names |
| Services.KeptAllNames | product-processor/src/main/java/com/ebay/candidates/productprocessor/services/ProductService.java:38-49 | when every attribute survives the filter pass, the result holds the posted names, in some order |
| Services.CapitalizeValues | product-processor/src/main/java/com/ebay/candidates/productprocessor/services/ProductService.java:24-32 | the loop that builds `normalizedValues` returns the capitalised list |
| Services.InsertByName | product-processor/src/main/java/com/ebay/candidates/productprocessor/services/ProductService.java:52-60 | one insertion pass: it returns a permutation of the input whose first `i + 1` names are in comparator order when the first `i` were |
| Services.SortByName | product-processor/src/main/java/com/ebay/candidates/productprocessor/services/ProductService.java:52-60 | the insertion sort returns a permutation of the input whose adjacent names are in comparator order |
| Services.ProductService.constructor | product-processor/src/main/java/com/ebay/candidates/productprocessor/services/ProductService.java:18-19 | the service holds the given exclusion list |
| Services.ProductService.NormalizeAttributesValues | product-processor/src/main/java/com/ebay/candidates/productprocessor/services/ProductService.java:21-36 | each attribute's new values are `NormalizeValues` of its name and old values; only `values` fields change, so the attribute list and the names keep their order |
| Services.ProductService.FilterStep | product-processor/src/main/java/com/ebay/candidates/productprocessor/services/ProductService.java:40-46 | one loop iteration: the attribute at `i` gets its filtered values and is appended iff some value is left, keeping the loop invariant |
| Services.ProductService.FilterAttributes | product-processor/src/main/java/com/ebay/candidates/productprocessor/services/ProductService.java:39-47 | the loop returns, in order, exactly the attributes with a legal value; each attribute holds `ValuesAfterFilter` of its old values |
| Services.ProductService.FilterIllegalValues | product-processor/src/main/java/com/ebay/candidates/productprocessor/services/ProductService.java:38-49 | the new attribute list keeps, in order, exactly the attributes whose values are not all illegal; each attribute holds `ValuesAfterFilter` of its old values; every attribute left has a non-empty value list |
| Services.ProductService.SortAttributesByName | product-processor/src/main/java/com/ebay/candidates/productprocessor/services/ProductService.java:51-63 | the new attribute list is a permutation of the old one, sorted by the two-level order; attributes are not modified |
| Controller.ProductController.constructor | product-processor/src/main/java/com/ebay/candidates/productprocessor/controller/ProductController.java:17-18 | the controller holds the given service |
| Controller.ProductController.Upsert | product-processor/src/main/java/com/ebay/candidates/productprocessor/controller/ProductController.java:21-27 | returns the same product with its id unchanged; its attributes are a permutation of the input attributes for which `Survives` holds; each input attribute holds `ValuesAfterFilter` of its normalised values; every result attribute has values; the names are sorted |
| Model.Attribute.constructor | product-processor/src/test/java/com/ebay/candidates/productprocessor/integration/ProductProcessingTest.java:28-30 | an attribute is created with the given name and values |
| Model.Product.constructor | product-processor/src/test/java/com/ebay/candidates/productprocessor/integration/ProductProcessingTest.java:27-31 | a product is created with the given id and attribute list |
| Scenarios.TitleKept | product-processor/src/test/java/com/ebay/candidates/productprocessor/integration/ProductProcessingTest.java:26-40 | the title value `ralph Lauren Men's Tshirt` survives unchanged |
| Scenarios.ColorCapitalized | product-processor/src/test/java/com/ebay/candidates/productprocessor/integration/ProductProcessingTest.java:26-40 | `red`, `blue` become `Red`, `Blue` |
| Scenarios.SizeCapitalized | product-processor/src/test/java/com/ebay/candidates/productprocessor/integration/ProductProcessingTest.java:26-40 | `xl` becomes `Xl` |
| Scenarios.ColorAlreadyCapital | product-processor/src/test/java/com/ebay/candidates/productprocessor/integration/ProductProcessingTest.java:43-57 | `Red`, `blue` become `Red`, `Blue` |
| Scenarios.SizeAlreadyCapital | product-processor/src/test/java/com/ebay/candidates/productprocessor/integration/ProductProcessingTest.java:43-57 | `Xl` stays `Xl` |
| Scenarios.ColorExcluded | product-processor/src/test/java/com/ebay/candidates/productprocessor/integration/ProductProcessingTest.java:60-73 | `red`, `N/A` leave `Red` |
| Scenarios.SizeExcluded | product-processor/src/test/java/com/ebay/candidates/productprocessor/integration/ProductProcessingTest.java:60-73 | an attribute whose only value is `Not Applied` is dropped |
| Scenarios.ColorExcludedAfterNormalization | product-processor/src/test/java/com/ebay/candidates/productprocessor/integration/ProductProcessingTest.java:76-89 | `red`, `n/A` leave `Red`, because `n/A` becomes the excluded `N/A` |
| Scenarios.SizeExcludedAfterNormalization | product-processor/src/test/java/com/ebay/candidates/productprocessor/integration/ProductProcessingTest.java:76-89 | an attribute whose only value is `not Applied` is dropped, because it becomes the excluded `Not Applied` |
| Scenarios.PlainNamesSorted | product-processor/src/test/java/com/ebay/candidates/productprocessor/integration/ProductProcessingTest.java:103 | `brand`, `color`, `size`, `title` are in comparator order |
| Scenarios.SortScenario | product-processor/src/test/java/com/ebay/candidates/productprocessor/integration/ProductProcessingTest.java:93-103 | any sorted permutation of `title`, `color`, `size`, `brand` is exactly `brand`, `color`, `size`, `title` |
| Scenarios.CaseNamesSorted | product-processor/src/test/java/com/ebay/candidates/productprocessor/integration/ProductProcessingTest.java:118 | `brand`, `color`, `Color of sleeve`, `size`, `title` are in comparator order |
| Scenarios.CaseSensitiveSortScenario | product-processor/src/test/java/com/ebay/candidates/productprocessor/integration/ProductProcessingTest.java:107-118 | any sorted permutation of the five names of that scenario is exactly `brand`, `color`, `Color of sleeve`, `size`, `title` |
| Scenarios.RedKept | product-processor/src/test/java/com/ebay/candidates/productprocessor/integration/ProductProcessingTest.java:93-98 | a single value `red` under any name but `title` survives as `Red` |
| Scenarios.BrandKept | product-processor/src/test/java/com/ebay/candidates/productprocessor/integration/ProductProcessingTest.java:93-98 | the brand `sony` survives |
| Scenarios.SortKeepsAll | product-processor/src/test/java/com/ebay/candidates/productprocessor/integration/ProductProcessingTest.java:93-98 | every attribute of the sort scenario survives normalisation and filtering |
| Scenarios.CaseKeepsAll | product-processor/src/test/java/com/ebay/candidates/productprocessor/integration/ProductProcessingTest.java:107-113 | every attribute of the case-sensitive sort scenario survives normalisation and filtering |
| Scenarios.SortByAttributeNames | product-processor/src/test/java/com/ebay/candidates/productprocessor/integration/ProductProcessingTest.java:93-103 | posting title, color, size, brand (every value legal) through `Upsert` returns the attributes in the order brand, color, size, title |
| Scenarios.SortByAttributeNamesCaseSensitive | product-processor/src/test/java/com/ebay/candidates/productprocessor/integration/ProductProcessingTest.java:107-118 | posting title, Color of sleeve, color, size, brand through `Upsert` returns them in the order brand, color, Color of sleeve, size, title |

## Left out

- HTTP routing, `@RequestBody` and `ResponseEntity` wrapping, and the GET echo endpoint (ProductController.java lines 28-32): framework plumbing with no logic. Upsert returns the product itself, not a response entity.
- Spring's `@Value` injection of `attribute-values.exclusion-list` (ProductService.java lines 18-19): the list is a constructor argument. That configuration file is not part of this model; the scenarios use "N/A" and "Not Applied", as the tests imply.
- JSON (de)serialisation of `Product` and `Attribute`, and the test harness (`BaseTest`, `TestRestTemplate`, `toAttributesMap`).
- The classes `Product` and `Attribute` are not part of this model's sources. Their fields are inferred from the getters, setters and constructors used. The Java id is a `long`; here it is an unbounded `int`, which is safe because no pass reads or writes it.
- Unicode and locale-dependent case mapping (for example characters whose upper-case form has a different length, or the Turkish dotted i): the case map is ASCII only. Under a Turkish or Azeri default locale, `String.toUpperCase` at ProductService.java line 29 upper-cases `i` to a dotted capital I, which the model does not. The comparator at line 54 is not affected, because `CASE_INSENSITIVE_ORDER` ignores the locale.
- Strings as UTF-16: a Dafny `char` is a Unicode scalar value, while a Java `char` is a UTF-16 code unit. A supplementary character is one `char` here and two in Java. So `substring(0, 1)` here takes the whole character, where Java takes half of a surrogate pair. `JavaStrings.CompareTo` and `JavaStrings.CompareIgnoreCase` compare code points, where Java compares code units. The two orders differ once supplementary characters occur: the model puts U+FFFF before U+10000, and Java puts it after, because U+10000 begins with the code unit 0xD800.
- `null` products, attributes, names, value lists and values: the model has no null values. A Java `NullPointerException` on such input is not modelled.
- Services.ProductService.SortAttributesByName: stability of `Collections.sort` is not stated. It only matters for attributes with identical names, because the comparator is zero only for identical names (`AttributeOrder.AlphabeticalOrderZeroIff`).
- Services.ProductService.SortAttributesByName: `Collections.sort` hands the `ArrayList` installed by the filter pass to `ArrayList.sort`, which sorts the list in place with a merge sort. The model sorts a copy of the sequence with an insertion sort and assigns it back. Both give the same sequence of names (`AttributeOrder.SortedUnique`); that the attribute objects also come out in the same order is not proved (see the stability line above).
- Controller.ProductController.Upsert: states that the result is a permutation of the surviving input attributes, not their order. The order of the names is fixed by sortedness, but the order among attributes with identical names is left unstated (see the stability line above). The ghost out-parameter `keep` names which input attributes survive.
- The unused `ALPHABETICAL_ORDER` field (ProductService.java lines 64-72) is not a separate member. It computes the same function as the anonymous comparator, `AttributeOrder.AlphabeticalOrder`.
