/** The integration scenarios of the product processor, restated on the model.
    Each scenario posts one product with id 100, and the exclusion list is
    "N/A" and "Not Applied", as the scenarios imply. A scenario checks what
    upsert leaves of each attribute, or the order of the attribute names.

    The contract of `Controller.ProductController.Upsert` says which
    attributes are in the result: exactly those for which `Survives` holds on
    their name and original values. Each of them then holds `ValuesAfterFilter`
    of what `NormalizeValues` makes of its values. The value scenarios are
    lemmas about those two functions. The two sort scenarios are also methods
    that build the posted product and call `Upsert`: every attribute survives,
    so the result holds the posted objects in some order, and by
    `Services.NamesPermuted` the posted names in some order. The names are
    sorted, and by `AttributeOrder.SortedUnique` that fixes their sequence. */
module Scenarios {
  import opened AttributeOrder
  import opened ValueRules
  import opened Model
  import opened Services
  import opened Controller

  const ExclusionList: seq<string> := ["N/A", "Not Applied"]

  const TitleText: string := "ralph Lauren Men's Tshirt"

  /** The title keeps its lower-case first letter and survives whole. */
  lemma TitleKept()
    ensures Survives(TitleValue, [TitleText], ExclusionList)
    ensures ValuesAfterFilter(NormalizeValues(TitleValue, [TitleText]), ExclusionList) == [TitleText]
  {
    assert TitleText !in ExclusionList;
    assert FilterValues([TitleText], ExclusionList) == [TitleText];
  }

  /** Lower-case colours are capitalised: red, blue become Red, Blue. */
  lemma ColorCapitalized()
    ensures Survives("color", ["red", "blue"], ExclusionList)
    ensures ValuesAfterFilter(NormalizeValues("color", ["red", "blue"]), ExclusionList) == ["Red", "Blue"]
  {
    assert Capitalize("red") == "Red";
    assert Capitalize("blue") == "Blue";
    assert NormalizeValues("color", ["red", "blue"]) == ["Red", "Blue"];
    assert "Red" !in ExclusionList && "Blue" !in ExclusionList;
    assert FilterValues(["Blue"], ExclusionList) == ["Blue"];
    assert FilterValues(["Red", "Blue"], ExclusionList) == ["Red", "Blue"];
  }

  /** A two-letter size is capitalised too: xl becomes Xl. */
  lemma SizeCapitalized()
    ensures Survives("size", ["xl"], ExclusionList)
    ensures ValuesAfterFilter(NormalizeValues("size", ["xl"]), ExclusionList) == ["Xl"]
  {
    assert Capitalize("xl") == "Xl";
    assert NormalizeValues("size", ["xl"]) == ["Xl"];
    assert "Xl" !in ExclusionList;
    assert FilterValues(["Xl"], ExclusionList) == ["Xl"];
  }

  /** A value that is already capitalised is kept: Red, blue become Red, Blue. */
  lemma ColorAlreadyCapital()
    ensures Survives("color", ["Red", "blue"], ExclusionList)
    ensures ValuesAfterFilter(NormalizeValues("color", ["Red", "blue"]), ExclusionList) == ["Red", "Blue"]
  {
    assert Capitalize("Red") == "Red";
    assert Capitalize("blue") == "Blue";
    assert NormalizeValues("color", ["Red", "blue"]) == ["Red", "Blue"];
    assert "Red" !in ExclusionList && "Blue" !in ExclusionList;
    assert FilterValues(["Blue"], ExclusionList) == ["Blue"];
    assert FilterValues(["Red", "Blue"], ExclusionList) == ["Red", "Blue"];
  }

  /** Xl stays Xl. */
  lemma SizeAlreadyCapital()
    ensures Survives("size", ["Xl"], ExclusionList)
    ensures ValuesAfterFilter(NormalizeValues("size", ["Xl"]), ExclusionList) == ["Xl"]
  {
    assert Capitalize("Xl") == "Xl";
    assert NormalizeValues("size", ["Xl"]) == ["Xl"];
    assert "Xl" !in ExclusionList;
    assert FilterValues(["Xl"], ExclusionList) == ["Xl"];
  }

  /** An excluded value is dropped: red, N/A leave Red. */
  lemma ColorExcluded()
    ensures Survives("color", ["red", "N/A"], ExclusionList)
    ensures ValuesAfterFilter(NormalizeValues("color", ["red", "N/A"]), ExclusionList) == ["Red"]
  {
    assert Capitalize("red") == "Red";
    assert Capitalize("N/A") == "N/A";
    assert NormalizeValues("color", ["red", "N/A"]) == ["Red", "N/A"];
    assert "Red" !in ExclusionList;
    assert FilterValues(["N/A"], ExclusionList) == [];
    assert FilterValues(["Red", "N/A"], ExclusionList) == ["Red"];
  }

  /** An attribute whose only value is excluded is dropped. */
  lemma SizeExcluded()
    ensures !Survives("size", ["Not Applied"], ExclusionList)
  {
    assert Capitalize("Not Applied") == "Not Applied";
    assert NormalizeValues("size", ["Not Applied"]) == ["Not Applied"];
    assert FilterValues(["Not Applied"], ExclusionList) == [];
  }

  /** A value that is excluded only once capitalised is dropped as well:
      red, n/A leave Red. */
  lemma ColorExcludedAfterNormalization()
    ensures Survives("color", ["red", "n/A"], ExclusionList)
    ensures ValuesAfterFilter(NormalizeValues("color", ["red", "n/A"]), ExclusionList) == ["Red"]
  {
    assert Capitalize("red") == "Red";
    assert Capitalize("n/A") == "N/A";
    assert NormalizeValues("color", ["red", "n/A"]) == ["Red", "N/A"];
    assert "Red" !in ExclusionList;
    assert FilterValues(["N/A"], ExclusionList) == [];
    assert FilterValues(["Red", "N/A"], ExclusionList) == ["Red"];
  }

  /** An attribute whose only value becomes excluded once capitalised is
      dropped: not Applied becomes Not Applied. */
  lemma SizeExcludedAfterNormalization()
    ensures !Survives("size", ["not Applied"], ExclusionList)
  {
    assert Capitalize("not Applied") == "Not Applied";
    assert NormalizeValues("size", ["not Applied"]) == ["Not Applied"];
    assert FilterValues(["Not Applied"], ExclusionList) == [];
  }

  /** A single value red under any name but the title survives as Red. */
  lemma RedKept(name: string)
    requires name != TitleValue
    ensures Survives(name, ["red"], ExclusionList)
    ensures ValuesAfterFilter(NormalizeValues(name, ["red"]), ExclusionList) == ["Red"]
  {
    assert Capitalize("red") == "Red";
    assert NormalizeValues(name, ["red"]) == ["Red"];
    assert "Red" !in ExclusionList;
    assert FilterValues(["Red"], ExclusionList) == ["Red"];
  }

  /** The brand sony survives as Sony. */
  lemma BrandKept()
    ensures Survives("brand", ["sony"], ExclusionList)
  {
    assert Capitalize("sony") == "Sony";
    assert NormalizeValues("brand", ["sony"]) == ["Sony"];
    assert "Sony" !in ExclusionList;
    assert FilterValues(["Sony"], ExclusionList) == ["Sony"];
  }

  /** brand, color, size, title are in order. */
  lemma PlainNamesSorted()
    ensures SortedNames(["brand", "color", "size", "title"])
  {
    var expected := ["brand", "color", "size", "title"];
    assert AlphabeticalOrder("brand", "color") < 0;
    assert AlphabeticalOrder("color", "size") < 0;
    assert AlphabeticalOrder("size", "title") < 0;
    assert AdjacentSorted(expected);
    AdjacentSortedIsSorted(expected);
  }

  /** The names of the sort scenario, whatever order they are posted in, come
      out as brand, color, size, title. */
  lemma SortScenario(names: seq<string>)
    requires SortedNames(names)
    requires multiset(names) == multiset(SortNames)
    ensures names == ["brand", "color", "size", "title"]
  {
    assert multiset(SortNames) == multiset{"title", "color", "size", "brand"};
    assert multiset(["brand", "color", "size", "title"]) == multiset{"title", "color", "size", "brand"};
    PlainNamesSorted();
    SortedUnique(names, ["brand", "color", "size", "title"]);
  }

  /** brand, color, Color of sleeve, size, title are in order: color is a
      case-insensitive prefix of Color of sleeve. */
  lemma CaseNamesSorted()
    ensures SortedNames(["brand", "color", "Color of sleeve", "size", "title"])
  {
    var expected := ["brand", "color", "Color of sleeve", "size", "title"];
    assert AlphabeticalOrder("brand", "color") < 0;
    CaseInsensitivePrefixFirst("color", "Color of sleeve");
    assert AlphabeticalOrder("Color of sleeve", "size") < 0;
    assert AlphabeticalOrder("size", "title") < 0;
    assert AdjacentSorted(expected);
    AdjacentSortedIsSorted(expected);
  }

  /** The names of the case-sensitive sort scenario come out as brand, color,
      Color of sleeve, size, title. */
  lemma CaseSensitiveSortScenario(names: seq<string>)
    requires SortedNames(names)
    requires multiset(names) == multiset(CaseNames)
    ensures names == ["brand", "color", "Color of sleeve", "size", "title"]
  {
    assert multiset(CaseNames) == multiset{"title", "Color of sleeve", "color", "size", "brand"};
    assert multiset(["brand", "color", "Color of sleeve", "size", "title"])
      == multiset{"title", "Color of sleeve", "color", "size", "brand"};
    CaseNamesSorted();
    SortedUnique(names, ["brand", "color", "Color of sleeve", "size", "title"]);
  }

  /** The attributes of the sort scenario, as posted: names and value lists. */
  const SortNames: seq<string> := [TitleValue, "color", "size", "brand"]
  const SortValues: seq<seq<string>> := [[TitleText], ["red"], ["xl"], ["sony"]]

  /** The attributes of the case-sensitive sort scenario, as posted. */
  const CaseNames: seq<string> := [TitleValue, "Color of sleeve", "color", "size", "brand"]
  const CaseValues: seq<seq<string>> := [[TitleText], ["red"], ["red"], ["xl"], ["sony"]]

  /** Each scenario posts one value list per name. */
  lemma ScenarioShapes()
    ensures |SortNames| == |SortValues| && |CaseNames| == |CaseValues|
  {
  }

  /** Every attribute of the sort scenario survives. */
  lemma SortKeepsAll(keep: seq<bool>, names: seq<string>, values: seq<seq<string>>)
    requires names == SortNames && values == SortValues
    requires |keep| == |names|
    requires forall i :: 0 <= i < |keep| ==> keep[i] == Survives(names[i], values[i], ExclusionList)
    ensures forall i :: 0 <= i < |keep| ==> keep[i]
  {
    TitleKept();
    RedKept("color");
    SizeCapitalized();
    BrandKept();
  }

  /** A fresh product holding fresh attributes with the given names and
      value lists. */
  method NewProduct(id: int, names: seq<string>, values: seq<seq<string>>) returns (product: Product)
    requires |names| == |values|
    ensures fresh(product) && product.id == id && |product.attributes| == |names|
    ensures forall i :: 0 <= i < |names| ==>
      fresh(product.attributes[i]) && product.attributes[i].name == names[i] && product.attributes[i].values == values[i]
    ensures NamesOf(product.attributes) == names && ValuesOf(product.attributes) == values
  {
    var attributes: seq<Attribute> := [];
    for i := 0 to |names|
      invariant |attributes| == i
      invariant forall j :: 0 <= j < i ==>
        fresh(attributes[j]) && attributes[j].name == names[j] && attributes[j].values == values[j]
    {
      var a := new Attribute(names[i], values[i]);
      attributes := attributes + [a];
    }
    product := new Product(id, attributes);
  }

  /** Posts title, color, size, brand through the controller: every attribute
      survives, and the names come back as brand, color, size, title. */
  method SortByAttributeNames() returns (r: Product)
    ensures NamesOf(r.attributes) == ["brand", "color", "size", "title"]
  {
    hide *;
    ScenarioShapes();
    var service := new ProductService(ExclusionList);
    var controller := new ProductController(service);
    var product := NewProduct(100, SortNames, SortValues);
    ghost var posted := product.attributes;
    ghost var names, values := NamesOf(posted), ValuesOf(posted);
    ghost var keep;
    r, keep := controller.Upsert(product);
    SortKeepsAll(keep, names, values);
    KeptAllNames(posted, r.attributes, keep);
    SortScenario(NamesOf(r.attributes));
  }

  /** Every attribute of the case-sensitive sort scenario survives. */
  lemma CaseKeepsAll(keep: seq<bool>, names: seq<string>, values: seq<seq<string>>)
    requires names == CaseNames && values == CaseValues
    requires |keep| == |names|
    requires forall i :: 0 <= i < |keep| ==> keep[i] == Survives(names[i], values[i], ExclusionList)
    ensures forall i :: 0 <= i < |keep| ==> keep[i]
  {
    TitleKept();
    RedKept("Color of sleeve");
    RedKept("color");
    SizeCapitalized();
    BrandKept();
  }

  /** Posts title, Color of sleeve, color, size, brand through the controller:
      every attribute survives, and the names come back as brand, color,
      Color of sleeve, size, title. */
  method SortByAttributeNamesCaseSensitive() returns (r: Product)
    ensures NamesOf(r.attributes) == ["brand", "color", "Color of sleeve", "size", "title"]
  {
    hide *;
    ScenarioShapes();
    var service := new ProductService(ExclusionList);
    var controller := new ProductController(service);
    var product := NewProduct(100, CaseNames, CaseValues);
    ghost var posted := product.attributes;
    ghost var names, values := NamesOf(posted), ValuesOf(posted);
    ghost var keep;
    r, keep := controller.Upsert(product);
    CaseKeepsAll(keep, names, values);
    KeptAllNames(posted, r.attributes, keep);
    CaseSensitiveSortScenario(NamesOf(r.attributes));
  }
}
