/** The upsert endpoint: the three passes of the product service, run on the
    posted product in a fixed order, normalise, filter, sort. */
module Controller {
  import opened Model
  import opened ValueRules
  import opened AttributeOrder
  import opened Services

  class ProductController {
    const productService: ProductService

    constructor (productService: ProductService)
      ensures this.productService == productService
    {
      this.productService := productService;
    }

    /** Normalises, filters and sorts the product in place and returns the
        same object. */
    method Upsert(product: Product) returns (r: Product, ghost keep: seq<bool>)
      modifies product`attributes, product.attributes`values
      ensures r == product && r.id == old(product.id)
      ensures |keep| == |old(product.attributes)|
      ensures forall i :: 0 <= i < |keep| ==>
        keep[i] == Survives(old(NamesOf(product.attributes))[i], old(ValuesOf(product.attributes))[i], productService.illegalValues)
      ensures multiset(r.attributes) == multiset(Select<Attribute>(old(product.attributes), keep))
      ensures forall i :: 0 <= i < |old(product.attributes)| ==>
        old(product.attributes)[i].values ==
        ValuesAfterFilter(NormalizeValues(old(NamesOf(product.attributes))[i], old(ValuesOf(product.attributes))[i]), productService.illegalValues)
      ensures forall a: Attribute :: a in r.attributes ==> a.values != []
      ensures SortedNames(NamesOf(r.attributes))
    {
      hide *;
      productService.NormalizeAttributesValues(product);
      ghost var normalized := ValuesOf(product.attributes);
      keep := productService.FilterIllegalValues(product);
      forall i | 0 <= i < |keep|
        ensures keep[i] == Survives(old(NamesOf(product.attributes))[i], old(ValuesOf(product.attributes))[i], productService.illegalValues)
      {
        SurvivesNormalized(old(product.attributes[i].name), old(product.attributes[i].values), normalized[i], productService.illegalValues);
      }
      ghost var filtered: seq<Attribute> := product.attributes;
      productService.SortAttributesByName(product);
      r := product;
      forall a: Attribute | a in r.attributes
        ensures a.values != []
      {
        assert multiset(filtered)[a] > 0;
      }
    }
  }
}
