/** The two records the service works on. Their getters and setters are plain
    field reads and writes, so a setter call is a field assignment here. */
module Model {

  /** A named, ordered list of string values. */
  class Attribute {
    var name: string
    var values: seq<string>

    constructor (name: string, values: seq<string>)
      ensures this.name == name && this.values == values
    {
      this.name := name;
      this.values := values;
    }
  }

  /** A product: an identifier and an ordered list of attributes. The list
      holds references, so the same attribute object may be shared. */
  class Product {
    var id: int
    var attributes: seq<Attribute>

    constructor (id: int, attributes: seq<Attribute>)
      ensures this.id == id && this.attributes == attributes
    {
      this.id := id;
      this.attributes := attributes;
    }
  }
}
