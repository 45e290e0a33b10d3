/** The `Product` entity, its two enumerations and its field annotations. */
module Models {
  import opened Outcomes

  /** A product row. `size` and `color` hold the underlying integer of the
      enumeration, since a cast such as `(Size)999` is a legal value of the
      enumeration type; `price` is the decimal price; `description` is an
      optional text. `id` is the store-generated key (0 before insertion). */
  datatype Product = Product(
    id: int,
    size: int,
    color: int,
    price: real,
    description: Option<string>
  )

  // Declared members of the size enumeration.
  const XS: int := 0
  const S: int := 1
  const M: int := 2
  const L: int := 3
  const XL: int := 4
  const XXL: int := 5

  /** Every declared size, in declaration order. */
  const SizeMembers: seq<int> := [XS, S, M, L, XL, XXL]

  // Declared members of the color enumeration.
  const Red: int := 0
  const Green: int := 1
  const Blue: int := 2
  const Black: int := 3
  const White: int := 4
  const Yellow: int := 5
  const Pink: int := 6
  const Orange: int := 7
  const Purple: int := 8
  const Grey: int := 9

  /** Every declared color, in declaration order. */
  const ColorMembers: seq<int> := [Red, Green, Blue, Black, White, Yellow, Pink, Orange, Purple, Grey]

  /** Longest description the model annotation admits. */
  const MaxDescriptionLength: nat := 1000

  /** `Enum.IsDefined(typeof(Size), v)`: `v` is the value of a declared size.
      The six declared values are exactly the range 0..5. */
  function IsDefinedSize(v: int): (b: bool)
    ensures b <==> 0 <= v <= 5
  {
    v in SizeMembers
  }

  /** `Enum.IsDefined(typeof(Color), v)`: `v` is the value of a declared color.
      The ten declared values are exactly the range 0..9. */
  function IsDefinedColor(v: int): (b: bool)
    ensures b <==> 0 <= v <= 9
  {
    v in ColorMembers
  }

  /** The service's own domain check: the size and the color are both
      declared members of their enumerations. */
  function HasDefinedEnums(p: Product): (b: bool)
    ensures b <==> 0 <= p.size <= 5 && 0 <= p.color <= 9
  {
    IsDefinedSize(p.size) && IsDefinedColor(p.color)
  }

  /** The price annotation: a range starting at 0. */
  predicate PriceInRange(p: Product) {
    p.price >= 0.0
  }

  /** The description annotation: absent, or at most 1000 characters. */
  predicate DescriptionInRange(p: Product) {
    match p.description
    case None => true
    case Some(d) => |d| <= MaxDescriptionLength
  }

  /** All field annotations of the entity hold. These are checked by the HTTP
      layer's model binding, not by the service. */
  predicate WellFormed(p: Product) {
    HasDefinedEnums(p) && PriceInRange(p) && DescriptionInRange(p)
  }
}
