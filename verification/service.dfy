/** The product service: validation in front of the repository, and the
    translation of a missing row into either `null` or a not-found error.
    Each operation takes the table and its input and yields the outcome
    together with the table after the call. */
module ProductService {
  import opened Outcomes
  import opened Models
  import opened Repository

  /** Message of the validation error for a negative price. */
  const NegativePriceMessage: string := "El precio no puede ser negativo."

  /** Message of the validation error for an undeclared size or color. */
  const InvalidSizeOrColorMessage: string := "Talla o color no válido."

  /** Message of the not-found error raised by a delete. */
  const ProductMissingMessage: string := "El producto no existe."

  /** The validation error the service raises for `p`, if any, checking the
      price before the enumerations. Shared by create and update, which run
      the same two checks in the same order. */
  function ValidationFailure(p: Product): (r: Option<string>)
    ensures r == None <==> p.price >= 0.0 && HasDefinedEnums(p)
    ensures p.price < 0.0 ==> r == Some(NegativePriceMessage)
    ensures p.price >= 0.0 && !HasDefinedEnums(p) ==> r == Some(InvalidSizeOrColorMessage)
  {
    if p.price < 0.0 then Some(NegativePriceMessage)
    else if !HasDefinedEnums(p) then Some(InvalidSizeOrColorMessage)
    else None
  }

  /** The field-by-field merge of an update: the stored row `stored` takes the
      description, price, size and color of `incoming`, and keeps its own id. */
  function Merge(stored: Product, incoming: Product): (r: Product)
    ensures r.id == stored.id
    ensures r.description == incoming.description && r.price == incoming.price
    ensures r.size == incoming.size && r.color == incoming.color
  {
    stored.(description := incoming.description, price := incoming.price,
            size := incoming.size, color := incoming.color)
  }

  /** `GetAllProductsAsync`: every stored product, each once. */
  method GetAllProducts(s: Store) returns (r: seq<Product>)
    requires Valid(s)
    ensures forall i :: 0 <= i < |r| ==> r[i] in s.rows.Values
    ensures forall k :: k in s.rows ==> s.rows[k] in r
    ensures forall i, j :: 0 <= i < j < |r| ==> r[i] != r[j]
    ensures |r| == |s.rows|
  {
    r := GetAll(s);
  }

  /** `GetProductByIdAsync`: the product with key `id`, or `null`. Never an
      error, and never a change to the table. */
  function GetProductById(s: Store, id: int): (r: Outcome<Product>)
    requires Valid(s)
    ensures r.Ok? || r.Null?
    ensures r.Ok? <==> id in s.rows
    ensures r.Ok? ==> r.value.id == id && r.value == s.rows[id]
  {
    match GetById(s, id)
    case None => Null
    case Some(p) => Ok(p)
  }

  /** `AddProductAsync`. A negative price is refused first, then an
      undeclared size or color; a refused product leaves the table as it was.
      Otherwise the caller's id is discarded, the product is inserted under a
      key the table has never held, and the product comes back carrying that
      key; the table gains exactly that one row. */
  function AddProduct(s: Store, p: Product): (r: (Outcome<Product>, Store))
    requires Valid(s)
    ensures Valid(r.1)
    ensures r.0.ValidationError? <==> p.price < 0.0 || !HasDefinedEnums(p)
    ensures p.price < 0.0 ==> r == (ValidationError(NegativePriceMessage), s)
    ensures p.price >= 0.0 && !HasDefinedEnums(p) ==> r == (ValidationError(InvalidSizeOrColorMessage), s)
    ensures !r.0.ValidationError? ==>
              && r.0.Ok?
              && r.0.value == p.(id := r.0.value.id)
              && r.0.value.id !in s.rows
              && r.0.value.id >= s.nextId
              && r.1.rows == s.rows[r.0.value.id := r.0.value]
              && r.1.nextId > r.0.value.id
  {
    if p.price < 0.0 then
      (ValidationError(NegativePriceMessage), s)
    else
      var unassigned := p.(id := 0);
      if !HasDefinedEnums(unassigned) then
        (ValidationError(InvalidSizeOrColorMessage), s)
      else
        var (s', inserted) := Add(s, unassigned);
        match GetById(s', inserted.id)
        case None => (Null, s')
        case Some(_) => (Ok(inserted), s')
  }

  /** `UpdateProductAsync`. A negative price is refused before the lookup; an
      undeclared size or color is refused whether or not the key exists, so
      it wins over `null`. A valid update of a missing key returns `null`.
      Otherwise exactly the stored row under `p.id` takes `p`'s description,
      price, size and color, keeps its id, and is returned. No failing or
      `null` call changes the table. */
  function UpdateProduct(s: Store, p: Product): (r: (Outcome<Product>, Store))
    requires Valid(s)
    ensures Valid(r.1)
    ensures !r.0.Ok? ==> r.1 == s
    ensures p.price < 0.0 ==> r.0 == ValidationError(NegativePriceMessage)
    ensures p.price >= 0.0 && !HasDefinedEnums(p) ==> r.0 == ValidationError(InvalidSizeOrColorMessage)
    ensures r.0.Null? <==> ValidationFailure(p).None? && p.id !in s.rows
    ensures ValidationFailure(p).None? && p.id in s.rows ==>
              r.0 == Ok(p) && r.1 == Store(s.rows[p.id := p], s.nextId)
    ensures r.0.Ok? ==>
              && ValidationFailure(p).None?
              && p.id in s.rows
              && r.0.value.id == s.rows[p.id].id
              && r.0.value == p
              && r.1 == Store(s.rows[p.id := r.0.value], s.nextId)
  {
    if p.price < 0.0 then
      (ValidationError(NegativePriceMessage), s)
    else
      var stored := GetById(s, p.id);
      if !HasDefinedEnums(p) then
        (ValidationError(InvalidSizeOrColorMessage), s)
      else
        match stored
        case None => (Null, s)
        case Some(row) =>
          var merged := Merge(row, p);
          (Ok(merged), Update(s, merged))
  }

  /** `DeleteProductAsync`. A missing key is a not-found error that leaves the
      table as it was; an existing key is removed and nothing else changes. */
  function DeleteProduct(s: Store, id: int): (r: (Outcome<()>, Store))
    requires Valid(s)
    ensures Valid(r.1)
    ensures r.0.Ok? || r.0.NotFound?
    ensures id !in s.rows ==> r == (NotFound(ProductMissingMessage), s)
    ensures id in s.rows ==> r.0.Ok? && r.1.rows == s.rows - {id} && r.1.nextId == s.nextId
  {
    match GetById(s, id)
    case Some(_) => (Ok(()), Delete(s, id))
    case None => (NotFound(ProductMissingMessage), s)
  }
}
