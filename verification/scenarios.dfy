/** Concrete runs of the service: the unit-test cases of the product
    service and the create/update walk-through, stated on the model. */
module Scenarios {
  import opened Outcomes
  import opened Models
  import opened Repository
  import opened ProductService

  /** Create a red size-M shirt in an empty table, then update it to a blue
      size-L product: the create answers with key 1, the update keeps key 1
      and carries the new fields. */
  lemma CreateThenUpdateShirt()
    ensures
      var shirt := Product(0, M, Red, 100.0, Some("Red Shirt"));
      var (created, s1) := AddProduct(Empty(), shirt);
      && created == Ok(shirt.(id := 1))
      && s1.rows == map[1 := shirt.(id := 1)]
      && var (updated, s2) := UpdateProduct(s1, Product(1, L, Blue, 150.0, Some("New")));
      && updated == Ok(Product(1, L, Blue, 150.0, Some("New")))
      && s2.rows == map[1 := Product(1, L, Blue, 150.0, Some("New"))]
  {
  }

  /** The refusals the unit tests expect: negative prices and the casts
      `(Size)999`, `(Size)100` and `(Color)100`, and a delete of a key that
      is not there. */
  lemma RefusedRequests(s: Store)
    requires Valid(s) && 1 in s.rows && 2 !in s.rows
    ensures AddProduct(s, Product(0, M, Red, -10.0, Some("Test Product"))).0
              == ValidationError(NegativePriceMessage)
    ensures AddProduct(s, Product(0, 100, 100, 50.0, Some("Test Product"))).0
              == ValidationError(InvalidSizeOrColorMessage)
    ensures UpdateProduct(s, Product(1, M, Red, -10.0, Some("Test Product"))).0
              == ValidationError(NegativePriceMessage)
    ensures UpdateProduct(s, Product(1, 999, Red, 100.0, Some("Test Product"))).0
              == ValidationError(InvalidSizeOrColorMessage)
    ensures UpdateProduct(s, Product(2, L, Blue, 150.0, Some("New Description"))).0 == Null
    ensures DeleteProduct(s, 2).0 == NotFound(ProductMissingMessage)
  {
  }
}
