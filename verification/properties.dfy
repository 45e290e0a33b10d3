/** Properties that relate several calls of the product service: round trips
    through the table, inverse operations, idempotence, error precedence and
    the contrast between `null` and not-found. */
module ServiceProperties {
  import opened Outcomes
  import opened Models
  import opened Repository
  import opened ProductService

  /** A product the service accepts: price not negative, size and color
      declared. */
  predicate Acceptable(p: Product) {
    p.price >= 0.0 && HasDefinedEnums(p)
  }

  /** Create and update run the same two checks in the same order: each fails
      with a validation error exactly when the shared check reports one, and
      with that check's message. */
  lemma ValidationAgrees(s: Store, p: Product)
    requires Valid(s)
    ensures AddProduct(s, p).0.ValidationError? <==> ValidationFailure(p).Some?
    ensures UpdateProduct(s, p).0.ValidationError? <==> ValidationFailure(p).Some?
    ensures ValidationFailure(p).Some? ==>
              && AddProduct(s, p).0 == ValidationError(ValidationFailure(p).value)
              && UpdateProduct(s, p).0 == ValidationError(ValidationFailure(p).value)
  {
  }

  /** Creating an accepted product and then reading it back by its new key
      yields the product as given, differing only in its id. */
  lemma AddThenGet(s: Store, p: Product)
    requires Valid(s) && Acceptable(p)
    ensures
      var (out, s') := AddProduct(s, p);
      && out.Ok?
      && GetProductById(s', out.value.id) == Ok(out.value)
      && out.value.(id := p.id) == p
  {
  }

  /** The id a caller puts on a product to be created has no influence on
      anything the call produces. */
  lemma AddIgnoresCallerId(s: Store, p: Product, callerId: int)
    requires Valid(s)
    ensures AddProduct(s, p) == AddProduct(s, p.(id := callerId))
  {
  }

  /** Deleting the row a successful create has just inserted gives back the
      original rows: delete undoes create. */
  lemma DeleteUndoesAdd(s: Store, p: Product)
    requires Valid(s) && Acceptable(p)
    ensures
      var (out, s') := AddProduct(s, p);
      && out.Ok?
      && var (gone, s'') := DeleteProduct(s', out.value.id);
      && gone == Ok(())
      && s''.rows == s.rows
  {
    var (out, s') := AddProduct(s, p);
    assert s'.rows - {out.value.id} == s.rows;
  }

  /** After a successful delete the key reads as `null`, and a second delete
      of the same key is a not-found error that changes nothing. */
  lemma DeleteThenGetAndDeleteAgain(s: Store, id: int)
    requires Valid(s) && id in s.rows
    ensures
      var (_, s') := DeleteProduct(s, id);
      && GetProductById(s', id) == Null
      && DeleteProduct(s', id) == (NotFound(ProductMissingMessage), s')
  {
  }

  /** After a successful update, reading the key back yields exactly the
      record the update returned. */
  lemma UpdateThenGet(s: Store, p: Product)
    requires Valid(s)
    ensures
      var (out, s') := UpdateProduct(s, p);
      out.Ok? ==> GetProductById(s', p.id) == out
  {
  }

  /** Repeating an update is harmless: the second call returns the same
      outcome and leaves the table as the first call left it. */
  lemma UpdateIsIdempotent(s: Store, p: Product)
    requires Valid(s)
    ensures
      var (out, s') := UpdateProduct(s, p);
      UpdateProduct(s', p) == (out, s')
  {
    var (out, s') := UpdateProduct(s, p);
    if out.Ok? {
      assert Merge(s'.rows[p.id], p) == out.value;
      assert s'.rows[p.id := out.value] == s'.rows;
    }
  }

  /** An update whose size or color is undeclared is refused with the
      enumeration message even when the key is missing: validation wins over
      `null`. A negative price wins over both. */
  lemma UpdatePrecedence(s: Store, p: Product)
    requires Valid(s) && p.id !in s.rows
    ensures p.price < 0.0 ==> UpdateProduct(s, p).0 == ValidationError(NegativePriceMessage)
    ensures p.price >= 0.0 && !HasDefinedEnums(p) ==>
              UpdateProduct(s, p).0 == ValidationError(InvalidSizeOrColorMessage)
    ensures Acceptable(p) ==> UpdateProduct(s, p).0 == Null
  {
  }

  /** The asymmetry between update and delete for a missing key: the update
      answers `null`, the delete raises not-found; neither touches the table. */
  lemma MissingKeyAsymmetry(s: Store, p: Product)
    requires Valid(s) && Acceptable(p) && p.id !in s.rows
    ensures UpdateProduct(s, p) == (Null, s)
    ensures DeleteProduct(s, p.id) == (NotFound(ProductMissingMessage), s)
    ensures GetProductById(s, p.id) == Null
  {
  }

  /** On a valid table the re-read after an insertion always finds the row,
      so a create never answers `null`, and a delete never does either. */
  lemma NullOnlyForMissingKeys(s: Store, p: Product, id: int)
    requires Valid(s)
    ensures !AddProduct(s, p).0.Null?
    ensures !DeleteProduct(s, id).0.Null?
    ensures GetProductById(s, id).Null? <==> id !in s.rows
    ensures UpdateProduct(s, p).0.Null? <==> Acceptable(p) && p.id !in s.rows
  {
  }

  /** The service does not enforce the description length: replacing a
      product's description by any other, however long, changes neither
      which outcome a create or an update reports nor its message. A product
      with a 1001-character description is not well formed, yet it is
      created. */
  lemma DescriptionIsNotChecked(s: Store, p: Product, d: Option<string>)
    requires Valid(s)
    ensures ValidationFailure(p.(description := d)) == ValidationFailure(p)
    ensures AddProduct(s, p.(description := d)).0.Ok? == AddProduct(s, p).0.Ok?
    ensures UpdateProduct(s, p.(description := d)).0.Ok? == UpdateProduct(s, p).0.Ok?
    ensures UpdateProduct(s, p.(description := d)).0.Null? == UpdateProduct(s, p).0.Null?
    ensures
      var long := Product(0, M, Red, 1.0, Some(seq(MaxDescriptionLength + 1, _ => 'x')));
      && !WellFormed(long)
      && AddProduct(s, long).0.Ok?
  {
  }

  /** The entity's annotations against the service's own checks: a
      well-formed product is exactly one the service accepts whose
      description also fits the length annotation; the price annotation is
      exactly what the negative-price check enforces. */
  lemma AnnotationsVersusValidation(p: Product)
    ensures WellFormed(p) <==> ValidationFailure(p).None? && DescriptionInRange(p)
    ensures PriceInRange(p) <==> ValidationFailure(p) != Some(NegativePriceMessage)
    ensures DescriptionInRange(p) <==> p.description.None? || |p.description.value| <= 1000
  {
  }
}
