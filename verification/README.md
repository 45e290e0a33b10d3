# VoloteaTienda product service, modelled in Dafny

VoloteaTiendaCRUD is a small CRUD web service for one entity, `Product`
(id, size, color, price, optional description). Its decisions live in the
product service, which validates input and orchestrates a repository over a
single product table whose key is a store-generated identity column.

This project models that service and its repository as pure functions over
an immutable table value:

- `outcomes.dfy` (`Outcomes`): `Option` for nullable results, and `Outcome`
  with `Ok`, `Null`, `ValidationError(message)` and `NotFound(message)` for
  what a service call returns or throws.
- `product.dfy` (`Models`): the `Product` record; `Size` and `Color` as plain
  integers (a cast such as `(Size)999` is a legal enum value) with
  `Enum.IsDefined` modelled as membership in the list of declared constants;
  the field annotations (price range, description length).
- `repository.dfy` (`Repository`): the table as `rows: map<int, Product>` plus
  `nextId`, the identity counter; `Valid` is the table invariant (keys below
  the counter, each row carrying its own key). Get-all, find-or-null, insert
  with a generated key, overwrite-if-present, remove-if-present.
- `service.dfy` (`ProductService`): the five service operations, each taking
  the table and returning the outcome paired with the new table, with the
  exact messages and check order of the source.
- `properties.dfy` (`ServiceProperties`): round trips, inverse, idempotence,
  error precedence, and the `null`-versus-not-found asymmetry.
- `workload.dfy` (`Workload`): arbitrary sequences of calls; keys are never
  reused and no stored row can get a negative price or an undeclared size or
  color.
- `scenarios.dfy` (`Scenarios`): the unit-test cases as concrete lemmas.

## Model

| member | source | states |
|---|---|---|
| Models.IsDefinedSize | VoloteaTiendaCRUD/Models/Product.cs:54-62 | a size value is a declared member of the enumeration exactly when it lies in 0..5 (XS..XXL) |
| Models.IsDefinedColor | VoloteaTiendaCRUD/Models/Product.cs:67-79 | a color value is a declared member exactly when it lies in 0..9 (Red..Grey) |
| Models.HasDefinedEnums | VoloteaTiendaCRUD/Services/ProductService.cs:52 | the service's size/color check passes exactly when the size is in 0..5 and the color in 0..9 |
| Models.PriceInRange | VoloteaTiendaCRUD/Models/Product.cs:39-41 | the price annotation: the price is at least 0 |
| Models.DescriptionInRange | VoloteaTiendaCRUD/Models/Product.cs:47-48 | the description annotation: absent, or at most 1000 characters |
| Models.WellFormed | VoloteaTiendaCRUD/Models/Product.cs:23-48 | all field annotations hold: declared size and color, price at least 0, description within 1000 characters |
| Repository.Valid | VoloteaTiendaCRUD/Models/Product.cs:15-17 | the identity-key invariant: every key was handed out by the counter (1 upwards) and every row carries its key; so neither the unassigned id 0 nor the next key to hand out is ever a live key |
| Repository.Empty | VoloteaTiendaCRUD/Models/Product.cs:15-17 | the freshly created table has no rows and satisfies the identity-key invariant |
| Repository.GetAll | VoloteaTiendaCRUD/Repositories/ProductRepository.cs:29-32 | the result lists every stored row, only stored rows, each once (distinct keys), and has as many entries as the table |
| Repository.GetById | VoloteaTiendaCRUD/Repositories/ProductRepository.cs:39-42 | finds a row exactly when the key is present, returns the stored row, and on a valid table that row carries the key asked for |
| Repository.Add | VoloteaTiendaCRUD/Repositories/ProductRepository.cs:48-52 | the product is stored under a key never held before, that key is written back into the product (nothing else changes), the table grows by exactly one row and stays valid |
| Repository.Update | VoloteaTiendaCRUD/Repositories/ProductRepository.cs:58-66 | a present key's row becomes the given product and no other row changes; an absent key leaves the table as it was |
| Repository.Delete | VoloteaTiendaCRUD/Repositories/ProductRepository.cs:72-80 | the key set loses exactly the given key, surviving rows are unchanged, and an absent key is a no-op |
| ProductService.ValidationFailure | VoloteaTiendaCRUD/Services/ProductService.cs:44-55 | a product is refused exactly when its price is negative or its size or color is undeclared; a negative price is reported first with "El precio no puede ser negativo.", otherwise an undeclared size or color with "Talla o color no válido." |
| ProductService.Merge | VoloteaTiendaCRUD/Services/ProductService.cs:89-93 | the merged record keeps the stored id and takes description, price, size and color from the incoming product |
| ProductService.GetAllProducts | VoloteaTiendaCRUD/Services/ProductService.cs:19-22 | returns the stored products, all of them, each once |
| ProductService.GetProductById | VoloteaTiendaCRUD/Services/ProductService.cs:24-27 | answers the stored product when the key is present and `null` otherwise, never an error |
| ProductService.AddProduct | VoloteaTiendaCRUD/Services/ProductService.cs:29-66 | negative price gives the price message and an undeclared size or color the enum message, price first, table unchanged; otherwise the caller's id is ignored, the product comes back under a fresh key and the table gains exactly that row |
| ProductService.UpdateProduct | VoloteaTiendaCRUD/Services/ProductService.cs:68-97 | negative price and undeclared enums are refused whether or not the key exists; a valid update of a missing key is `null`; acceptable input on a present key always succeeds: exactly the row under the key takes the four fields and keeps its id, so the returned record and the new row equal the input; a non-`Ok` call leaves the table unchanged |
| ProductService.DeleteProduct | VoloteaTiendaCRUD/Services/ProductService.cs:100-111 | a missing key is `NotFound("El producto no existe.")` with the table unchanged; a present key is removed and nothing else changes |
| ServiceProperties.ValidationAgrees | VoloteaTiendaCRUD/Services/ProductService.cs:44-82 | create and update fail validation for the same inputs and with the same message |
| ServiceProperties.AddThenGet | VoloteaTiendaCRUD/Services/ProductService.cs:57-65 | an accepted product, once created, is read back by its new key exactly as created, equal to the input but for the id |
| ServiceProperties.AddIgnoresCallerId | VoloteaTiendaCRUD/Services/ProductService.cs:51 | the id supplied to a create does not affect its outcome or the resulting table |
| ServiceProperties.DeleteUndoesAdd | VoloteaTiendaCRUD/Services/ProductService.cs:100-111 | deleting the key a create just assigned succeeds and restores the original rows |
| ServiceProperties.DeleteThenGetAndDeleteAgain | VoloteaTiendaCRUD/Services/ProductService.cs:102-109 | after a delete the key reads as `null` and deleting it again is a not-found error that changes nothing |
| ServiceProperties.UpdateThenGet | VoloteaTiendaCRUD/Services/ProductService.cs:89-96 | after a successful update, reading the key gives exactly the returned record |
| ServiceProperties.UpdateIsIdempotent | VoloteaTiendaCRUD/Services/ProductService.cs:84-96 | a repeated update returns the same outcome and leaves the same table |
| ServiceProperties.UpdatePrecedence | VoloteaTiendaCRUD/Services/ProductService.cs:70-87 | on a missing key, a negative price beats an undeclared enum, which beats `null` |
| ServiceProperties.MissingKeyAsymmetry | VoloteaTiendaCRUD/Services/ProductService.cs:84-110 | for a missing key, a valid update answers `null` while a delete raises not-found, and neither changes the table |
| ServiceProperties.NullOnlyForMissingKeys | VoloteaTiendaCRUD/Services/ProductService.cs:57-63 | on a valid table, create and delete never answer `null`; lookup and update answer `null` exactly for a missing key (update only for acceptable input) |
| ServiceProperties.DescriptionIsNotChecked | VoloteaTiendaCRUD/Services/ProductService.cs:44-87 | for every product and every replacement description, create and update report the same kind of outcome and the same validation message; a 1001-character description breaks the annotation yet is created |
| ServiceProperties.AnnotationsVersusValidation | VoloteaTiendaCRUD/Models/Product.cs:23-48 | a product satisfies all field annotations exactly when the service accepts it and its description fits 1000 characters; the price annotation is exactly what the negative-price check enforces |
| Workload.Apply | VoloteaTiendaCRUD/Services/ProductService.cs:29-111 | any single call keeps the table valid, never moves the identity counter back and never brings back a key the table lacked; a create leaves every stored row untouched and, when it succeeds, adds exactly one row |
| Workload.Run | VoloteaTiendaCRUD/Models/Product.cs:15-17 | over any sequence of calls the table stays valid, the identity counter only grows, and a key below the starting counter is in the final table only if it was in the starting one (a deleted key never comes back) |
| Workload.CreatedKeys | VoloteaTiendaCRUD/Models/Product.cs:15-17 | the keys handed out by the successful creates of any sequence of calls are strictly increasing and lie between the starting and final counter, so no key is handed out twice |
| Workload.ApplyKeepsCatalogue | VoloteaTiendaCRUD/Services/ProductService.cs:44-96 | a single call never stores a negative price or an undeclared size or color |
| Workload.RunKeepsCatalogue | VoloteaTiendaCRUD/Services/ProductService.cs:70-93 | no sequence of calls stores a negative price or an undeclared size or color into a table that had none |
| Workload.ReachableTablesAreCatalogued | VoloteaTiendaCRUD/Models/Product.cs:23-41 | every table reachable from the empty one satisfies the size, color and price annotations |
| Scenarios.CreateThenUpdateShirt | VoloteaTiendaTest/ProductServiceTest.cs:113-134 | creating a size-M red shirt then updating it to size L, blue, 150 keeps key 1 and stores exactly the new fields |
| Scenarios.RefusedRequests | VoloteaTiendaTest/ProductServiceTest.cs:94-219 | the unit tests' negative prices, `(Size)999`, `(Size)100`/`(Color)100`, the update of a missing key and the delete of a missing key give the expected outcomes and messages |

## Left out

- The price-format conversion at the start of a create: the price is already
  a decimal, so the conversion is the identity and its format-error branch
  cannot be reached.
- Price precision and range: price is a `real`. The decimal type's range and
  the table's two-decimal column rounding are not modelled; the service only
  compares the price with zero.
- Integer width: ids and enum values are unbounded integers. The 32-bit
  width of `int`, and what the identity column does when it runs out, are
  not modelled.
- Repository.Add: requires the product's id to be 0, the only value the
  service ever inserts; inserting an explicit key into an identity column
  depends on the database provider and is not modelled.
- Repository.GetAll: fixes one order (ascending key) where the query leaves
  the order unspecified.
- Object aliasing: a create resets the caller's own object's id to 0 before
  the size/color check, so a refused create still mutates the caller's
  object; returned products are values here, so that side effect is not
  visible.
- Asynchrony, change tracking and concurrent requests: each call is one
  atomic transition of the table. Races between overlapping updates are not
  modelled.
- Storage failures (connectivity, I/O): the table never fails.
- The HTTP controller (routing, model-binding validation, status-code
  mapping), the database context configuration, the service and repository
  interfaces and the not-found exception class: the last three are folded
  into `Outcome`; the first two are framework plumbing.
- Description length: measured in characters of the model's strings, not in
  UTF-16 code units; it is enforced only at the HTTP layer, so the service
  model keeps it as a predicate (`Models.WellFormed`) and never checks it.
