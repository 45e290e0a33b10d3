/** Sequences of service calls. The table's invariant, the service's
    validation and the identity column together give guarantees about every
    reachable table, not only about one call. */
module Workload {
  import opened Outcomes
  import opened Models
  import opened Repository
  import opened ProductService

  /** One call to the service that may change the table. */
  datatype Request =
    | AddRequest(product: Product)
    | UpdateRequest(product: Product)
    | DeleteRequest(id: int)

  /** The table after one call. The identity counter never moves back, a
      call never brings back a key the table no longer holds, and a create
      leaves every row already stored untouched, adding its own row under a
      key at or above the old counter. */
  function Apply(s: Store, req: Request): (r: Store)
    requires Valid(s)
    ensures Valid(r)
    ensures r.nextId >= s.nextId
    ensures forall k :: k in r.rows && k < s.nextId ==> k in s.rows
    ensures req.AddRequest? ==> forall k :: k in s.rows ==> k in r.rows && r.rows[k] == s.rows[k]
    ensures req.AddRequest? && AddProduct(s, req.product).0.Ok? ==> |r.rows| == |s.rows| + 1
  {
    match req
    case AddRequest(p) => AddProduct(s, p).1
    case UpdateRequest(p) => UpdateProduct(s, p).1
    case DeleteRequest(id) => DeleteProduct(s, id).1
  }

  /** The table after a sequence of calls, starting from `s`. The identity
      counter never moves back, and a key below the starting counter that is
      in the final table was already in the starting one: a deleted key never
      comes back. */
  function Run(s: Store, reqs: seq<Request>): (r: Store)
    requires Valid(s)
    ensures Valid(r)
    ensures r.nextId >= s.nextId
    ensures forall k :: k in r.rows && k < s.nextId ==> k in s.rows
    decreases |reqs|
  {
    if reqs == [] then s else Run(Apply(s, reqs[0]), reqs[1..])
  }

  /** The keys handed out by the successful creates of a sequence of calls,
      in the order of the calls. They are all at or above the starting
      counter and below the final one, and strictly increasing: no key is
      handed out twice, whatever was updated or deleted in between. */
  function CreatedKeys(s: Store, reqs: seq<Request>): (ks: seq<int>)
    requires Valid(s)
    ensures forall i :: 0 <= i < |ks| ==> s.nextId <= ks[i] < Run(s, reqs).nextId
    ensures forall i, j :: 0 <= i < j < |ks| ==> ks[i] < ks[j]
    decreases |reqs|
  {
    if reqs == [] then []
    else
      var rest := CreatedKeys(Apply(s, reqs[0]), reqs[1..]);
      match reqs[0]
      case AddRequest(p) =>
        var (out, _) := AddProduct(s, p);
        if out.Ok? then [out.value.id] + rest else rest
      case UpdateRequest(_) => rest
      case DeleteRequest(_) => rest
  }

  /** Every stored row has a non-negative price and a declared size and
      color: what the service checks before each write. */
  predicate Catalogued(s: Store) {
    forall k :: k in s.rows ==> s.rows[k].price >= 0.0 && HasDefinedEnums(s.rows[k])
  }

  /** One call keeps every stored row within the checked domain. */
  lemma ApplyKeepsCatalogue(s: Store, req: Request)
    requires Valid(s) && Catalogued(s)
    ensures Catalogued(Apply(s, req))
  {
  }

  /** Starting from a table whose rows are all within the checked domain,
      no sequence of calls can store a negative price or an undeclared size
      or color. */
  lemma {:induction false} RunKeepsCatalogue(s: Store, reqs: seq<Request>)
    requires Valid(s) && Catalogued(s)
    ensures Catalogued(Run(s, reqs))
    decreases |reqs|
  {
    if reqs != [] {
      ApplyKeepsCatalogue(s, reqs[0]);
      RunKeepsCatalogue(Apply(s, reqs[0]), reqs[1..]);
    }
  }

  /** A table reached from the empty table by any sequence of calls holds
      only rows within the checked domain. */
  lemma ReachableTablesAreCatalogued(reqs: seq<Request>)
    ensures Catalogued(Run(Empty(), reqs))
  {
    RunKeepsCatalogue(Empty(), reqs);
  }
}
