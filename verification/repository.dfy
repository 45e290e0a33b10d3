/** The product repository: a table of products keyed by a store-generated
    identity column. The ORM context is replaced by a map from key to row
    plus the identity counter that supplies the next key. */
module Repository {
  import opened Outcomes
  import opened Models

  /** The product table. `rows` maps each key to its row; `nextId` is the
      value the identity column hands out on the next insertion. An identity
      column never hands out the same value twice, even after a delete. */
  datatype Store = Store(rows: map<int, Product>, nextId: int)

  /** The table's own invariant: the identity counter starts at 1, every key
      was handed out by it (so lies below it), and every row carries its own
      key in its `id` field. */
  function Valid(s: Store): (b: bool)
    ensures b ==> 0 !in s.rows && s.nextId !in s.rows
  {
    && s.nextId >= 1
    && forall k :: k in s.rows ==> 1 <= k < s.nextId && s.rows[k].id == k
  }

  /** A freshly created, empty table. */
  function Empty(): (s: Store)
    ensures Valid(s) && s.rows == map[]
  {
    Store(map[], 1)
  }

  /** `GetAllAsync`: every stored row, each exactly once. The query has no
      ordering, so any order is a faithful answer; this one scans the keys
      upwards, as a scan of the primary key would. */
  method GetAll(s: Store) returns (r: seq<Product>)
    requires Valid(s)
    ensures forall i :: 0 <= i < |r| ==> r[i].id in s.rows && s.rows[r[i].id] == r[i]
    ensures forall k :: k in s.rows ==> s.rows[k] in r
    ensures forall i, j :: 0 <= i < j < |r| ==> r[i].id < r[j].id
    ensures |r| == |s.rows|
  {
    r := [];
    var id := 1;
    while id < s.nextId
      invariant 1 <= id <= s.nextId
      invariant forall i :: 0 <= i < |r| ==> r[i].id in s.rows && s.rows[r[i].id] == r[i] && r[i].id < id
      invariant forall k :: k in s.rows && k < id ==> s.rows[k] in r
      invariant forall i, j :: 0 <= i < j < |r| ==> r[i].id < r[j].id
    {
      if id in s.rows {
        r := r + [s.rows[id]];
      }
      id := id + 1;
    }
    assert IdsOf(r) == s.rows.Keys by {
      forall k | k in s.rows ensures k in IdsOf(r) {
        var i :| 0 <= i < |r| && r[i] == s.rows[k];
      }
    }
    IncreasingIdsCount(r);
  }

  /** The keys carried by a sequence of rows. */
  ghost function IdsOf(r: seq<Product>): set<int> {
    set i | 0 <= i < |r| :: r[i].id
  }

  /** Rows listed in strictly increasing key order carry as many distinct
      keys as there are rows. */
  lemma {:induction false} IncreasingIdsCount(r: seq<Product>)
    requires forall i, j :: 0 <= i < j < |r| ==> r[i].id < r[j].id
    ensures |IdsOf(r)| == |r|
  {
    if |r| > 0 {
      var front := r[..|r| - 1];
      IncreasingIdsCount(front);
      assert IdsOf(r) == IdsOf(front) + {r[|r| - 1].id};
    }
  }

  /** `GetByIdAsync`: the row stored under `id`, or `null` when there is none. */
  function GetById(s: Store, id: int): (r: Option<Product>)
    ensures r.Some? <==> id in s.rows
    ensures r.Some? ==> r.value == s.rows[id]
    ensures Valid(s) && r.Some? ==> r.value.id == id
  {
    if id in s.rows then Some(s.rows[id]) else None
  }

  /** `AddAsync`: inserts `p` under the next identity value and writes that
      value back into the product. Returns the new table and the product as
      it now stands. The service only ever inserts a product whose id is the
      unassigned value 0, which is what lets the store generate the key. */
  function Add(s: Store, p: Product): (r: (Store, Product))
    requires Valid(s)
    requires p.id == 0
    ensures Valid(r.0)
    ensures r.1 == p.(id := r.1.id)
    ensures r.1.id != 0 && r.1.id !in s.rows
    ensures r.1.id >= s.nextId && r.0.nextId > r.1.id
    ensures r.0.rows == s.rows[r.1.id := r.1]
    ensures |r.0.rows| == |s.rows| + 1
  {
    var q := p.(id := s.nextId);
    (Store(s.rows[s.nextId := q], s.nextId + 1), q)
  }

  /** `UpdateAsync`: when a row with `p`'s key exists, every column of that
      row takes `p`'s value; otherwise nothing happens. */
  function Update(s: Store, p: Product): (r: Store)
    ensures r.nextId == s.nextId && r.rows.Keys == s.rows.Keys
    ensures p.id in s.rows ==> r.rows[p.id] == p
    ensures p.id !in s.rows ==> r == s
    ensures forall k :: k in s.rows && k != p.id ==> r.rows[k] == s.rows[k]
    ensures Valid(s) ==> Valid(r)
  {
    if p.id in s.rows then Store(s.rows[p.id := p], s.nextId) else s
  }

  /** `DeleteAsync`: removes the row with key `id` when there is one, and
      does nothing otherwise. */
  function Delete(s: Store, id: int): (r: Store)
    ensures r.nextId == s.nextId
    ensures r.rows.Keys == s.rows.Keys - {id}
    ensures forall k :: k in r.rows ==> r.rows[k] == s.rows[k]
    ensures id !in s.rows ==> r == s
    ensures Valid(s) ==> Valid(r)
  {
    if id in s.rows then Store(s.rows - {id}, s.nextId) else s
  }
}
