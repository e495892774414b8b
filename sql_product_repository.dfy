/** SQLProductRepository: the products table behind the repository port, as an
    in-memory table keyed by product id. Every storage fault is an explicit
    `fault` input; a fault, or a missing row where the operation needs one, is
    reported as the repository error tagged with the operation. Each operation
    is one atomic step, so a failed one leaves the table as it was, which is
    what the rollback before every raise aims at. */
module SqlRepository {
  import opened Products
  import opened Errors

  /** No key occurs twice. */
  ghost predicate Distinct(s: seq<string>)
  {
    forall i, j | 0 <= i < j < |s| :: s[i] != s[j]
  }

  /** Every row is stored under its own product id. */
  ghost predicate Keyed(rows: map<string, ProductRow>)
  {
    forall k | k in rows :: rows[k].productId == k
  }

  /** No product id occurs twice in a query result. */
  ghost predicate DistinctIds(ps: seq<Product>)
  {
    forall i, j | 0 <= i < j < |ps| :: ps[i].productId != ps[j].productId
  }

  /** The WHERE clause of a query: no filter admits every row; the filter
      `status == s` admits exactly the rows whose status is `s`. */
  function Admits(filter: Option<string>, row: ProductRow): (a: bool)
    ensures filter.None? ==> a
    ensures filter.Some? ==> (a <==> row.status == filter.value)
  {
    filter.None? || row.status == filter.value
  }

  /** `query(...).filter(...).all()` followed by `parse_product` on each row:
      the rows under `keys`, in that order, that the filter admits. */
  function Select(rows: map<string, ProductRow>, keys: seq<string>, filter: Option<string>): (ps: seq<Product>)
    requires forall k | k in keys :: k in rows
    ensures |ps| <= |keys|
    ensures filter.None? ==> |ps| == |keys|
    ensures Keyed(rows) ==> forall p | p in ps ::
      p.productId in keys && rows[p.productId] == ToRow(p) && Admits(filter, ToRow(p))
    ensures Keyed(rows) && Distinct(keys) ==> DistinctIds(ps)
    decreases |keys|
  {
    if keys == [] then []
    else
      var rest := Select(rows, keys[1..], filter);
      var row := rows[keys[0]];
      if Admits(filter, row) then
        assert Keyed(rows) && Distinct(keys) ==> forall p | p in rest :: p.productId != keys[0];
        [ParseProduct(row)] + rest
      else rest
  }

  /** Every row under `keys` that the filter admits is in the result. */
  lemma {:induction false} SelectComplete(rows: map<string, ProductRow>, keys: seq<string>, filter: Option<string>)
    requires forall k | k in keys :: k in rows
    ensures forall k | k in keys && Admits(filter, rows[k]) :: ParseProduct(rows[k]) in Select(rows, keys, filter)
    decreases |keys|
  {
    if keys != [] {
      SelectComplete(rows, keys[1..], filter);
      forall k | k in keys && Admits(filter, rows[k])
        ensures ParseProduct(rows[k]) in Select(rows, keys, filter)
      {
        if k != keys[0] {
          assert k in keys[1..];
        }
      }
    }
  }

  /** A query over distinct keys returns one product for each key whose row
      the filter admits. */
  lemma SelectCount(rows: map<string, ProductRow>, keys: seq<string>, filter: Option<string>)
    requires forall k | k in keys :: k in rows
    requires Keyed(rows) && Distinct(keys)
    ensures |Select(rows, keys, filter)| == |set k | k in keys && Admits(filter, rows[k])|
  {
    var ps := Select(rows, keys, filter);
    var admitted := set k | k in keys && Admits(filter, rows[k]);
    var ids := seq(|ps|, i requires 0 <= i < |ps| => ps[i].productId);
    SelectComplete(rows, keys, filter);
    forall k ensures k in ids <==> k in admitted {
      if k in ids {
        var i :| 0 <= i < |ids| && ids[i] == k;
        assert ps[i] in ps;
      }
      if k in admitted {
        var p := ParseProduct(rows[k]);
        assert p in ps;
        var i :| 0 <= i < |ps| && ps[i] == p;
        assert ids[i] == k;
      }
    }
    DistinctLength(ids, admitted);
  }

  /** `keys` with `key` taken out. */
  function Without(keys: seq<string>, key: string): (r: seq<string>)
    ensures forall k :: k in r <==> k in keys && k != key
    ensures Distinct(keys) ==> Distinct(r)
    decreases |keys|
  {
    if keys == [] then []
    else if keys[0] == key then Without(keys[1..], key)
    else
      assert Distinct(keys) ==> keys[0] !in keys[1..];
      [keys[0]] + Without(keys[1..], key)
  }

  /** A list of distinct keys is as long as the set of keys it enumerates. */
  lemma {:induction false} DistinctLength(keys: seq<string>, s: set<string>)
    requires Distinct(keys)
    requires forall k :: k in keys <==> k in s
    ensures |keys| == |s|
  {
    if keys != [] {
      forall i, j | 0 <= i < j < |keys[1..]| ensures keys[1..][i] != keys[1..][j] {
        assert keys[1..][i] == keys[i + 1] && keys[1..][j] == keys[j + 1];
      }
      forall k ensures k in keys[1..] <==> k in s - {keys[0]} {
        if k in keys[1..] {
          var j :| 0 <= j < |keys[1..]| && keys[1..][j] == k;
          assert keys[j + 1] == k;
        }
        if k in s - {keys[0]} {
          assert k in keys;
          var j :| 0 <= j < |keys| && keys[j] == k;
          assert j != 0;
          assert keys[1..][j - 1] == k;
        }
      }
      DistinctLength(keys[1..], s - {keys[0]});
    }
  }

  /** The table after a successful `edit(p)`: the row under `p`'s id is
      overwritten field by field, every other row is kept. */
  function Edited(rows: map<string, ProductRow>, p: Product): (r: map<string, ProductRow>)
    requires p.productId in rows
    ensures r.Keys == rows.Keys
    ensures forall k | k in rows && k != p.productId :: r[k] == rows[k]
    ensures Keyed(rows) ==> Keyed(r) && r[p.productId] == ToRow(p)
  {
    rows[p.productId := Overwrite(rows[p.productId], p)]
  }

  /** Editing a row twice with the same product leaves what one edit left. */
  lemma EditedIdempotent(rows: map<string, ProductRow>, p: Product)
    requires p.productId in rows
    ensures Edited(Edited(rows, p), p) == Edited(rows, p)
  {
  }

  class SqlProductRepository {
    /** The stored rows, keyed by product id. */
    var rows: map<string, ProductRow>
    /** The order in which queries hand rows back. */
    var order: seq<string>

    ghost predicate Valid()
      reads this
    {
      && Distinct(order)
      && (forall k :: k in order <==> k in rows)
      && Keyed(rows)
    }

    /** `p` is stored, with every field as given. */
    ghost predicate Stored(p: Product)
      reads this
    {
      p.productId in rows && rows[p.productId] == ToRow(p)
    }

    /** An empty table. */
    constructor ()
      ensures Valid()
      ensures rows == map[] && order == []
    {
      rows := map[];
      order := [];
    }

    /** `list_all`: every stored product, each once; an empty table gives []. */
    function ListAll(fault: bool): (r: Result<seq<Product>>)
      reads this
      requires Valid()
      ensures r.Err? <==> fault
      ensures r.Err? ==> r.error == RepositoryError("list")
      ensures r.Ok? ==> forall p :: p in r.value <==> Stored(p)
      ensures r.Ok? ==> DistinctIds(r.value) && |r.value| == |rows|
    {
      if fault then Err(RepositoryError("list"))
      else
        SelectComplete(rows, order, None);
        DistinctLength(order, rows.Keys);
        Ok(Select(rows, order, None))
    }

    /** `get_by_id`: the product stored under `productId`, or None when there
        is none; absence is not an error. */
    function GetById(productId: string, fault: bool): (r: Result<Option<Product>>)
      reads this
      requires Valid()
      ensures r.Err? <==> fault
      ensures r.Err? ==> r.error == RepositoryError("find")
      ensures r.Ok? ==> (r.value.Some? <==> productId in rows)
      ensures r.Ok? && r.value.Some? ==> r.value.value.productId == productId && Stored(r.value.value)
    {
      if fault then Err(RepositoryError("find"))
      else if productId !in rows then Ok(None)
      else Ok(Some(ParseProduct(rows[productId])))
    }

    /** `get_by_status`: exactly the stored products whose status is `status`,
        each once. The result is a list, never absent. */
    function GetByStatus(status: string, fault: bool): (r: Result<seq<Product>>)
      reads this
      requires Valid()
      ensures r.Err? <==> fault
      ensures r.Err? ==> r.error == RepositoryError("find")
      ensures r.Ok? ==> forall p :: p in r.value <==> Stored(p) && p.status == status
      ensures r.Ok? ==> DistinctIds(r.value)
      ensures r.Ok? ==> |r.value| == |set k | k in rows && rows[k].status == status|
    {
      if fault then Err(RepositoryError("find"))
      else
        SelectComplete(rows, order, Some(status));
        SelectCount(rows, order, Some(status));
        assert (set k | k in order && Admits(Some(status), rows[k])) == (set k | k in rows && rows[k].status == status);
        Ok(Select(rows, order, Some(status)))
    }

    /** `create`: inserts `product` and returns it. An id already present
        violates the table's key and fails like any other storage fault. */
    method Create(product: Product, fault: bool) returns (r: Result<Product>)
      requires Valid()
      modifies this
      ensures Valid()
      ensures fault || product.productId in old(rows) ==>
        r == Err(RepositoryError("create")) && rows == old(rows) && order == old(order)
      ensures !fault && product.productId !in old(rows) ==>
        && r == Ok(product)
        && rows == old(rows)[product.productId := ToRow(product)]
        && order == old(order) + [product.productId]
    {
      var productToCreate := ToRow(product);
      if fault || product.productId in rows {
        return Err(RepositoryError("create"));
      }
      rows := rows[product.productId := productToCreate];
      order := order + [product.productId];
      r := Ok(product);
    }

    /** `edit`: overwrites every field but the key of the row stored under
        `product`'s id and returns the parsed row, which is `product` itself.
        A missing row fails with "edit" (the lookup yields None and the first
        assignment throws). */
    method Edit(product: Product, fault: bool) returns (r: Result<Product>)
      requires Valid()
      modifies this
      ensures Valid()
      ensures order == old(order)
      ensures fault || product.productId !in old(rows) ==>
        r == Err(RepositoryError("edit")) && rows == old(rows)
      ensures !fault && product.productId in old(rows) ==>
        && rows == Edited(old(rows), product)
        && r == Ok(ParseProduct(rows[product.productId]))
        && r == Ok(product)
    {
      if fault || product.productId !in rows {
        return Err(RepositoryError("edit"));
      }
      var productRef := rows[product.productId];
      productRef := Overwrite(productRef, product);
      rows := rows[product.productId := productRef];
      r := Ok(ParseProduct(productRef));
    }

    /** `delete`: removes the row stored under `productId` and returns it. A
        missing row fails with "delete". */
    method Delete(productId: string, fault: bool) returns (r: Result<Product>)
      requires Valid()
      modifies this
      ensures Valid()
      ensures fault || productId !in old(rows) ==>
        r == Err(RepositoryError("delete")) && rows == old(rows) && order == old(order)
      ensures !fault && productId in old(rows) ==>
        && r == Ok(ParseProduct(old(rows)[productId]))
        && r.value.productId == productId
        && rows == old(rows) - {productId}
        && order == Without(old(order), productId)
    {
      if fault || productId !in rows {
        return Err(RepositoryError("delete"));
      }
      var productRef := rows[productId];
      rows := rows - {productId};
      order := Without(order, productId);
      r := Ok(ParseProduct(productRef));
    }
  }
}
