/**
 * The product table and the queries the catalog service sends to it: a
 * first-match lookup, the availability-filtered listing, the count of
 * available rows and an update by id. The table is a sequence of rows in
 * insertion order; ids come from an autoincrement counter, so that order is
 * also ascending id order.
 */
module ProductStore {
  import opened Wrappers
  import opened Pagination

  /** One row of the Product table; `price` is in cents. */
  datatype Product = Product(id: int, name: string, price: int, available: bool)

  /** The fields an update writes; an absent field keeps its stored value. */
  datatype ProductUpdateData = ProductUpdateData(name: Option<string>, price: Option<int>, available: Option<bool>)

  predicate AscendingIds(rows: seq<Product>) {
    forall i, j :: 0 <= i < j < |rows| ==> rows[i].id < rows[j].id
  }

  /** The table invariant: ids strictly ascend and all lie in [1, nextId). */
  predicate WellFormed(rows: seq<Product>, nextId: int) {
    && 1 <= nextId
    && (forall i :: 0 <= i < |rows| ==> 1 <= rows[i].id < nextId)
    && AscendingIds(rows)
  }

  /** Some row has this id and is available. */
  predicate HasAvailable(rows: seq<Product>, id: int) {
    exists p :: p in rows && p.id == id && p.available
  }

  /** findFirst where {id, available: true}. */
  function FindFirst(rows: seq<Product>, id: int): (r: Option<Product>)
    ensures r.Some? <==> HasAvailable(rows, id)
    ensures r.Some? ==> r.value in rows && r.value.id == id && r.value.available
  {
    if rows == [] then None
    else if rows[0].id == id && rows[0].available then Some(rows[0])
    else
      var r := FindFirst(rows[1..], id);
      assert HasAvailable(rows, id) ==> HasAvailable(rows[1..], id) by {
        if HasAvailable(rows, id) {
          var p :| p in rows && p.id == id && p.available;
          assert p != rows[0];
        }
      }
      r
  }

  /** findMany where {available: true}: the available rows, in table order. */
  function AvailableRows(rows: seq<Product>): (r: seq<Product>)
    ensures |r| <= |rows|
    ensures forall p :: p in r <==> p in rows && p.available
  {
    if rows == [] then []
    else (if rows[0].available then [rows[0]] else []) + AvailableRows(rows[1..])
  }

  /** count where {available: true}: agrees with the rows the listing returns. */
  function CountAvailable(rows: seq<Product>): (n: nat)
    ensures n == |AvailableRows(rows)|
  {
    if rows == [] then 0
    else (if rows[0].available then 1 else 0) + CountAvailable(rows[1..])
  }

  /** A row with the fields of `data` written over it; the id is never written. */
  function Apply(p: Product, data: ProductUpdateData): (q: Product)
    ensures q.id == p.id
  {
    Product(
      p.id,
      if data.name.Some? then data.name.value else p.name,
      if data.price.Some? then data.price.value else p.price,
      if data.available.Some? then data.available.value else p.available)
  }

  /** update where {id}: the table with `data` written over the row with that id. */
  function UpdatedRows(rows: seq<Product>, id: int, data: ProductUpdateData): (r: seq<Product>)
    ensures |r| == |rows|
    ensures forall i :: 0 <= i < |r| ==> r[i].id == rows[i].id
    ensures forall i :: 0 <= i < |r| && rows[i].id != id ==> r[i] == rows[i]
  {
    seq(|rows|, i requires 0 <= i < |rows| => if rows[i].id == id then Apply(rows[i], data) else rows[i])
  }

  /** The filtered listing keeps the ascending id order of the table. */
  lemma {:induction false} AvailableRowsAscending(rows: seq<Product>)
    requires AscendingIds(rows)
    ensures AscendingIds(AvailableRows(rows))
  {
    if rows != [] {
      var rest := AvailableRows(rows[1..]);
      AvailableRowsAscending(rows[1..]);
      forall q | q in rest ensures rows[0].id < q.id {
        var k :| 0 <= k < |rows[1..]| && rows[1..][k] == q;
      }
    }
  }

  /** A skip/take window of an ascending table is ascending. */
  lemma WindowAscending(rows: seq<Product>, skip: nat, take: nat)
    requires AscendingIds(rows)
    ensures AscendingIds(Window(rows, skip, take))
  {
  }

  /** Updating by id keeps the table invariant: no id changes. */
  lemma UpdatedRowsWellFormed(rows: seq<Product>, nextId: int, id: int, data: ProductUpdateData)
    requires WellFormed(rows, nextId)
    ensures WellFormed(UpdatedRows(rows, id, data), nextId)
  {
  }

  /**
   * In a well-formed table, an update by the id of an available row rewrites
   * that one row and leaves every other row as it was.
   */
  lemma UpdateTouchesOneRow(rows: seq<Product>, nextId: int, id: int, data: ProductUpdateData)
    requires WellFormed(rows, nextId) && HasAvailable(rows, id)
    ensures var r := UpdatedRows(rows, id, data);
            exists k :: 0 <= k < |rows| && rows[k] == FindFirst(rows, id).value
                        && r[k] == Apply(rows[k], data)
                        && forall j :: 0 <= j < |rows| && j != k ==> r[j] == rows[j]
  {
  }

  lemma UpdatedRowsTail(rows: seq<Product>, id: int, data: ProductUpdateData)
    requires rows != []
    ensures UpdatedRows(rows, id, data)[1..] == UpdatedRows(rows[1..], id, data)
  {
  }

  /** An update that does not name `available` keeps the number of available rows. */
  lemma {:induction false} UpdateKeepsCount(rows: seq<Product>, id: int, data: ProductUpdateData)
    requires data.available.None?
    ensures CountAvailable(UpdatedRows(rows, id, data)) == CountAvailable(rows)
  {
    if rows != [] {
      var r := UpdatedRows(rows, id, data);
      UpdatedRowsTail(rows, id, data);
      UpdateKeepsCount(rows[1..], id, data);
      assert r[0].available == rows[0].available;
      assert CountAvailable(r) == (if r[0].available then 1 else 0) + CountAvailable(r[1..]);
    }
  }

  /** An update by an id that no row has leaves the table as it was. */
  lemma UpdateAbsentId(rows: seq<Product>, id: int, data: ProductUpdateData)
    requires forall q :: q in rows ==> q.id != id
    ensures UpdatedRows(rows, id, data) == rows
  {
  }

  /** When the first row of an ascending table has the id of an available row, it is that row and no later row has the id. */
  lemma FirstRowMatches(rows: seq<Product>, id: int)
    requires AscendingIds(rows) && HasAvailable(rows, id) && rows[0].id == id
    ensures rows[0].available
    ensures forall q :: q in rows[1..] ==> q.id != id
  {
    var p :| p in rows && p.id == id && p.available;
    var k :| 0 <= k < |rows| && rows[k] == p;
    assert k == 0;
    forall q | q in rows[1..] ensures q.id != id {
      var j :| 0 <= j < |rows[1..]| && rows[1..][j] == q;
      assert rows[0].id < rows[j + 1].id;
    }
  }

  /** Marking the one available row with this id unavailable lowers the count by exactly one. */
  lemma {:induction false} SoftDeleteCount(rows: seq<Product>, id: int)
    requires AscendingIds(rows) && HasAvailable(rows, id)
    ensures CountAvailable(UpdatedRows(rows, id, ProductUpdateData(None, None, Some(false))))
            == CountAvailable(rows) - 1
  {
    var data := ProductUpdateData(None, None, Some(false));
    var r := UpdatedRows(rows, id, data);
    var tail := rows[1..];
    UpdatedRowsTail(rows, id, data);
    assert CountAvailable(r) == (if r[0].available then 1 else 0) + CountAvailable(UpdatedRows(tail, id, data));
    if rows[0].id == id {
      FirstRowMatches(rows, id);
      UpdateAbsentId(tail, id, data);
    } else {
      assert HasAvailable(tail, id) by {
        var p :| p in rows && p.id == id && p.available;
        assert p in tail;
      }
      SoftDeleteCount(tail, id);
    }
  }

  /** Appending a row adds one to the count exactly when the new row is available. */
  lemma {:induction false} AppendCount(rows: seq<Product>, p: Product)
    ensures CountAvailable(rows + [p]) == CountAvailable(rows) + (if p.available then 1 else 0)
  {
    if rows != [] {
      assert (rows + [p])[1..] == rows[1..] + [p];
      AppendCount(rows[1..], p);
    }
  }
}
