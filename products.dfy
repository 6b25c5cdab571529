/**
 * The catalog service: create, paginated listing, existence check, update
 * and soft delete over the product table. The service owns the table and
 * the autoincrement counter that the database would otherwise hold.
 */
module Products {
  import opened Wrappers
  import opened Pagination
  import opened ProductStore
  import Decimal

  /** The create payload. */
  datatype CreateProductDto = CreateProductDto(name: string, price: int)

  /** The update payload: an optional id (ignored) and any subset of the create fields. */
  datatype UpdateProductDto = UpdateProductDto(id: Option<int>, name: Option<string>, price: Option<int>)

  /** The error frame sent back over the transport. */
  datatype RpcError = RpcError(message: string, status: int)

  /** HTTP 400, the status the NotFound frame carries. */
  const BadRequest: int := 400

  const NotFoundPrefix: string := "Product with id #"
  const NotFoundSuffix: string := " not found"

  /** The NotFound frame: status 400 and a message naming the id between a fixed prefix and suffix. */
  function NotFound(id: int): (e: RpcError)
    ensures e.status == BadRequest
    ensures |e.message| > |NotFoundPrefix| + |NotFoundSuffix|
    ensures e.message[..|NotFoundPrefix|] == NotFoundPrefix
    ensures e.message[|e.message| - |NotFoundSuffix|..] == NotFoundSuffix
    ensures e.message[|NotFoundPrefix|..|e.message| - |NotFoundSuffix|] == Decimal.FromInt(id)
  {
    RpcError(NotFoundPrefix + Decimal.FromInt(id) + NotFoundSuffix, BadRequest)
  }

  /** The store input of an update: the payload without its id; `available` is never written. */
  function UpdateData(dto: UpdateProductDto): (data: ProductUpdateData)
    ensures data.available.None?
    ensures data.name == dto.name && data.price == dto.price
  {
    ProductUpdateData(dto.name, dto.price, None)
  }

  /** The store input of a soft delete. */
  const SoftDelete: ProductUpdateData := ProductUpdateData(None, None, Some(false))

  /** Two NotFound errors are equal only for the same id: the message names the id. */
  lemma NotFoundNamesId(a: int, b: int)
    requires NotFound(a) == NotFound(b)
    ensures a == b
  {
    var da, db := Decimal.FromInt(a), Decimal.FromInt(b);
    var ma, mb := NotFound(a).message, NotFound(b).message;
    assert ma[|NotFoundPrefix|..|NotFoundPrefix| + |da|] == da;
    assert mb[|NotFoundPrefix|..|NotFoundPrefix| + |db|] == db;
    Decimal.ParseFromInt(a);
    Decimal.ParseFromInt(b);
  }

  class ProductsService {
    /** The Product table, in insertion order. */
    var table: seq<Product>
    /** The id the next created row receives. */
    var nextId: int

    ghost predicate Valid()
      reads this
    {
      WellFormed(table, nextId)
    }

    /** An empty table whose first id will be 1. */
    constructor ()
      ensures Valid() && table == [] && nextId == 1
    {
      table := [];
      nextId := 1;
    }

    /** Inserts an available row with the payload's fields and a fresh id, and returns it. */
    method Create(dto: CreateProductDto) returns (p: Product)
      requires Valid()
      modifies this
      ensures Valid()
      ensures p.name == dto.name && p.price == dto.price && p.available
      ensures p.id == old(nextId) && nextId == old(nextId) + 1
      ensures forall q :: q in old(table) ==> q.id != p.id
      ensures table == old(table) + [p]
    {
      p := Product(nextId, dto.name, dto.price, true);
      table := table + [p];
      nextId := nextId + 1;
    }

    /**
     * One page of the available products in ascending id order, with the
     * number of available products, the page number and the last page number.
     */
    method FindAll(dto: PaginationDto) returns (r: PageResult<Product>)
      requires Valid() && ValidPagination(dto)
      ensures r == Paginate(AvailableRows(table), Resolve(dto))
      ensures forall p :: p in r.data ==> p in table && p.available
      ensures AscendingIds(r.data)
    {
      var req := Resolve(dto);
      var page, limit := req.page, req.limit;
      var totalRecords := CountAvailable(table);
      var lastPage := LastPage(totalRecords, limit);
      var rows := AvailableRows(table);
      var data := Window(rows, Offset(page, limit), limit);
      r := PageResult(data, PageMeta(totalRecords, page, lastPage));
      assert r == Paginate(rows, req);
      assert forall p :: p in data ==> p in rows by {
        forall p | p in data ensures p in rows {
          var k :| 0 <= k < |data| && data[k] == p;
          assert rows[Offset(page, limit) + k] == p;
        }
      }
      assert AscendingIds(data) by {
        AvailableRowsAscending(table);
        WindowAscending(rows, Offset(page, limit), limit);
      }
    }

    /** The available row with this id, or NotFound when there is none. */
    method FindOne(id: int) returns (r: Result<Product, RpcError>)
      ensures r.Success? <==> HasAvailable(table, id)
      ensures r.Success? ==> r.value in table && r.value.id == id && r.value.available
      ensures r.Failure? ==> r.error == NotFound(id)
    {
      var product := FindFirst(table, id);
      if product.None? {
        return Failure(NotFound(id));
      }
      return Success(product.value);
    }

    /**
     * Writes the payload's fields over the available row with this id and
     * returns the row as stored; the payload's id is ignored. Fails with
     * NotFound, changing nothing, when there is no such row.
     */
    method Update(id: int, dto: UpdateProductDto) returns (r: Result<Product, RpcError>)
      requires Valid()
      modifies this
      ensures Valid() && nextId == old(nextId)
      ensures r.Failure? <==> !HasAvailable(old(table), id)
      ensures r.Failure? ==> r.error == NotFound(id) && table == old(table)
      ensures r.Success? ==>
                && table == UpdatedRows(old(table), id, UpdateData(dto))
                && r.value == Apply(FindFirst(old(table), id).value, UpdateData(dto))
                && r.value in table && r.value.id == id && r.value.available
    {
      var data := UpdateData(dto);
      var found := FindOne(id);
      if found.Failure? {
        return Failure(found.error);
      }
      UpdatedRowsWellFormed(table, nextId, id, data);
      UpdateTouchesOneRow(table, nextId, id, data);
      table := UpdatedRows(table, id, data);
      r := Success(Apply(found.value, data));
    }

    /**
     * Soft delete: marks the available row with this id unavailable and
     * returns it as stored. Fails with NotFound, changing nothing, when there
     * is no such row.
     */
    method Remove(id: int) returns (r: Result<Product, RpcError>)
      requires Valid()
      modifies this
      ensures Valid() && nextId == old(nextId)
      ensures r.Failure? <==> !HasAvailable(old(table), id)
      ensures r.Failure? ==> r.error == NotFound(id) && table == old(table)
      ensures r.Success? ==>
                && table == UpdatedRows(old(table), id, SoftDelete)
                && r.value == FindFirst(old(table), id).value.(available := false)
                && r.value in table && r.value.id == id
    {
      var found := FindOne(id);
      if found.Failure? {
        return Failure(found.error);
      }
      UpdatedRowsWellFormed(table, nextId, id, SoftDelete);
      UpdateTouchesOneRow(table, nextId, id, SoftDelete);
      table := UpdatedRows(table, id, SoftDelete);
      r := Success(Apply(found.value, SoftDelete));
    }
  }

  /**
   * Remove is not idempotent: once the row with this id has been soft
   * deleted, no available row has that id, so findOne, update and remove on
   * it all fail with NotFound.
   */
  lemma RemoveHidesRow(rows: seq<Product>, id: int)
    ensures !HasAvailable(UpdatedRows(rows, id, SoftDelete), id)
  {
  }

  /** A successful remove lowers meta.total of every later listing by one. */
  lemma RemoveLowersTotal(rows: seq<Product>, nextId: int, id: int)
    requires WellFormed(rows, nextId) && HasAvailable(rows, id)
    ensures |AvailableRows(UpdatedRows(rows, id, SoftDelete))| == |AvailableRows(rows)| - 1
  {
    SoftDeleteCount(rows, id);
  }

  /** An update never changes meta.total, whatever the payload holds. */
  lemma UpdateKeepsTotal(rows: seq<Product>, id: int, dto: UpdateProductDto)
    ensures |AvailableRows(UpdatedRows(rows, id, UpdateData(dto)))| == |AvailableRows(rows)|
  {
    UpdateKeepsCount(rows, id, UpdateData(dto));
  }

  /** A create raises meta.total of every later listing by one. */
  lemma CreateRaisesTotal(rows: seq<Product>, p: Product)
    requires p.available
    ensures |AvailableRows(rows + [p])| == |AvailableRows(rows)| + 1
  {
    AppendCount(rows, p);
  }

  /** The id carried by an update payload has no effect on the table. */
  lemma UpdateIgnoresPayloadId(rows: seq<Product>, id: int, dto: UpdateProductDto, other: Option<int>)
    ensures UpdatedRows(rows, id, UpdateData(dto)) == UpdatedRows(rows, id, UpdateData(dto.(id := other)))
  {
  }

  /**
   * A client run: create a product, find it, remove it, and find that it is
   * gone, with the error frame the caller receives.
   */
  method WidgetLifecycle()
  {
    var service := new ProductsService();
    var p := service.Create(CreateProductDto("Widget", 999));
    assert p == Product(1, "Widget", 999, true);
    var found := service.FindOne(1);
    assert found == Success(p);
    var removed := service.Remove(1);
    assert removed.Success? && removed.value == Product(1, "Widget", 999, false);
    var again := service.FindOne(1);
    RemoveHidesRow([p], 1);
    assert again.Failure?;
    assert Decimal.FromInt(1) == "1";
    assert again.error == RpcError("Product with id #1 not found", 400);
  }
}
