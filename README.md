# Products catalog service — a Dafny model

This project models the catalog logic of a products microservice
(`ProductsService` in `src/products/products.service.ts`). The service answers five
requests over a product table whose rows are `{id, name, price, available}`:

- `create` inserts an available row and returns it with the id the store assigned.
- `findAll` lists one page of the available rows, with `meta = {total, page, lastPage}`.
- `findOne` returns the available row with a given id, or fails with an RPC error
  `"Product with id #<id> not found"`, status 400.
- `update` writes the supplied fields over that row. The payload's own `id` is discarded.
- `remove` is a soft delete: it sets `available` to false. The row stays in the table.

The real service delegates storage to a database client. Here the store is an
explicit in-memory table. `Products.ProductsService` is a class with two fields:
`table`, a `seq<Product>` in insertion order, and `nextId`, the autoincrement counter.
`create`, `update` and `remove` are methods that reassign those fields. `findOne`
and `findAll` are methods that only read them. The store's queries (first match,
filtered listing, count, update by id) are pure functions over the table in
module `ProductStore`. The pagination arithmetic is in module `Pagination`.

Listing order: the source gives `findMany` no `orderBy`, so the row order is up to
the store. This model fixes it as ascending id. Ids come from a counter that starts
at 1 and only grows, so insertion order is ascending id order. The table invariant
`WellFormed` states this, and `FindAll` proves that its page is in ascending id order.

Files:

- `wrappers.dfy`: `Option` and `Result`.
- `decimal.dfy`: how an integer id is rendered inside the error message, with a
  parser that recovers it.
- `pagination.dfy`: defaults, offset, last page, the skip/take window, and the page a request selects.
- `product_store.dfy`: the `Product` row, the store queries, and lemmas about them.
- `products.dfy`: the payloads, the error frame, the `ProductsService` class, and
  lemmas about sequences of operations.

## Model

| member | source | states |
|---|---|---|
| `Pagination.Resolve` | src/products/products.service.ts:25 | an absent page becomes 1 and an absent limit becomes 10; supplied values pass through unchanged; validated input gives page ≥ 1 and limit ≥ 1 |
| `Pagination.LastPage` | src/products/products.service.ts:30 | the result is the ceiling of total / limit: the least page count with `total <= last * limit`, so `(last - 1) * limit < total` |
| `Pagination.Offset` | src/products/products.service.ts:34 | the skip is a whole number of pages: divisible by the limit, with quotient `page - 1` |
| `Pagination.Window` | src/products/products.service.ts:33-35 | a skip/take returns nothing when the skip reaches the end, and otherwise `min(take, rows - skip)` rows, so every remaining row up to `take`; its row i is row `skip + i` |
| `Pagination.PageNonEmptyIff` | src/products/products.service.ts:30-35 | the skip `(page - 1) * limit` is below the total exactly when `page <= lastPage`, so a page has rows iff its number is at most `lastPage` |
| `Pagination.RowOnItsPage` | src/products/products.service.ts:33-35 | every available row i is shown on page `i / limit + 1` at position `i % limit`, and that page is not past `lastPage` |
| `ProductStore.FindFirst` | src/products/products.service.ts:49-51 | returns a row iff some row has the id and is available; the row returned is in the table, has that id and is available |
| `ProductStore.AvailableRows` | src/products/products.service.ts:33-39 | the filtered listing holds exactly the table's available rows and no more rows than the table |
| `ProductStore.CountAvailable` | src/products/products.service.ts:27-29 | the count of available rows equals the length of the filtered listing, so `meta.total` agrees with `data` |
| `ProductStore.Apply` | src/products/products.service.ts:65-72 | writing update data over a row never changes its id |
| `ProductStore.UpdatedRows` | src/products/products.service.ts:69-72 | an update by id keeps the table's length and every row's id, and leaves every row with another id unchanged |
| `ProductStore.AvailableRowsAscending` | src/products/products.service.ts:33-39 | filtering a table whose ids ascend yields rows whose ids ascend (the listing order) |
| `ProductStore.UpdatedRowsWellFormed` | src/products/products.service.ts:69-72 | an update by id preserves the table invariant (ids unique, ascending, below the counter) |
| `ProductStore.UpdateTouchesOneRow` | src/products/products.service.ts:69-72 | in a well-formed table, an update by the id of an available row rewrites exactly that row and leaves every other row as it was |
| `ProductStore.UpdateKeepsCount` | src/products/products.service.ts:69-72 | an update that does not write `available` keeps the number of available rows |
| `ProductStore.SoftDeleteCount` | src/products/products.service.ts:82-87 | setting `available = false` on the one available row with an id lowers the available count by exactly one |
| `ProductStore.AppendCount` | src/products/products.service.ts:19-21 | appending a row raises the available count by one iff the row is available |
| `Decimal.FromInt` | src/products/products.service.ts:56 | the text of an id starts with `-` exactly when the id is negative; the rest is decimal digits with no leading zero, except the text `0` itself |
| `Decimal.ParseFromInt` | src/products/products.service.ts:56 | the decimal text of an id is well formed and parses back to that id, so the rendering is injective |
| `Products.NotFound` | src/products/products.service.ts:55-58 | the error frame has status 400 and a message that starts with `Product with id #`, ends with ` not found`, and holds the id's decimal text in between |
| `Products.UpdateData` | src/products/products.service.ts:65 | the store input of an update copies the payload's name and price and never writes `available`; it has no id field, so the payload's id is dropped |
| `Products.NotFoundNamesId` | src/products/products.service.ts:55-58 | two NotFound errors are equal only for equal ids: the message identifies the id |
| `Products.ProductsService.constructor` | src/products/products.service.ts:10 | the service starts with an empty table whose first id will be 1 |
| `Products.ProductsService.Create` | src/products/products.service.ts:18-22 | appends exactly one available row with the payload's name and price and returns it; its id is the counter, distinct from every existing id; the counter advances and the invariant holds |
| `Pagination.Paginate` | src/products/products.service.ts:25-45 | for a validated request: `meta.total` is the number of rows; `meta.page` echoes the page; `meta.lastPage` is the ceiling of total / limit; `data` is the rows after skipping `(page - 1) * limit`, in order; its length is 0 when the skip passes the end and otherwise `min(limit, total - skip)`, so a partial last page holds every remaining row; `data` is non-empty iff `page <= lastPage` |
| `Products.ProductsService.FindAll` | src/products/products.service.ts:24-46 | the result is the requested page (defaults applied) of the available rows, in the sense of `Paginate`: `meta.total` counts the available rows and `data` is drawn from them alone; every returned row is in the table and available; the rows are in ascending id order; the table is not changed |
| `Products.ProductsService.FindOne` | src/products/products.service.ts:48-62 | succeeds iff an available row has the id, and then returns that row; otherwise fails with message `Product with id #<id> not found` and status 400; an unavailable row counts as missing |
| `Products.ProductsService.Update` | src/products/products.service.ts:64-73 | fails with NotFound exactly when findOne would, leaving the table unchanged; on success writes the payload's name and price (the payload's id discarded) over the one row with that id, keeps its id and availability, returns the stored row, and keeps the invariant |
| `Products.ProductsService.Remove` | src/products/products.service.ts:75-90 | fails with NotFound, leaving the table unchanged, when no available row has the id; on success sets only `available = false` on that row, returns it, and leaves every other row and field as it was |
| `Products.RemoveHidesRow` | src/products/products.service.ts:82-87 | after a soft delete no available row has that id, so a second remove, a findOne or an update on it fails with NotFound: remove is not idempotent |
| `Products.RemoveLowersTotal` | src/products/products.service.ts:82-87 | a successful remove lowers the `meta.total` of every later listing by exactly one |
| `Products.UpdateKeepsTotal` | src/products/products.service.ts:64-73 | no update payload changes `meta.total` |
| `Products.CreateRaisesTotal` | src/products/products.service.ts:18-22 | a create raises the `meta.total` of every later listing by exactly one |
| `Products.UpdateIgnoresPayloadId` | src/products/products.service.ts:65 | the id inside an update payload has no effect on the resulting table |

## Left out

- Connection lifecycle (`onModuleInit`, `$connect`) and logging (src/products/products.service.ts:11-16): they make no decisions.
- `src/main.ts`: transport bootstrap, the global validation pipe and the startup log. The validator's guarantees (page ≥ 1, limit ≥ 1) become the precondition `ValidPagination` of `FindAll`.
- The payload classes (`CreateProductDto`, `UpdateProductDto`, `PaginationDto`) are not part of this model. Their fields are assumed: `{name, price}` for create, an optional `id` plus optional `name` and `price` for update, optional `page` and `limit` for the listing.
- The database client itself: the store is the `table` and `nextId` fields. Store-level failures are not modelled, so `Create` always succeeds and the update by id after a passed existence check cannot fail.
- Concurrency and `async`/`await`: each operation is atomic. In the source, `findAll`'s count and fetch are two separate store calls. A concurrent write between them could make `meta.total` disagree with `data`. The model does not capture that gap.
- `price` is an integer number of cents, not a floating-point number.
- `Decimal.FromInt`: renders every integer in plain decimal. JavaScript writes numbers of magnitude 10^21 or more in exponent form (`1e+21`); ids that large are not modelled.
- Ids are unbounded integers. A database integer column would overflow at its width; the model's counter does not. Non-integer numeric ids are not modelled.
- `Pagination.LastPage`: `Math.ceil(totalRecords / limit)` uses floating-point division. The model uses exact integer ceiling, which equals it for counts below 2^53.
- `Products.ProductsService.FindAll`: the ascending id order is the model's choice, because the source's query sets no order.
