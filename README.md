# Item service: validation rules and the items table

A Dafny model of the business rules of a small HTTP service for an "item"
resource. An item has a `name` (at least 3 characters, unique across the
table), a `price` (strictly positive) and a `stock` (not negative); the store
adds an `id` and a `created_at`. The service has two operations: `create_item`
(refuse a duplicate name, then refuse a non-positive price, otherwise insert
one row with a generated id) and `read_items` (an optional substring filter on
`name`, then at most `limit` rows).

- `wrappers.dfy` — `Option` and `Result`, standing for Python's `None` and raised exceptions.
- `item_model.dfy` (module `ItemModel`) — the item shapes `ItemBase`, `ItemCreate`, `Item`
  and `ItemRead`, the constraints declared on the fields, the two validators and the
  conversions between shapes. Pure functions.
- `item_router.dfy` (module `ItemRouter`) — the table held by the session as a class
  `ItemStore` (its rows and the next id), `create_item` as the method `CreateItem`,
  `read_items` as the function `ReadItems`, and the two requests as the HTTP layer runs
  them (`PostItem`: validate the body, then create; `GetItems`: default and range-check
  `limit`, then list).

The table invariant (`TableInvariant`) is: names pairwise distinct, the rows
carry ids 1, 2, ... in insertion order and the next id is one past the row
count, every price positive, every row satisfying all field constraints
(`AllAccepted`), every price and stock within SQLite's 64-bit INTEGER range.
`CreateItem` keeps it whatever candidate it is given: besides its own two
refusals, `Item.from_orm` re-validates the candidate against the `ItemBase`
constraints and refuses one that breaks them, and the commit refuses values
too wide for the column.

Ids are modelled as SQLite assigns an integer primary key when no row is ever
deleted: one more than the largest id so far, i.e. a counter `nextId` starting
at 1 on an empty table and always equal to the row count plus one.

Responses are checked against their response model: a row is sent back as an
`ItemRead` only if it has an id and satisfies every `ItemBase` constraint;
otherwise the request fails after the handler ran (HTTP 500).

## Model

| member | source | states |
|---|---|---|
| `ItemModel.ValidatePrice` | src/models/item_model.py:12-16 | accepts exactly the positive prices, and then returns the value unchanged; otherwise the price error |
| `ItemModel.ValidateStock` | src/models/item_model.py:18-22 | accepts exactly the non-negative stocks, and then returns the value unchanged; otherwise the stock error |
| `ItemModel.ValidatorsAreRedundant` | src/models/item_model.py:9-22 | the declared `gt=0` / `ge=0` constraints run first and already reject what the validators reject, so each whole field check (constraint, then validator) equals the validator alone and equals the constraint alone |
| `ItemModel.Validate` | src/models/item_model.py:7-22 | a body is accepted iff name length >= 3, price > 0 and stock >= 0; an accepted body comes back with its fields unchanged; a refused one reports at least one error, and exactly the errors of the constraints it breaks |
| `ItemModel.FromCandidate` | src/models/item_model.py:25-29 | `from_orm` succeeds iff the candidate satisfies the inherited `ItemBase` constraints, and then gives a row with the candidate's fields, no id yet, and `created_at` equal to the clock reading; otherwise it fails with exactly the errors `Validate` reports |
| `ItemModel.ToRead` | src/models/item_model.py:36-38 | a row passes the `ItemRead` response model iff it has an id and satisfies the inherited `ItemBase` constraints; the response carries that id, the same fields and the same `created_at` |
| `ItemModel.ToReadAll` | src/router/item_router.py:40 | a list of rows passes `List[ItemRead]` iff every row passes `ItemRead`; the result has one response per row, in order, each that row's response |
| `ItemRouter.FindByName` | src/router/item_router.py:17-19 | finds a row iff some stored row has exactly that name, and what it finds is a stored row with that name |
| `ItemRouter.IdsAreDistinct` | src/models/item_model.py:28 | in a table keeping the invariant every row has an id, ids are pairwise distinct and all below the next id |
| `ItemRouter.InsertKeepsInvariant` | src/router/item_router.py:17-35 | appending a row with a new name, fields satisfying every constraint, values that fit the columns and the next id keeps names unique, ids sequential and every row valid, and that id is used by no earlier row |
| `ItemRouter.ItemStore.constructor` | src/core/db.py:8-10 | a new table is empty, satisfies the invariant and hands out id 1 first |
| `ItemRouter.ItemStore.CreateItem` | src/router/item_router.py:10-38 | a taken name is refused with the duplicate error (checked before the price, so also when the price is bad); otherwise a price <= 0 is refused; otherwise a candidate breaking the name or stock constraint is refused by `from_orm` with exactly the failing fields; otherwise a price or stock outside the 64-bit range fails at commit; any failure leaves the table and the next id unchanged; otherwise exactly one row is appended carrying the given name, price, stock, `created_at == now` and the next id, which no earlier row has, earlier rows are unchanged, the next id advances by one, that row is returned, and the invariant is kept |
| `ItemRouter.Where` | src/router/item_router.py:48-51 | with a non-empty search it keeps exactly the stored rows whose name contains the search, each as often as it is stored (as multisets); with `None` or an empty search it is the whole table |
| `ItemRouter.ReadItems` | src/router/item_router.py:41-56 | at most `limit` rows, a sub-multiset of the rows passing the filter (so a row appears at most as often as it is stored); `min(limit, number passing)` of them, so all passing rows when they fit; with no filter `min(limit, table size)` rows |
| `ItemRouter.AddedItemIsListed` | src/router/item_router.py:33-55 | a created row that passes the filter is listed by the next `read_items` when fewer than `limit` earlier rows pass it |
| `ItemRouter.StoredRowsAreReadable` | src/router/item_router.py:40 | every row of a table that keeps the invariant passes the `ItemRead` response model, so a table built by `create_item` can always be listed |
| `ItemRouter.GetItems` | src/router/item_router.py:40-56 | `limit` defaults to 10; a `limit` outside 1..100 is refused, and only then; otherwise the response is exactly the `ItemRead` of each row `read_items` returns, in order, and the request fails after the handler iff some such row breaks `ItemRead`'s constraints, which never happens on a table whose rows all pass |
| `ItemRouter.LimitOneGivesOneRow` | src/router/item_router.py:45-53 | `limit=1` on a listable table of two or more rows returns exactly one row |
| `ItemRouter.PostItem` | src/router/item_router.py:9-38 | an invalid body is refused before the handler with no write, reporting exactly the errors `Validate` gives (so exactly the failing fields); a valid body with a taken name gets the duplicate error; neither the price refusal nor the `from_orm` refusal occurs for a validated body; a value too wide for the column fails with no write; otherwise the response is the new row with the next id, the given fields and `created_at == now`, appended to the table, and the next id advances by one |

## Left out

- The `X-App-Version` header (src/router/item_router.py:14): the web framework refuses a request without it before the handler runs, and the handler never reads it.
- The clock: `created_at`'s default factory reads the UTC clock; the model takes the reading as the parameter `now`.
- The database engine, session lifecycle, `create_all` at startup, and the commit and refresh calls: the session is the in-memory `ItemStore`.
- ItemRouter.Matches: search is plain, case-sensitive substring containment; SQLite's `LIKE` behind `.contains` is case-insensitive for ASCII and treats `%` and `_` as wildcards, which the model does not capture.
- Result ordering: there is no `ORDER BY`, so no ordering of the listing is claimed; the insertion order of `items` is a convenience of the model. `ReadItems` states which rows and how many, not which `limit` of several passing rows are chosen beyond that.
- ItemRouter.FindByName: `.first()` has no defined order; the model returns the earliest stored match, which is the only one while names are unique.
- The race between two concurrent creates with the same name: the model is sequential.
- Name length: Python counts code points; the model counts the characters of a Dafny string.
- The validation error messages produced by the field constraints; only which field failed is modelled.
- HTTP status codes (201, 400, 422, 500) and the `detail` texts of the two refusals in `create_item`: the model returns which error occurred, and the doc comments of `CreateError` and `ApiError` name the status of each.
- The 64-bit overflow at commit is modelled as an error result; the driver's exception text and the server's 500 response body are not.
- Idempotence of repeated listings: `ReadItems` is a function of the table, so it holds by construction.
- The web framework's app, the root redirect, the documentation page and `/health` (src/main.py): wiring with no logic.
