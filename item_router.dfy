/** The two handlers of the `/items` router: `create_item` (duplicate-name
    check, price guard, insert with a generated id) and `read_items` (optional
    substring filter, bounded limit), over the items table held in memory. */
module ItemRouter {
  import opened Wrappers
  import opened ItemModel

  /** Why `create_item` did not insert a row. `NameExists` and `BadPrice` are
      the handler's own refusals (HTTP 400); `InvalidRow` is the validation
      error `Item.from_orm` raises for a candidate that breaks an `ItemBase`
      constraint, and `StoreOverflow` the error the SQLite driver raises at
      commit for an integer that does not fit its 64-bit column (both HTTP 500). */
  datatype CreateError = NameExists(name: string) | BadPrice | InvalidRow(errors: seq<FieldError>) | StoreOverflow

  // ---------------------------------------------------------------------
  // The table and its invariant

  /** The range of SQLite's 64-bit INTEGER column. */
  const MinInt64: int := -0x8000_0000_0000_0000
  const MaxInt64: int := 0x7fff_ffff_ffff_ffff

  predicate FitsInt64(x: int)
  {
    MinInt64 <= x <= MaxInt64
  }

  /** The integer fields of a candidate can be written to the table. */
  predicate RowFits(b: ItemBase)
  {
    FitsInt64(b.price) && FitsInt64(b.stock)
  }

  /** Some stored item has exactly the name `name` (case-sensitive). */
  predicate NameTaken(items: seq<Item>, name: string)
  {
    exists i :: 0 <= i < |items| && items[i].name == name
  }

  /** The query `select(Item).where(Item.name == name).first()`. */
  function FindByName(items: seq<Item>, name: string): (r: Option<Item>)
    ensures r.Some? <==> NameTaken(items, name)
    ensures r.Some? ==> r.value in items && r.value.name == name
  {
    if items == [] then None
    else if items[0].name == name then Some(items[0])
    else
      var r := FindByName(items[1..], name);
      assert NameTaken(items, name) ==> NameTaken(items[1..], name) by {
        if NameTaken(items, name) {
          var i :| 0 <= i < |items| && items[i].name == name;
          assert items[1..][i - 1].name == name;
        }
      }
      r
  }

  predicate DistinctNames(items: seq<Item>)
  {
    forall i, j :: 0 <= i < j < |items| ==> items[i].name != items[j].name
  }

  predicate DistinctIds(items: seq<Item>)
  {
    forall i, j :: 0 <= i < j < |items| ==> items[i].id != items[j].id
  }

  /** SQLite gives an integer primary key one more than the largest so far;
      starting from an empty table with no deletes, the rows carry ids
      1, 2, ... in insertion order and the next id is one past the count. */
  predicate IdsSequential(items: seq<Item>, nextId: int)
  {
    nextId == |items| + 1 &&
    forall i :: 0 <= i < |items| ==> items[i].id == Some(i + 1)
  }

  predicate PricesPositive(items: seq<Item>)
  {
    forall i :: 0 <= i < |items| ==> items[i].price > 0
  }

  predicate ValuesFit(items: seq<Item>)
  {
    forall i :: 0 <= i < |items| ==> RowFits(BaseOf(items[i]))
  }

  /** Every row satisfies all the constraints declared on `ItemBase`. */
  predicate AllAccepted(items: seq<Item>)
  {
    forall i :: 0 <= i < |items| ==> Accepted(BaseOf(items[i]))
  }

  /** What `create_item` keeps true of the table: unique names, ids assigned
      in sequence, positive prices, every field constraint, values that fit
      the columns. */
  predicate TableInvariant(items: seq<Item>, nextId: int)
  {
    DistinctNames(items) && IdsSequential(items, nextId) &&
    PricesPositive(items) && AllAccepted(items) && ValuesFit(items)
  }

  /** In a table that keeps the invariant every row has an id, the ids are
      pairwise distinct, and all of them are below the next id. */
  lemma IdsAreDistinct(items: seq<Item>, nextId: int)
    requires TableInvariant(items, nextId)
    ensures DistinctIds(items)
    ensures forall i :: 0 <= i < |items| ==> items[i].id.Some? && 1 <= items[i].id.value < nextId
  {
  }

  /** Appending a row whose name is new, whose fields satisfy the constraints,
      whose values fit and whose id is the next one keeps the invariant, and
      that id is used by no other row. */
  lemma InsertKeepsInvariant(items: seq<Item>, nextId: int, it: Item)
    requires TableInvariant(items, nextId)
    requires !NameTaken(items, it.name) && Accepted(BaseOf(it)) && RowFits(BaseOf(it)) && it.id == Some(nextId)
    ensures TableInvariant(items + [it], nextId + 1)
    ensures forall i :: 0 <= i < |items| ==> items[i].id != it.id
  {
  }

  // ---------------------------------------------------------------------
  // The store and `create_item`

  /** The session's view of the `items` table: its rows and the id the store
      assigns to the next insert. */
  class ItemStore {
    var items: seq<Item>
    var nextId: int

    ghost predicate Valid()
      reads this
    {
      TableInvariant(items, nextId)
    }

    /** A freshly created, empty table. */
    constructor ()
      ensures Valid()
      ensures items == [] && nextId == 1
    {
      items := [];
      nextId := 1;
    }

    /** `create_item`: refuse a name that is already stored, then refuse a
        price that is not positive; then `from_orm` refuses a candidate that
        breaks another field constraint; otherwise the commit writes one row
        with the next id and `created_at == now` and it is returned, unless a
        value does not fit its 64-bit column, when the commit fails and writes
        nothing. */
    method CreateItem(item: ItemCreate, now: Timestamp) returns (r: Result<Item, CreateError>)
      requires Valid()
      modifies this
      ensures Valid()
      ensures NameTaken(old(items), item.name) ==> r == Failure(NameExists(item.name))
      ensures !NameTaken(old(items), item.name) && item.price <= 0 ==> r == Failure(BadPrice)
      ensures !NameTaken(old(items), item.name) && item.price > 0 && !Accepted(item) ==>
                r == Failure(InvalidRow(Validate(item.name, item.price, item.stock).error))
      ensures !NameTaken(old(items), item.name) && Accepted(item) && !RowFits(item) ==> r == Failure(StoreOverflow)
      ensures r.Success? <==> !NameTaken(old(items), item.name) && Accepted(item) && RowFits(item)
      ensures r.Failure? ==> items == old(items) && nextId == old(nextId)
      ensures r.Success? ==> r.value.id == Some(old(nextId)) && BaseOf(r.value) == item && r.value.createdAt == now
      ensures r.Success? ==> items == old(items) + [r.value] && nextId == old(nextId) + 1
      ensures r.Success? ==> forall i :: 0 <= i < |old(items)| ==> old(items)[i].id != r.value.id
    {
      var existing := FindByName(items, item.name);
      if existing.Some? {
        return Failure(NameExists(item.name));
      }
      if item.price <= 0 {
        return Failure(BadPrice);
      }
      var row := FromCandidate(item, now);
      if row.Failure? {
        return Failure(InvalidRow(row.error));
      }
      var dbItem := row.value;
      // add and commit: the driver refuses an integer wider than the column
      if !RowFits(item) {
        return Failure(StoreOverflow);
      }
      // the store assigns the next id, which refresh reads back
      dbItem := dbItem.(id := Some(nextId));
      InsertKeepsInvariant(items, nextId, dbItem);
      items := items + [dbItem];
      nextId := nextId + 1;
      r := Success(dbItem);
    }
  }

  // ---------------------------------------------------------------------
  // `read_items`

  /** `limit` when the query string omits it, and its upper bound. */
  const DefaultLimit := 10
  const MaxLimit := 100

  /** `if search:` -- `None` and the empty string both mean no filter. */
  predicate Searching(search: Option<string>)
  {
    search.Some? && search.value != []
  }

  /** `needle` occurs in `hay` as a contiguous substring: it is a prefix of some suffix. */
  predicate Contains(hay: string, needle: string)
  {
    exists k :: 0 <= k <= |hay| && needle <= hay[k..]
  }

  /** The row passes the optional `name` filter. */
  predicate Matches(it: Item, search: Option<string>)
  {
    Searching(search) ==> Contains(it.name, search.value)
  }

  /** `query.where(Item.name.contains(search))`, applied only when searching:
      every row that passes, as often as it occurs, and no other. */
  function Where(items: seq<Item>, search: Option<string>): (r: seq<Item>)
    ensures |r| <= |items|
    ensures forall x :: x in r ==> x in items && Matches(x, search)
    ensures forall x :: x in items && Matches(x, search) ==> x in r
    ensures forall x :: multiset(r)[x] == if Matches(x, search) then multiset(items)[x] else 0
    ensures !Searching(search) ==> r == items
    decreases |items|
  {
    if items == [] then []
    else
      var init, last := items[..|items| - 1], items[|items| - 1];
      assert items == init + [last];
      var rest := Where(init, search);
      if Matches(last, search) then rest + [last] else rest
  }

  /** `read_items` with a `limit` already known to be in range: distinct rows
      of the table that pass the filter, at most `limit` of them, and all of
      them when they fit. */
  function ReadItems(items: seq<Item>, search: Option<string>, limit: int): (r: seq<Item>)
    requires 1 <= limit <= MaxLimit
    ensures |r| <= limit
    ensures forall x :: x in r ==> x in items && Matches(x, search)
    ensures multiset(r) <= multiset(Where(items, search))
    ensures |r| == if |Where(items, search)| < limit then |Where(items, search)| else limit
    ensures |Where(items, search)| <= limit ==> forall x :: x in items && Matches(x, search) ==> x in r
    ensures !Searching(search) ==> |r| == if |items| < limit then |items| else limit
  {
    var matching := Where(items, search);
    if |matching| <= limit then matching
    else
      assert matching == matching[..limit] + matching[limit..];
      matching[..limit]
  }

  /** Filtering a table with one more row: the helper step behind
      `AddedItemIsListed`, one unfolding of `Where`. */
  lemma {:induction false} WhereAppend(items: seq<Item>, it: Item, search: Option<string>)
    ensures Where(items + [it], search) == Where(items, search) + (if Matches(it, search) then [it] else [])
  {
    assert (items + [it])[..|items|] == items;
  }

  /** A row just added that passes the filter is listed, as long as fewer than
      `limit` earlier rows pass it. */
  lemma {:induction false} AddedItemIsListed(items: seq<Item>, it: Item, search: Option<string>, limit: int)
    requires 1 <= limit <= MaxLimit
    requires |Where(items, search)| < limit
    requires Matches(it, search)
    ensures it in ReadItems(items + [it], search, limit)
  {
    WhereAppend(items, it, search);
  }

  // ---------------------------------------------------------------------
  // The requests as the HTTP layer runs them

  /** Why a request failed: a body that does not validate and a `limit` out
      of range (both HTTP 422, before the handler runs), a refusal of
      `create_item`, or a listed row that fails `ItemRead`'s validation
      (HTTP 500, after the handler ran). */
  datatype ApiError = InvalidBody(errors: seq<FieldError>) | InvalidLimit | Rejected(reason: CreateError) | InvalidResponse

  /** The `limit` the handler sees: the one given, or 10. */
  function LimitOrDefault(limit: Option<int>): int
  {
    if limit.Some? then limit.value else DefaultLimit
  }

  /** Every row of the table can be sent back as an `ItemRead`. */
  predicate Readable(items: seq<Item>)
  {
    forall i :: 0 <= i < |items| ==> ToRead(items[i]).Some?
  }

  /** A table built by `create_item` can always be listed. */
  lemma StoredRowsAreReadable(items: seq<Item>, nextId: int)
    requires TableInvariant(items, nextId)
    ensures Readable(items)
  {
  }

  /** `GET /items`: `limit` defaults to 10 and must lie in 1..100, otherwise
      the request is refused before `read_items` runs; the rows `read_items`
      returns are then checked against `List[ItemRead]`. */
  function GetItems(items: seq<Item>, search: Option<string>, limit: Option<int>): (r: Result<seq<ItemRead>, ApiError>)
    ensures !(1 <= LimitOrDefault(limit) <= MaxLimit) <==> r == Failure(InvalidLimit)
    ensures 1 <= LimitOrDefault(limit) <= MaxLimit ==>
              var rows := ReadItems(items, search, LimitOrDefault(limit));
              (r.Success? <==> forall x :: x in rows ==> ToRead(x).Some?) &&
              (r.Failure? ==> r.error == InvalidResponse) &&
              (r.Success? ==> |r.value| == |rows| &&
                              forall i :: 0 <= i < |rows| ==> ToRead(rows[i]) == Some(r.value[i]))
    ensures Readable(items) && 1 <= LimitOrDefault(limit) <= MaxLimit ==> r.Success?
  {
    var l := LimitOrDefault(limit);
    if !(1 <= l <= MaxLimit) then Failure(InvalidLimit)
    else
      var response := ToReadAll(ReadItems(items, search, l));
      if response.Some? then Success(response.value) else Failure(InvalidResponse)
  }

  /** `GET /items?limit=1` on a listable table of two or more rows gives
      exactly one row. */
  lemma LimitOneGivesOneRow(items: seq<Item>)
    requires |items| >= 2 && Readable(items)
    ensures GetItems(items, None, Some(1)).Success?
    ensures |GetItems(items, None, Some(1)).value| == 1
  {
  }

  /** `POST /items`: the body is validated into an `ItemCreate`, then
      `create_item` runs and its row is returned as an `ItemRead`. A body that
      passed validation never reaches the price refusal or the refusal of
      `from_orm`. */
  method PostItem(store: ItemStore, name: string, price: int, stock: int, now: Timestamp)
    returns (r: Result<ItemRead, ApiError>)
    requires store.Valid()
    modifies store
    ensures store.Valid()
    ensures r.Failure? ==> store.items == old(store.items) && store.nextId == old(store.nextId)
    ensures !Accepted(ItemBase(name, price, stock)) ==> r == Failure(InvalidBody(Validate(name, price, stock).error))
    ensures Accepted(ItemBase(name, price, stock)) && NameTaken(old(store.items), name) ==>
              r == Failure(Rejected(NameExists(name)))
    ensures (Accepted(ItemBase(name, price, stock)) && !NameTaken(old(store.items), name) &&
             !RowFits(ItemBase(name, price, stock))) ==> r == Failure(Rejected(StoreOverflow))
    ensures r != Failure(Rejected(BadPrice))
    ensures r.Failure? && r.error.Rejected? ==> !r.error.reason.InvalidRow?
    ensures r.Success? <==>
              Accepted(ItemBase(name, price, stock)) && RowFits(ItemBase(name, price, stock)) &&
              !NameTaken(old(store.items), name)
    ensures r.Success? ==>
              r.value == ItemRead(old(store.nextId), name, price, stock, now) &&
              store.items == old(store.items) + [Item(Some(r.value.id), name, price, stock, now)] &&
              store.nextId == old(store.nextId) + 1
  {
    var body := Validate(name, price, stock);
    if body.Failure? {
      return Failure(InvalidBody(body.error));
    }
    var created := store.CreateItem(body.value, now);
    if created.Failure? {
      return Failure(Rejected(created.error));
    }
    var response := ToRead(created.value);
    r := Success(response.value);
  }

  /** A client of the two requests: what a caller can conclude from their
      contracts alone. */
  method ClientScenario(now: Timestamp)
  {
    var store := new ItemStore();
    var a := PostItem(store, "Widget", 10, 5, now);
    assert a == Success(ItemRead(1, "Widget", 10, 5, now));
    assert store.items[0].name == "Widget";
    var b := PostItem(store, "Widget", 20, 1, now);
    assert b == Failure(Rejected(NameExists("Widget")));
    assert CheckName("Gadget").Success? && CheckStock(5).Success?;
    assert Validate("Gadget", 0, 5).error == [PriceNotPositive];
    var c := PostItem(store, "Gadget", 0, 5, now);
    assert c == Failure(InvalidBody([PriceNotPositive]));
    var d := PostItem(store, "Gadget", 20, 1, now);
    assert d == Success(ItemRead(2, "Gadget", 20, 1, now));
    StoredRowsAreReadable(store.items, store.nextId);
    var listed := GetItems(store.items, None, Some(1));
    assert listed.Success? && |listed.value| == 1;
  }
}
