/** The item resource: the shared field set `ItemBase` with its declared
    constraints and its two validators, the persisted `Item` that adds an
    `id` and a `created_at`, the request shape `ItemCreate` and the response
    shape `ItemRead`. */
module ItemModel {
  import opened Wrappers

  /** A reading of the UTC clock; the model takes it as an input. */
  type Timestamp = int

  /** `constr(min_length=3)` on `name`. */
  const MinNameLength: nat := 3

  /** The fields every item shape shares. */
  datatype ItemBase = ItemBase(name: string, price: int, stock: int)

  /** The request body of a create: exactly the fields and constraints of `ItemBase`. */
  type ItemCreate = ItemBase

  /** A row of the `items` table. `id` is `None` until the store assigns one. */
  datatype Item = Item(id: Option<int>, name: string, price: int, stock: int, createdAt: Timestamp)

  /** The response shape: `id` and `created_at` are both required. */
  datatype ItemRead = ItemRead(id: int, name: string, price: int, stock: int, createdAt: Timestamp)

  /** One field that failed validation. */
  datatype FieldError = NameTooShort | PriceNotPositive | StockNegative

  /** The constraints declared on the three fields of `ItemBase`. */
  predicate Accepted(b: ItemBase)
  {
    |b.name| >= MinNameLength && b.price > 0 && b.stock >= 0
  }

  /** `e` names a constraint that `b` breaks. */
  predicate Violated(e: FieldError, b: ItemBase)
  {
    match e
    case NameTooShort => |b.name| < MinNameLength
    case PriceNotPositive => b.price <= 0
    case StockNegative => b.stock < 0
  }

  /** The `validate_price` validator: rejects a price that is not positive and
      otherwise hands back the value it was given. */
  function ValidatePrice(v: int): (r: Result<int, FieldError>)
    ensures r.Success? <==> v > 0
    ensures r.Success? ==> r.value == v
    ensures r.Failure? ==> r.error == PriceNotPositive
  {
    if v <= 0 then Failure(PriceNotPositive) else Success(v)
  }

  /** The `validate_stock` validator: rejects a negative stock and otherwise
      hands back the value it was given. */
  function ValidateStock(v: int): (r: Result<int, FieldError>)
    ensures r.Success? <==> v >= 0
    ensures r.Success? ==> r.value == v
    ensures r.Failure? ==> r.error == StockNegative
  {
    if v < 0 then Failure(StockNegative) else Success(v)
  }

  /** The whole check of the `name` field: its length constraint. */
  function CheckName(v: string): Result<string, FieldError>
  {
    if |v| < MinNameLength then Failure(NameTooShort) else Success(v)
  }

  /** The whole check of the `price` field: the declared `gt=0` first, and the
      validator only on a value that passed it. */
  function CheckPrice(v: int): Result<int, FieldError>
  {
    if !(v > 0) then Failure(PriceNotPositive) else ValidatePrice(v)
  }

  /** The whole check of the `stock` field: the declared `ge=0` first, and the
      validator only on a value that passed it. */
  function CheckStock(v: int): Result<int, FieldError>
  {
    if !(v >= 0) then Failure(StockNegative) else ValidateStock(v)
  }

  /** The declared constraints already reject every value the validators
      reject: each field check behaves exactly as its validator alone, and as
      its declared constraint alone. */
  lemma ValidatorsAreRedundant(price: int, stock: int)
    ensures CheckPrice(price) == ValidatePrice(price)
    ensures CheckStock(stock) == ValidateStock(stock)
    ensures CheckPrice(price) == (if price > 0 then Success(price) else Failure(PriceNotPositive))
    ensures CheckStock(stock) == (if stock >= 0 then Success(stock) else Failure(StockNegative))
  {
  }

  /** The error of a failed field check, as a list of zero or one errors. */
  function ErrorsOf<T>(r: Result<T, FieldError>): seq<FieldError>
  {
    if r.Failure? then [r.error] else []
  }

  /** Parsing an untrusted body into an `ItemBase`: every field is checked and
      every failing field is reported; on success the fields come back as given. */
  function Validate(name: string, price: int, stock: int): (r: Result<ItemBase, seq<FieldError>>)
    ensures r.Success? <==> Accepted(ItemBase(name, price, stock))
    ensures r.Success? ==> r.value == ItemBase(name, price, stock)
    ensures r.Failure? ==> |r.error| > 0
    ensures r.Failure? ==> forall e :: e in r.error <==> Violated(e, ItemBase(name, price, stock))
  {
    var n, p, s := CheckName(name), CheckPrice(price), CheckStock(stock);
    if n.Success? && p.Success? && s.Success? then
      Success(ItemBase(n.value, p.value, s.value))
    else
      Failure(ErrorsOf(n) + ErrorsOf(p) + ErrorsOf(s))
  }

  /** The shared fields of a row. */
  function BaseOf(it: Item): ItemBase
  {
    ItemBase(it.name, it.price, it.stock)
  }

  /** The shared fields of a response. */
  function ReadBaseOf(it: ItemRead): ItemBase
  {
    ItemBase(it.name, it.price, it.stock)
  }

  /** `Item.from_orm`: the table model validates the candidate's fields
      against the constraints it inherits from `ItemBase` and refuses them with
      exactly the errors `Validate` reports; otherwise it is a row not yet
      persisted, carrying the candidate's fields, no `id`, and `created_at`
      from the clock reading `now`. */
  function FromCandidate(c: ItemCreate, now: Timestamp): (r: Result<Item, seq<FieldError>>)
    ensures r.Success? <==> Accepted(c)
    ensures r.Success? ==> r.value.id.None? && BaseOf(r.value) == c && r.value.createdAt == now
    ensures r.Failure? ==> r.error == Validate(c.name, c.price, c.stock).error
  {
    var fields := Validate(c.name, c.price, c.stock);
    if fields.Failure? then Failure(fields.error)
    else Success(Item(None, fields.value.name, fields.value.price, fields.value.stock, now))
  }

  /** Checking a row against the response shape `ItemRead`, which requires an
      `id` and inherits every constraint of `ItemBase`: it fails exactly when
      the row has no `id` yet or breaks a constraint; the fields carry over
      unchanged. */
  function ToRead(it: Item): (r: Option<ItemRead>)
    ensures r.Some? <==> it.id.Some? && Accepted(BaseOf(it))
    ensures r.Some? ==> r.value.id == it.id.value && ReadBaseOf(r.value) == BaseOf(it)
    ensures r.Some? ==> r.value.createdAt == it.createdAt
  {
    if it.id.None? || !Accepted(BaseOf(it)) then None
    else Some(ItemRead(it.id.value, it.name, it.price, it.stock, it.createdAt))
  }

  /** Checking a list of rows against `List[ItemRead]`: it succeeds exactly
      when every row passes, and then gives each row's response in order. */
  function ToReadAll(rows: seq<Item>): (r: Option<seq<ItemRead>>)
    ensures r.Some? <==> forall i :: 0 <= i < |rows| ==> ToRead(rows[i]).Some?
    ensures r.Some? ==> |r.value| == |rows| && forall i :: 0 <= i < |rows| ==> ToRead(rows[i]) == Some(r.value[i])
  {
    if rows == [] then Some([])
    else
      var head, tail := ToRead(rows[0]), ToReadAll(rows[1..]);
      assert forall i :: 1 <= i < |rows| ==> rows[i] == rows[1..][i - 1];
      if head.Some? && tail.Some? then Some([head.value] + tail.value) else None
  }
}
