/** The record shapes of the backend: a sweet row, the create / update
    payloads, the search filters, a user row and a purchase row. Optional
    JSON fields are `Option`s; numbers are exact reals. */
module SweetModel {
  import opened Wrappers

  /** One row of the `sweets` table. `createdAt` and `updatedAt` are ticks of
      the catalog's clock, which advances on every insert and update. */
  datatype Sweet = Sweet(
    id: nat,
    name: string,
    category: string,
    price: real,         // legacy column
    pricePerKilo: real,
    quantity: real,      // stock, in kilograms
    createdAt: nat,
    updatedAt: nat)

  datatype SweetCreate = SweetCreate(
    name: string,
    category: string,
    pricePerKilo: Option<real>,
    price: Option<real>,
    quantity: Option<real>)

  datatype SweetUpdate = SweetUpdate(
    name: Option<string>,
    category: Option<string>,
    price: Option<real>,
    pricePerKilo: Option<real>,
    quantity: Option<real>)

  datatype SearchFilters = SearchFilters(
    name: Option<string>,
    category: Option<string>,
    minPrice: Option<real>,
    maxPrice: Option<real>)

  datatype Role = Customer | Admin

  datatype User = User(
    id: nat,
    email: string,
    password: string,
    name: Option<string>,
    phone: Option<string>,
    role: Role)

  /** One row of the `purchases` table. */
  datatype Purchase = Purchase(
    id: nat,
    userId: int,
    sweetId: int,
    quantity: real,
    pricePerKg: real,
    totalPrice: real,
    createdAt: nat)

  /** The errors the services throw. */
  datatype ServiceError =
    | InvalidSweetData
    | DuplicateName(name: string)
    | InsufficientStock
    | PurchaseRecordFailed
    | StorageUnavailable

  function ErrorMessage(e: ServiceError): string {
    match e
    case InvalidSweetData => "Invalid sweet data"
    case DuplicateName(n) =>
      "A sweet with the name \"" + n + "\" already exists. Each sweet must have a unique name."
    case InsufficientStock => "Insufficient quantity in stock"
    case PurchaseRecordFailed => "Failed to create purchase record"
    case StorageUnavailable => "Storage unavailable"
  }

  /** JavaScript truthiness of an optional number (`undefined` and `0` are
      falsy). */
  predicate Truthy(x: Option<real>) {
    x.Some? && x.value != 0.0
  }

  /** JavaScript's `x || fallback` for an optional number. */
  function OrElse(x: Option<real>, fallback: real): real {
    if Truthy(x) then x.value else fallback
  }

  /** `sweet.pricePerKilo || sweet.price`: the price of one kilogram, falling
      back to the legacy column when the per-kilo price is 0. Used by the
      purchase handler, the cart and the sweet card alike. */
  function UnitPrice(s: Sweet): (p: real)
    ensures s.pricePerKilo != 0.0 ==> p == s.pricePerKilo
    ensures s.pricePerKilo == 0.0 ==> p == s.price
  {
    OrElse(Some(s.pricePerKilo), s.price)
  }
}
