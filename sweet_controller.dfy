/** The HTTP handlers for sweets: the field validators, the purchase tier
    rule and price arithmetic, the best-effort ledger write, the restock
    guard and the mapping of outcomes to status codes. Request values
    arrive already parsed: a number the server could not parse (NaN) is
    `None`, like a missing one, since both are falsy. */
module SweetController {
  import opened Wrappers
  import opened Text
  import opened SweetModel
  import SweetCatalog
  import opened SweetService
  import opened PurchaseLedger

  /** The failures the field validators report; each carries its
      validator's message text (`Message`). */
  datatype FieldError =
    | NameRequired | CategoryRequired | NameCannotBeEmpty | CategoryCannotBeEmpty
    | PricePerKiloInvalid | PriceInvalid | QuantityInvalid

  function Message(e: FieldError): string {
    match e
    case NameRequired => "Name is required"
    case CategoryRequired => "Category is required"
    case NameCannotBeEmpty => "Name cannot be empty"
    case CategoryCannotBeEmpty => "Category cannot be empty"
    case PricePerKiloInvalid => "Price per kilo must be a non-negative number"
    case PriceInvalid => "Price must be a non-negative number"
    case QuantityInvalid => "Quantity must be a non-negative number"
  }

  const TierRequired := "Quantity must be 0.25kg (250g), 0.5kg (500g), or 1kg"
  const RestockQuantityRequired := "Valid quantity (in kg) is required"
  const SweetNotFound := "Sweet not found"

  /** The JSON body of a create request. */
  datatype CreateBody = CreateBody(
    name: Option<string>,
    category: Option<string>,
    pricePerKilo: Option<real>,
    price: Option<real>,
    quantity: Option<real>)

  datatype Body =
    | SweetBody(sweet: Sweet)
    | SweetListBody(sweets: seq<Sweet>)
    | PurchaseBody(sweet: Sweet, purchaseQuantity: real, purchasePrice: real)
    | ErrorBody(error: string)
    | ValidationBody(errors: seq<FieldError>)
    | NoContent

  datatype Response = Response(status: nat, body: Body)

  // ------------------------------------------------------------------
  // Validators

  /** express-validator's `notEmpty()`: a missing field counts as empty. */
  predicate NotEmpty(x: Option<string>) {
    x.Some? && x.value != ""
  }

  /** `isFloat({ min: 0 })` on a required field. */
  predicate NonNegative(x: Option<real>) {
    x.Some? && x.value >= 0.0
  }

  /** `optional().isFloat({ min: 0 })`: only a present value is checked. */
  predicate AbsentOrNonNegative(x: Option<real>) {
    x.None? || x.value >= 0.0
  }

  /** `optional().notEmpty()`. */
  predicate AbsentOrNotEmpty(x: Option<string>) {
    x.None? || x.value != ""
  }

  predicate CreateBodyValid(b: CreateBody) {
    && NotEmpty(b.name) && NotEmpty(b.category) && NonNegative(b.pricePerKilo)
    && AbsentOrNonNegative(b.price) && AbsentOrNonNegative(b.quantity)
  }

  /** createSweetValidators: every failing field contributes its message,
      in declaration order. */
  function CreateSweetErrors(b: CreateBody): (errors: seq<FieldError>)
    ensures errors == [] <==> CreateBodyValid(b)
    ensures NameRequired in errors <==> !NotEmpty(b.name)
    ensures CategoryRequired in errors <==> !NotEmpty(b.category)
    ensures PricePerKiloInvalid in errors <==> !NonNegative(b.pricePerKilo)
    ensures PriceInvalid in errors <==> !AbsentOrNonNegative(b.price)
    ensures QuantityInvalid in errors <==> !AbsentOrNonNegative(b.quantity)
    ensures !NotEmpty(b.name) ==> errors[0] == NameRequired
  {
    Check(NotEmpty(b.name), NameRequired)
    + Check(NotEmpty(b.category), CategoryRequired)
    + Check(NonNegative(b.pricePerKilo), PricePerKiloInvalid)
    + Check(AbsentOrNonNegative(b.price), PriceInvalid)
    + Check(AbsentOrNonNegative(b.quantity), QuantityInvalid)
  }

  predicate UpdateBodyValid(u: SweetUpdate) {
    && AbsentOrNotEmpty(u.name) && AbsentOrNotEmpty(u.category)
    && AbsentOrNonNegative(u.pricePerKilo) && AbsentOrNonNegative(u.price) && AbsentOrNonNegative(u.quantity)
  }

  /** updateSweetValidators: the same bounds, every field optional. */
  function UpdateSweetErrors(u: SweetUpdate): (errors: seq<FieldError>)
    ensures errors == [] <==> UpdateBodyValid(u)
    ensures NameCannotBeEmpty in errors <==> u.name == Some("")
    ensures CategoryCannotBeEmpty in errors <==> u.category == Some("")
    ensures PricePerKiloInvalid in errors <==> !AbsentOrNonNegative(u.pricePerKilo)
    ensures PriceInvalid in errors <==> !AbsentOrNonNegative(u.price)
    ensures QuantityInvalid in errors <==> !AbsentOrNonNegative(u.quantity)
  {
    Check(AbsentOrNotEmpty(u.name), NameCannotBeEmpty)
    + Check(AbsentOrNotEmpty(u.category), CategoryCannotBeEmpty)
    + Check(AbsentOrNonNegative(u.pricePerKilo), PricePerKiloInvalid)
    + Check(AbsentOrNonNegative(u.price), PriceInvalid)
    + Check(AbsentOrNonNegative(u.quantity), QuantityInvalid)
  }

  /** The service payload of a body that cleared the validators. */
  function ToSweetCreate(b: CreateBody): SweetCreate
    requires NotEmpty(b.name) && NotEmpty(b.category)
  {
    SweetCreate(b.name.value, b.category.value, b.pricePerKilo, b.price, b.quantity)
  }

  /** A create that clears the validators and the service stores no
      negative price or stock. */
  lemma ValidatedCreateIsNonNegative(t: SweetCatalog.Table, b: CreateBody)
    requires CreateSweetErrors(b) == []
    requires SweetCatalog.Create(t, ToSweetCreate(b)).out.Success?
    ensures var s := SweetCatalog.Create(t, ToSweetCreate(b)).out.value;
      s.pricePerKilo >= 0.0 && s.price >= 0.0 && s.quantity >= 0.0
  {
    SweetCatalog.ValidatedCreateNonNegative(t, ToSweetCreate(b));
  }

  /** The validators admit a per-kilo price of 0 without a legacy price,
      and the service then refuses it as invalid data. */
  lemma ZeroPricePerKiloPassesValidatorsOnly(t: SweetCatalog.Table)
    ensures var b := CreateBody(Some("Ladoo"), Some("Traditional"), Some(0.0), None, None);
      && CreateSweetErrors(b) == []
      && SweetCatalog.Create(t, ToSweetCreate(b)).out == Failure(InvalidSweetData)
  {
    var b := CreateBody(Some("Ladoo"), Some("Traditional"), Some(0.0), None, None);
    assert CreateBodyValid(b);
  }

  /** An update that clears the validators cannot make any stock negative. */
  lemma ValidatedUpdateKeepsStockNonNegative(t: SweetCatalog.Table, id: int, u: SweetUpdate)
    requires UpdateSweetErrors(u) == [] && SweetCatalog.StockNonNegative(t.rows)
    ensures SweetCatalog.StockNonNegative(SweetCatalog.Update(t, id, u).table.rows)
  {
    var r := SweetCatalog.Update(t, id, u);
    if SweetCatalog.Lookup(t.rows, id).Some? {
      var s := SweetCatalog.Lookup(t.rows, id).value;
      assert s.quantity >= 0.0 by {
        SweetCatalog.LookupFound(t.rows, id);
        var k :| 0 <= k < |t.rows| && t.rows[k] == s;
      }
      var s' := SweetCatalog.Patch(s, u, t.clock);
      assert s'.quantity >= 0.0;
    }
  }

  // ------------------------------------------------------------------
  // Purchase and restock rules

  const PurchaseTiers: seq<real> := [0.25, 0.5, 1.0]

  /** `parseFloat(req.body.quantity) || 0.25`. */
  function PurchaseQuantity(raw: Option<real>): (q: real)
    ensures Truthy(raw) ==> q == raw.value
    ensures !Truthy(raw) ==> q == 0.25
  {
    OrElse(raw, 0.25)
  }

  /** The guard of the purchase handler. */
  predicate TierRejected(q: real) {
    q <= 0.0 || q !in PurchaseTiers
  }

  lemma TierRejectedUnlessTier(q: real)
    ensures !TierRejected(q) <==> q == 0.25 || q == 0.5 || q == 1.0
  {
  }

  /** The status of a service error: every error a mutation throws is a 400. */
  function FailureResponse(e: ServiceError): Response {
    Response(400, ErrorBody(ErrorMessage(e)))
  }

  /** What a purchase request does to the catalog and what it answers,
      leaving the ledger aside. */
  function PurchaseRequest(t: SweetCatalog.Table, id: int, raw: Option<real>): (r: SweetCatalog.Step<Response>)
    ensures r.out.status != 200 ==> r.table == t
  {
    var q := PurchaseQuantity(raw);
    if TierRejected(q) then SweetCatalog.Step(t, Response(400, ErrorBody(TierRequired)))
    else PurchaseAnswer(SweetCatalog.Purchase(t, id, q), q)
  }

  /** The handler's answer to what purchaseSweet returned for `q`. */
  function PurchaseAnswer(st: SweetCatalog.Step<Result<Option<Sweet>, ServiceError>>, q: real): SweetCatalog.Step<Response> {
    match st.out
    case Failure(e) => SweetCatalog.Step(st.table, FailureResponse(e))
    case Success(None) => SweetCatalog.Step(st.table, Response(404, ErrorBody(SweetNotFound)))
    case Success(Some(s)) => SweetCatalog.Step(st.table, Response(200, PurchaseBody(s, q, UnitPrice(s) * q)))
  }

  /** The answers of a purchase request: 400 for a quantity off the tiers,
      404 for an unknown id, 400 when the stock is short, and otherwise 200
      with the decremented row, the quantity and the price of that quantity
      at the row's price per kilo. */
  lemma PurchaseRequestOutcome(t: SweetCatalog.Table, id: int, raw: Option<real>)
    ensures var r := PurchaseRequest(t, id, raw);
      && (TierRejected(PurchaseQuantity(raw)) ==> r == SweetCatalog.Step(t, Response(400, ErrorBody(TierRequired))))
      && (r.out.status == 404 <==> !TierRejected(PurchaseQuantity(raw)) && SweetCatalog.Lookup(t.rows, id).None?)
      && (r.out.status == 400 && !TierRejected(PurchaseQuantity(raw)) ==>
            SweetCatalog.Lookup(t.rows, id).Some?
            && SweetCatalog.Lookup(t.rows, id).value.quantity < PurchaseQuantity(raw))
      && (r.out.status == 200 <==>
            !TierRejected(PurchaseQuantity(raw)) && SweetCatalog.Lookup(t.rows, id).Some?
            && PurchaseQuantity(raw) <= SweetCatalog.Lookup(t.rows, id).value.quantity)
      && (r.out.status in {200, 400, 404})
  {
    var q := PurchaseQuantity(raw);
    if !TierRejected(q) {
      match SweetCatalog.Lookup(t.rows, id)
      case None =>
        assert SweetCatalog.Purchase(t, id, q).out == Success(None);
      case Some(s) =>
        if s.quantity < q {
          assert SweetCatalog.Purchase(t, id, q).out == Failure(InsufficientStock);
        } else {
          var s' := s.(quantity := s.quantity - q, updatedAt := t.clock);
          assert SweetCatalog.Purchase(t, id, q).out == Success(Some(s'));
        }
    }
  }

  /** The purchase request answers what the service's purchase returned,
      and a row it returns is the stored row with its stock decremented, at
      the same price per kilo. */
  lemma PurchaseRequestAnswers(t: SweetCatalog.Table, id: int, raw: Option<real>)
    requires !TierRejected(PurchaseQuantity(raw))
    ensures var q := PurchaseQuantity(raw);
      var st := SweetCatalog.Purchase(t, id, q);
      && PurchaseRequest(t, id, raw) == PurchaseAnswer(st, q)
      && (st.out.Success? && st.out.value.Some? ==>
            && SweetCatalog.Lookup(t.rows, id).Some?
            && st.out.value.value.quantity == SweetCatalog.Lookup(t.rows, id).value.quantity - q
            && UnitPrice(st.out.value.value) == UnitPrice(SweetCatalog.Lookup(t.rows, id).value))
  {
    var q := PurchaseQuantity(raw);
    match SweetCatalog.Lookup(t.rows, id)
    case None =>
    case Some(s) =>
      if q <= s.quantity {
        var s' := s.(quantity := s.quantity - q, updatedAt := t.clock);
        assert SweetCatalog.Purchase(t, id, q).out == Success(Some(s'));
      }
  }

  /** A purchase that goes through answers with the decremented row, the
      quantity bought and its price at the row's price per kilo; the catalog
      is the one the service's purchase leaves. */
  lemma PurchaseRequestSucceeds(t: SweetCatalog.Table, id: int, raw: Option<real>)
    requires !TierRejected(PurchaseQuantity(raw))
    requires SweetCatalog.Lookup(t.rows, id).Some?
    requires PurchaseQuantity(raw) <= SweetCatalog.Lookup(t.rows, id).value.quantity
    ensures var q := PurchaseQuantity(raw);
      var s := SweetCatalog.Lookup(t.rows, id).value;
      var r := PurchaseRequest(t, id, raw);
      && r.out == Response(200, PurchaseBody(s.(quantity := s.quantity - q, updatedAt := t.clock), q, UnitPrice(s) * q))
      && r.table == SweetCatalog.Purchase(t, id, q).table
  {
    var q := PurchaseQuantity(raw);
    var s := SweetCatalog.Lookup(t.rows, id).value;
    var s' := s.(quantity := s.quantity - q, updatedAt := t.clock);
    var st := SweetCatalog.Purchase(t, id, q);
    assert st.out == Success(Some(s'));
    assert PurchaseRequest(t, id, raw) == PurchaseAnswer(st, q);
    assert UnitPrice(s') == UnitPrice(s);
  }

  /** A purchase request never drives a stock below zero. */
  lemma PurchaseRequestKeepsStockNonNegative(t: SweetCatalog.Table, id: int, raw: Option<real>)
    requires SweetCatalog.StockNonNegative(t.rows)
    ensures SweetCatalog.StockNonNegative(PurchaseRequest(t, id, raw).table.rows)
  {
    var q := PurchaseQuantity(raw);
    if !TierRejected(q) {
      SweetCatalog.PurchaseKeepsStockNonNegative(t, id, q);
    }
  }

  /** What a restock request does to the catalog and what it answers. */
  function RestockRequest(t: SweetCatalog.Table, id: int, raw: Option<real>): (r: SweetCatalog.Step<Response>)
    ensures !Truthy(raw) || raw.value <= 0.0 ==>
      r == SweetCatalog.Step(t, Response(400, ErrorBody(RestockQuantityRequired)))
    ensures r.out.status != 200 ==> r.table == t
    ensures r.out.status == 404 <==> Truthy(raw) && raw.value > 0.0 && SweetCatalog.Lookup(t.rows, id).None?
    ensures r.out.status == 200 ==>
      var s := SweetCatalog.Lookup(t.rows, id).value;
      && raw.Some? && raw.value > 0.0
      && SweetCatalog.Lookup(t.rows, id).Some?
      && r.out.body == SweetBody(s.(quantity := s.quantity + raw.value, updatedAt := t.clock))
    ensures Truthy(raw) && raw.value > 0.0 && SweetCatalog.Lookup(t.rows, id).Some? ==>
      var s := SweetCatalog.Lookup(t.rows, id).value;
      && r.out.status == 200
      && r.table == SweetCatalog.StockWritten(t, s, s.quantity + raw.value)
  {
    if !Truthy(raw) || raw.value <= 0.0 then SweetCatalog.Step(t, Response(400, ErrorBody(RestockQuantityRequired)))
    else
      var st := SweetCatalog.Restock(t, id, raw.value);
      match st.out
      case Failure(e) => SweetCatalog.Step(st.table, FailureResponse(e))
      case Success(None) => SweetCatalog.Step(st.table, Response(404, ErrorBody(SweetNotFound)))
      case Success(Some(s)) => SweetCatalog.Step(st.table, Response(200, SweetBody(s)))
  }

  /** A successful restock of a positive amount keeps every stock non-negative. */
  lemma RestockRequestKeepsStockNonNegative(t: SweetCatalog.Table, id: int, raw: Option<real>)
    requires SweetCatalog.StockNonNegative(t.rows)
    ensures SweetCatalog.StockNonNegative(RestockRequest(t, id, raw).table.rows)
  {
    if Truthy(raw) && raw.value > 0.0 {
      SweetCatalog.RestockKeepsStockNonNegative(t, id, raw.value);
    }
  }

  // ------------------------------------------------------------------
  // Handlers. The service singletons are parameters; the authenticated
  // user's id and the ledger's fault are given by the caller.

  method CreateSweet(svc: SweetService, b: CreateBody) returns (res: Response)
    requires svc.Valid()
    modifies svc
    ensures svc.Valid()
    ensures CreateSweetErrors(b) != [] ==>
      res == Response(400, ValidationBody(CreateSweetErrors(b))) && svc.Model() == old(svc.Model())
    ensures CreateSweetErrors(b) == [] ==>
      var st := SweetCatalog.Create(old(svc.Model()), ToSweetCreate(b));
      && svc.Model() == st.table
      && (st.out.Success? ==> res == Response(201, SweetBody(st.out.value)))
      && (st.out.Failure? ==> res == FailureResponse(st.out.error))
  {
    var errors := CreateSweetErrors(b);
    if errors != [] {
      return Response(400, ValidationBody(errors));
    }
    var sweet := svc.CreateSweet(ToSweetCreate(b));
    if sweet.Failure? {
      return FailureResponse(sweet.error);
    }
    res := Response(201, SweetBody(sweet.value));
  }

  method GetAllSweets(svc: SweetService) returns (res: Response)
    requires svc.Valid()
    ensures res.status == 200 && res.body.SweetListBody?
    ensures res.body.sweets == SweetCatalog.AllSweets(svc.rows)
  {
    var sweets := svc.GetAllSweets();
    res := Response(200, SweetListBody(sweets));
  }

  /** The query string, with minPrice / maxPrice parsed when present. */
  method SearchSweets(svc: SweetService, name: Option<string>, category: Option<string>,
                      minPrice: Option<real>, maxPrice: Option<real>) returns (res: Response)
    requires svc.Valid()
    ensures res.status == 200 && res.body.SweetListBody?
    ensures res.body.sweets == SweetCatalog.Search(svc.rows, SearchFilters(name, category, minPrice, maxPrice))
  {
    var filters := SearchFilters(name, category, minPrice, maxPrice);
    var sweets := svc.SearchSweets(filters);
    res := Response(200, SweetListBody(sweets));
  }

  method UpdateSweet(svc: SweetService, id: int, u: SweetUpdate) returns (res: Response)
    requires svc.Valid()
    modifies svc
    ensures svc.Valid()
    ensures UpdateSweetErrors(u) != [] ==>
      res == Response(400, ValidationBody(UpdateSweetErrors(u))) && svc.Model() == old(svc.Model())
    ensures UpdateSweetErrors(u) == [] ==>
      var st := SweetCatalog.Update(old(svc.Model()), id, u);
      && svc.Model() == st.table
      && (st.out == Success(None) ==> res == Response(404, ErrorBody(SweetNotFound)))
      && (st.out.Success? && st.out.value.Some? ==> res == Response(200, SweetBody(st.out.value.value)))
      && (st.out.Failure? ==> res == FailureResponse(st.out.error))
  {
    var errors := UpdateSweetErrors(u);
    if errors != [] {
      return Response(400, ValidationBody(errors));
    }
    var sweet := svc.UpdateSweet(id, u);
    if sweet.Failure? {
      return FailureResponse(sweet.error);
    }
    if sweet.value.None? {
      return Response(404, ErrorBody(SweetNotFound));
    }
    res := Response(200, SweetBody(sweet.value.value));
  }

  method DeleteSweet(svc: SweetService, id: int) returns (res: Response)
    requires svc.Valid()
    modifies svc
    ensures svc.Valid()
    ensures svc.Model() == SweetCatalog.Delete(old(svc.Model()), id).table
    ensures res.status == 204 <==> SweetCatalog.Lookup(old(svc.rows), id).Some?
    ensures res.status != 204 ==> res == Response(404, ErrorBody(SweetNotFound))
  {
    var deleted := svc.DeleteSweet(id);
    if !deleted {
      return Response(404, ErrorBody(SweetNotFound));
    }
    res := Response(204, NoContent);
  }

  /** A purchase by the authenticated user `userId`. The ledger write is
      best-effort: whatever `fault` says, the answer and the catalog are
      those of PurchaseRequest. */
  method PurchaseSweet(svc: SweetService, ledger: PurchaseService, userId: int, id: int,
                       rawQuantity: Option<real>, fault: StoreFault) returns (res: Response)
    requires svc.Valid() && ledger.Valid()
    modifies svc, ledger
    ensures svc.Valid() && ledger.Valid()
    ensures svc.Model() == PurchaseRequest(old(svc.Model()), id, rawQuantity).table
    ensures res == PurchaseRequest(old(svc.Model()), id, rawQuantity).out
    ensures res.status != 200 || fault == InsertFails ==> ledger.records == old(ledger.records)
    ensures res.status == 200 && fault != InsertFails ==>
      var s := SweetCatalog.Lookup(old(svc.rows), id).value;
      ledger.records == old(ledger.records) + [Purchase(old(ledger.nextId), userId, id,
        res.body.purchaseQuantity, UnitPrice(s), res.body.purchasePrice, old(ledger.clock))]
  {
    ghost var t := svc.Model();
    var quantity := PurchaseQuantity(rawQuantity);
    if quantity <= 0.0 || quantity !in PurchaseTiers {
      assert PurchaseRequest(t, id, rawQuantity) == SweetCatalog.Step(t, Response(400, ErrorBody(TierRequired)));
      return Response(400, ErrorBody(TierRequired));
    }
    PurchaseRequestAnswers(t, id, rawQuantity);
    res := SellSweet(svc, id, quantity);
    if res.status == 200 {
      var recorded := ledger.RecordPurchase(userId, id, quantity, UnitPrice(res.body.sweet), res.body.purchasePrice, fault);
    }
  }

  /** The catalog half of a purchase of an accepted tier: the service call
      and the answer its result maps to. */
  method SellSweet(svc: SweetService, id: int, quantity: real) returns (res: Response)
    requires svc.Valid()
    modifies svc
    ensures svc.Valid()
    ensures var st := PurchaseAnswer(SweetCatalog.Purchase(old(svc.Model()), id, quantity), quantity);
      svc.Model() == st.table && res == st.out
  {
    ghost var t := svc.Model();
    var sweet := svc.PurchaseSweet(id, quantity);
    ghost var st := SweetCatalog.Purchase(t, id, quantity);
    assert sweet == st.out && svc.Model() == st.table;
    if sweet.Failure? {
      assert PurchaseAnswer(st, quantity).out == FailureResponse(sweet.error);
      return FailureResponse(sweet.error);
    }
    if sweet.value.None? {
      assert PurchaseAnswer(st, quantity).out == Response(404, ErrorBody(SweetNotFound));
      return Response(404, ErrorBody(SweetNotFound));
    }
    var s := sweet.value.value;
    var pricePerKilo := UnitPrice(s);
    var totalPrice := pricePerKilo * quantity;
    res := Response(200, PurchaseBody(s, quantity, totalPrice));
    assert st.out == Success(Some(s));
    assert PurchaseAnswer(st, quantity).out.status == 200;
    assert PurchaseAnswer(st, quantity).out.body.sweet == s;
    assert PurchaseAnswer(st, quantity).out.body.purchaseQuantity == quantity;
    assert PurchaseAnswer(st, quantity).out.body.purchasePrice == UnitPrice(s) * quantity;
  }

  method RestockSweet(svc: SweetService, id: int, rawQuantity: Option<real>) returns (res: Response)
    requires svc.Valid()
    modifies svc
    ensures svc.Valid()
    ensures svc.Model() == RestockRequest(old(svc.Model()), id, rawQuantity).table
    ensures res == RestockRequest(old(svc.Model()), id, rawQuantity).out
  {
    if !Truthy(rawQuantity) || rawQuantity.value <= 0.0 {
      return Response(400, ErrorBody(RestockQuantityRequired));
    }
    var sweet := svc.RestockSweet(id, rawQuantity.value);
    if sweet.Failure? {
      return FailureResponse(sweet.error);
    }
    if sweet.value.None? {
      return Response(404, ErrorBody(SweetNotFound));
    }
    res := Response(200, SweetBody(sweet.value.value));
  }
}
