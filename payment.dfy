/** The payment page: the card-number, expiry and CVV input formatters, the
    order summary's quantity labels, and handlePayment, which purchases the
    cart's lines one after another and clears the cart only when every
    purchase went through. */
module Payment {
  import opened Wrappers
  import opened Text
  import opened SweetModel
  import opened Cart
  import opened SweetService
  import opened PurchaseLedger
  import SweetCatalog
  import SweetController
  import SweetCard

  function Min(a: int, b: int): int { if a <= b then a else b }

  // ------------------------------------------------------------------
  // Input formatters

  /** `digits.match(/.{1,4}/g)?.join(' ') || digits`: runs of four digits
      joined by single spaces, the last run possibly shorter. */
  function Grouped(d: string): (r: string)
    requires AllDigits(d)
    ensures |r| == if d == [] then 0 else |d| + (|d| - 1) / 4
  {
    if |d| <= 4 then d else d[..4] + " " + Grouped(d[4..])
  }

  /** Every fifth character of the grouping, and only those, is a space;
      all others are digits, so the last one is never a space. */
  lemma {:induction false} GroupedSpacing(d: string)
    requires AllDigits(d)
    ensures var r := Grouped(d);
      && (forall i :: 0 <= i < |r| ==> IsDigit(r[i]) || r[i] == ' ')
      && (forall i :: 0 <= i < |r| ==> (r[i] == ' ' <==> i % 5 == 4))
      && (r == [] || r[|r| - 1] != ' ')
  {
    var r := Grouped(d);
    if |d| > 4 {
      var rest := Grouped(d[4..]);
      GroupedSpacing(d[4..]);
      assert r == d[..4] + " " + rest;
      forall i | 5 <= i < |r|
        ensures r[i] == rest[i - 5] && (i % 5 == 4 <==> (i - 5) % 5 == 4)
      {
      }
      forall i | 0 <= i < 5
        ensures r[i] == ' ' <==> i % 5 == 4
      {
        if i < 4 {
          assert r[i] == d[i];
        }
      }
    }
  }

  lemma {:induction false} GroupedWithoutSpaces(d: string)
    requires AllDigits(d)
    ensures RemoveSpaces(Grouped(d)) == d
  {
    if |d| <= 4 {
      KeepDigitsOfDigitsHasNoSpace(d);
    } else {
      GroupedWithoutSpaces(d[4..]);
      RemoveSpacesAppend(d[..4] + " ", Grouped(d[4..]));
      RemoveSpacesAppend(d[..4], " ");
      KeepDigitsOfDigitsHasNoSpace(d[..4]);
      assert RemoveSpaces(" ") == "" by {
        assert " "[1..] == "";
      }
      assert d == d[..4] + d[4..];
    }
  }

  /** A string of digits has no space to remove. */
  lemma {:induction false} KeepDigitsOfDigitsHasNoSpace(d: string)
    requires AllDigits(d)
    ensures RemoveSpaces(d) == d
  {
    if d != [] {
      KeepDigitsOfDigitsHasNoSpace(d[1..]);
      assert d == [d[0]] + d[1..];
    }
  }

  /** The card-number field: spaces and non-digits are dropped, then the
      digits are regrouped. Removing the spaces of the result gives back
      the digits of the input; a field of 19 characters (its maxLength)
      holds up to 16 digits. */
  function FormatCardNumber(v: string): (r: string)
    ensures forall i :: 0 <= i < |r| ==> IsDigit(r[i]) || r[i] == ' '
    ensures forall i :: 0 <= i < |r| ==> (r[i] == ' ' <==> i % 5 == 4)
    ensures r == [] || r[|r| - 1] != ' '
    ensures RemoveSpaces(r) == KeepDigits(v)
    ensures |r| <= 19 <==> |KeepDigits(v)| <= 16
  {
    var d := KeepDigits(RemoveSpaces(v));
    KeepDigitsIgnoresSpaces(v);
    GroupedWithoutSpaces(d);
    GroupedSpacing(d);
    Grouped(d)
  }

  lemma FormatCardNumberIdempotent(v: string)
    ensures FormatCardNumber(FormatCardNumber(v)) == FormatCardNumber(v)
  {
    var r := FormatCardNumber(v);
    var d := KeepDigits(v);
    KeepDigitsIgnoresSpaces(v);
    assert RemoveSpaces(r) == d;
    KeepDigitsOfDigits(d);
    assert KeepDigits(RemoveSpaces(r)) == d;
  }

  /** The expiry field: digits only, with a slash after the month once two
      digits are there and at most two digits of year. */
  function FormatExpiry(v: string): (r: string)
    ensures |r| <= 5
    ensures |KeepDigits(v)| < 2 ==> r == KeepDigits(v)
    ensures |KeepDigits(v)| >= 2 ==> |r| >= 3 && r[2] == '/'
    ensures forall i :: 0 <= i < |r| && i != 2 ==> IsDigit(r[i])
    ensures KeepDigits(r) == KeepDigits(v)[..Min(4, |KeepDigits(v)|)]
  {
    var d := KeepDigits(v);
    if |d| >= 2 then
      var r := d[..2] + "/" + d[2..Min(4, |d|)];
      ExpiryDigits(d);
      r
    else
      KeepDigitsOfDigits(d);
      d
  }

  lemma ExpiryDigits(d: string)
    requires AllDigits(d) && |d| >= 2
    ensures KeepDigits(d[..2] + "/" + d[2..Min(4, |d|)]) == d[..Min(4, |d|)]
  {
    var k := Min(4, |d|);
    KeepDigitsAppend(d[..2] + "/", d[2..k]);
    KeepDigitsAppend(d[..2], "/");
    assert KeepDigits("/") == "" by {
      assert "/"[1..] == "";
    }
    KeepDigitsOfDigits(d[..2]);
    KeepDigitsOfDigits(d[2..k]);
    assert d[..k] == d[..2] + d[2..k];
  }

  lemma FormatExpiryIdempotent(v: string)
    ensures FormatExpiry(FormatExpiry(v)) == FormatExpiry(v)
  {
    var d := KeepDigits(v);
    var r := FormatExpiry(v);
    if |d| >= 2 {
      var k := Min(4, |d|);
      assert KeepDigits(r) == d[..k];
      assert d[..k][..2] == d[..2];
      assert d[..k][2..Min(4, k)] == d[2..k];
    }
  }

  /** Once the month is typed the slash comes back: deleting it from "12/"
      leaves "12", which is formatted to "12/" again. */
  lemma SlashReappears()
    ensures FormatExpiry("12") == "12/"
  {
    assert KeepDigits("12") == "12" by {
      assert "12"[1..][1..] == "";
    }
  }

  /** The CVV field: the first three digits. */
  function FormatCvv(v: string): (r: string)
    ensures AllDigits(r) && |r| <= 3
    ensures r <= KeepDigits(v)
    ensures |KeepDigits(v)| >= 3 ==> |r| == 3
    ensures |KeepDigits(v)| < 3 ==> r == KeepDigits(v)
  {
    var d := KeepDigits(v);
    d[..Min(3, |d|)]
  }

  lemma FormatCvvIdempotent(v: string)
    ensures FormatCvv(FormatCvv(v)) == FormatCvv(v)
  {
    KeepDigitsOfDigits(FormatCvv(v));
  }

  /** The order summary: one quantity label per cart line, in cart order,
      read the same way as on the sweet card. */
  function SummaryLabels(items: seq<CartItem>): (labels: seq<string>)
    ensures |labels| == |items|
    ensures forall i :: 0 <= i < |items| ==>
      labels[i] == (if items[i].quantity == 1.0 then "1 kg" else if items[i].quantity == 0.5 then "500 g" else "250 g")
  {
    if items == [] then [] else [SweetCard.QuantityLabel(items[0].quantity)] + SummaryLabels(items[1..])
  }

  // ------------------------------------------------------------------
  // Checkout

  /** axios resolves only 2xx answers; any other status is thrown. */
  predicate Succeeded(res: SweetController.Response) {
    200 <= res.status < 300
  }

  /** `err.response?.data?.error || 'Please try again.'`. */
  function ServerErrorText(res: SweetController.Response): (text: string)
    ensures text != ""
    ensures res.body.ErrorBody? && res.body.error != "" ==> text == res.body.error
  {
    if res.body.ErrorBody? && res.body.error != "" then res.body.error else "Please try again."
  }

  function FailureMessage(item: CartItem, res: SweetController.Response): string {
    "Failed to purchase " + item.sweet.name + ". " + ServerErrorText(res)
  }

  /** The alert after a checkout: success with the cart's total, or the
      failing line's message. */
  datatype PaymentOutcome = Paid(total: real) | Failed(message: string)

  /** The purchases of a checkout, in cart order, on the catalog: the
      catalog after them, and the first line refused with its answer. */
  function Checkout(t: SweetCatalog.Table, items: seq<CartItem>): (r: SweetCatalog.Step<Option<(CartItem, SweetController.Response)>>)
    ensures r.out.Some? ==> r.out.value.0 in items && !Succeeded(r.out.value.1)
    decreases |items|
  {
    if items == [] then SweetCatalog.Step(t, None)
    else
      var st := SweetController.PurchaseRequest(t, items[0].sweet.id, Some(items[0].quantity));
      if !Succeeded(st.out) then SweetCatalog.Step(st.table, Some((items[0], st.out)))
      else
        var rest := Checkout(st.table, items[1..]);
        assert rest.out.Some? ==> rest.out.value.0 in items[1..];
        rest
  }

  /** Checkout runs the cart's lines in order: a failure in the first part
      ends it there, and otherwise the second part runs on the catalog the
      first part left. Purchases already made are not undone. */
  lemma {:induction false} CheckoutAppend(t: SweetCatalog.Table, a: seq<CartItem>, b: seq<CartItem>)
    ensures Checkout(t, a).out.Some? ==> Checkout(t, a + b) == Checkout(t, a)
    ensures Checkout(t, a).out.None? ==> Checkout(t, a + b) == Checkout(Checkout(t, a).table, b)
    decreases |a|
  {
    if a == [] {
      assert a + b == b;
    } else {
      assert (a + b)[0] == a[0];
      assert (a + b)[1..] == a[1..] + b;
      var st := SweetController.PurchaseRequest(t, a[0].sweet.id, Some(a[0].quantity));
      if Succeeded(st.out) {
        CheckoutAppend(st.table, a[1..], b);
      }
    }
  }

  /** A checkout whose first line is refused changes nothing. */
  lemma CheckoutRefusedFirst(t: SweetCatalog.Table, items: seq<CartItem>)
    requires items != []
    requires !Succeeded(SweetController.PurchaseRequest(t, items[0].sweet.id, Some(items[0].quantity)).out)
    ensures Checkout(t, items) ==
      SweetCatalog.Step(t, Some((items[0], SweetController.PurchaseRequest(t, items[0].sweet.id, Some(items[0].quantity)).out)))
  {
  }

  /** A refused line leaves the catalog as the lines before it left it. */
  lemma CheckoutStopsAtRefusal(t: SweetCatalog.Table, items: seq<CartItem>, k: nat)
    requires k < |items|
    requires Checkout(t, items[..k]).out.None?
    requires !Succeeded(SweetController.PurchaseRequest(Checkout(t, items[..k]).table,
      items[k].sweet.id, Some(items[k].quantity)).out)
    ensures Checkout(t, items).table == Checkout(t, items[..k]).table
    ensures Checkout(t, items).out.Some? && Checkout(t, items).out.value.0 == items[k]
  {
    var t' := Checkout(t, items[..k]).table;
    CheckoutAppend(t, items[..k], items[k..]);
    assert items[..k] + items[k..] == items;
    assert items[k..][0] == items[k];
    CheckoutRefusedFirst(t', items[k..]);
  }

  /** No stock goes negative through a checkout. */
  lemma {:induction false} CheckoutKeepsStockNonNegative(t: SweetCatalog.Table, items: seq<CartItem>)
    requires SweetCatalog.StockNonNegative(t.rows)
    ensures SweetCatalog.StockNonNegative(Checkout(t, items).table.rows)
    decreases |items|
  {
    if items != [] {
      SweetController.PurchaseRequestKeepsStockNonNegative(t, items[0].sweet.id, Some(items[0].quantity));
      var st := SweetController.PurchaseRequest(t, items[0].sweet.id, Some(items[0].quantity));
      if Succeeded(st.out) {
        CheckoutKeepsStockNonNegative(st.table, items[1..]);
      }
    }
  }

  /** handlePayment. `faults[i]` is what the ledger does when the i-th line
      is recorded. The cart ends empty exactly when every line was bought;
      the success alert carries the total of the cart as it was. */
  method HandlePayment(svc: SweetService, ledger: PurchaseService, userId: int,
                       items: seq<CartItem>, faults: seq<StoreFault>)
    returns (outcome: PaymentOutcome, cartAfter: seq<CartItem>)
    requires svc.Valid() && ledger.Valid() && |faults| == |items|
    modifies svc, ledger
    ensures svc.Valid() && ledger.Valid()
    ensures var c := Checkout(old(svc.Model()), items);
      && svc.Model() == c.table
      && (c.out.None? ==> outcome == Paid(TotalPrice(items)) && cartAfter == [])
      && (c.out.Some? ==> outcome == Failed(FailureMessage(c.out.value.0, c.out.value.1)) && cartAfter == items)
    ensures old(ledger.records) <= ledger.records
  {
    var i := 0;
    while i < |items|
      invariant 0 <= i <= |items|
      invariant svc.Valid() && ledger.Valid()
      invariant Checkout(svc.Model(), items[i..]) == Checkout(old(svc.Model()), items)
      invariant old(ledger.records) <= ledger.records
    {
      var item := items[i];
      ghost var t := svc.Model();
      ghost var before := ledger.records;
      var res := SweetController.PurchaseSweet(svc, ledger, userId, item.sweet.id, Some(item.quantity), faults[i]);
      assert before <= ledger.records;
      assert items[i..][0] == item && items[i..][1..] == items[i + 1..];
      if !Succeeded(res) {
        outcome, cartAfter := Failed(FailureMessage(item, res)), items;
        return;
      }
      i := i + 1;
    }
    outcome, cartAfter := Paid(TotalPrice(items)), ClearCart();
  }
}
