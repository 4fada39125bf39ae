/** The storefront's card for one sweet: the three tier prices, the stock
    state, the tier buttons and the add-to-cart action. */
module SweetCard {
  import opened Wrappers
  import opened SweetModel
  import opened Cart
  import SweetCatalog
  import SweetController

  /** The quantity selected when the card first renders: 250 g. */
  const InitialSelection: real := 0.25

  /** The three tiers the card offers, one button each. */
  predicate IsTier(q: real) {
    q == 0.25 || q == 0.5 || q == 1.0
  }

  /** The price of a tier: the price per kilo times the tier. */
  function TierPrice(s: Sweet, tier: real): real {
    UnitPrice(s) * tier
  }

  function Price250g(s: Sweet): real { TierPrice(s, 0.25) }
  function Price500g(s: Sweet): real { TierPrice(s, 0.5) }
  function Price1kg(s: Sweet): real { TierPrice(s, 1.0) }

  /** With a non-negative price per kilo the larger tier never costs less. */
  lemma TierPricesOrdered(s: Sweet)
    requires UnitPrice(s) >= 0.0
    ensures Price250g(s) <= Price500g(s) <= Price1kg(s)
    ensures Price1kg(s) == UnitPrice(s)
  {
    assert UnitPrice(s) * 0.25 <= UnitPrice(s) * 0.5 <= UnitPrice(s) * 1.0;
  }

  /** The out-of-stock badge: shown at zero stock only, although any stock
      below 250 g already disables every tier. */
  predicate IsOutOfStock(s: Sweet): (out: bool)
    ensures out ==> s.quantity < 0.25
    ensures s.quantity == 0.0 ==> out
  {
    s.quantity == 0.0
  }

  /** The guard of handleAddToCart; for a positive amount the stock test
      alone decides it. */
  predicate CanAddToCart(s: Sweet, quantity: real): (ok: bool)
    ensures quantity > 0.0 ==> (ok <==> quantity <= s.quantity)
  {
    !IsOutOfStock(s) && s.quantity >= quantity
  }

  /** The `disabled` attribute of a tier button, and of the purchase button
      for the selected tier; for a positive amount it is set exactly when the
      stock falls short. */
  predicate ButtonDisabled(s: Sweet, quantity: real): (disabled: bool)
    ensures quantity > 0.0 ==> (disabled <==> s.quantity < quantity)
  {
    IsOutOfStock(s) || s.quantity < quantity
  }

  /** A button is disabled exactly when its click would add nothing. */
  lemma DisabledIffCannotAdd(s: Sweet, quantity: real)
    ensures ButtonDisabled(s, quantity) <==> !CanAddToCart(s, quantity)
  {
  }

  /** getQuantityLabel: every quantity other than 1 kg and 500 g reads
      "250 g". */
  function QuantityLabel(q: real): (text: string)
    ensures text == "1 kg" <==> q == 1.0
    ensures text == "500 g" <==> q == 0.5
    ensures text == "250 g" <==> q != 1.0 && q != 0.5
  {
    if q == 1.0 then "1 kg" else if q == 0.5 then "500 g" else "250 g"
  }

  /** getPriceForQuantity: the tier price of a tier, and the 250 g price for
      any other quantity, in step with the label. */
  function PriceForQuantity(s: Sweet, q: real): (p: real)
    ensures IsTier(q) ==> p == UnitPrice(s) * q
    ensures !IsTier(q) ==> p == Price250g(s)
    ensures QuantityLabel(q) == "250 g" ==> p == Price250g(s)
  {
    if q == 1.0 then Price1kg(s) else if q == 0.5 then Price500g(s) else Price250g(s)
  }

  /** handleAddToCart: the new cart and the alert text, when the guard lets
      the click through; otherwise the cart unchanged and no alert. */
  function HandleAddToCart(cart: seq<CartItem>, s: Sweet, quantity: real): (r: (seq<CartItem>, Option<string>))
    ensures r.1.Some? <==> CanAddToCart(s, quantity)
    ensures !CanAddToCart(s, quantity) ==> r.0 == cart
    ensures CanAddToCart(s, quantity) ==>
      r.0 == AddToCart(cart, s, quantity)
      && r.1.value == "Added " + QuantityLabel(quantity) + " of " + s.name + " to cart!"
  {
    if CanAddToCart(s, quantity)
    then (AddToCart(cart, s, quantity), Some("Added " + QuantityLabel(quantity) + " of " + s.name + " to cart!"))
    else (cart, None)
  }

  /** The initial selection is the first tier, labelled "250 g". */
  lemma InitialSelectionIsSmallestTier()
    ensures IsTier(InitialSelection) && QuantityLabel(InitialSelection) == "250 g"
    ensures forall q :: IsTier(q) ==> InitialSelection <= q
  {
  }

  /** Every quantity the card can select passes the server's tier check. */
  lemma TiersPassServerCheck(q: real)
    requires IsTier(q)
    ensures !SweetController.TierRejected(SweetController.PurchaseQuantity(Some(q)))
  {
    SweetController.TierRejectedUnlessTier(q);
  }

  /** Whatever the card lets into the cart, the server sells at the same
      price, as long as the catalog row is the one the card shows. */
  lemma CardAddIsPurchasable(t: SweetCatalog.Table, cart: seq<CartItem>, s: Sweet, q: real)
    requires IsTier(q) && CanAddToCart(s, q)
    requires SweetCatalog.Lookup(t.rows, s.id) == Some(s)
    requires !HasLine(cart, s.id, q)
    ensures var r := SweetController.PurchaseRequest(t, s.id, Some(q));
      && r.out.status == 200
      && r.out.body.PurchaseBody?
      && r.out.body.purchasePrice == HandleAddToCart(cart, s, q).0[|cart|].price
  {
    TiersPassServerCheck(q);
    assert SweetController.PurchaseQuantity(Some(q)) == q;
    var s' := s.(quantity := s.quantity - q, updatedAt := t.clock);
    var st := SweetCatalog.Purchase(t, s.id, q);
    assert st.out == Success(Some(s'));
    assert UnitPrice(s') == UnitPrice(s);
    var r := SweetController.PurchaseRequest(t, s.id, Some(q));
    assert r.out == SweetController.Response(200, SweetController.PurchaseBody(s', q, UnitPrice(s') * q));
    assert HandleAddToCart(cart, s, q).0[|cart|].price == LinePrice(s, q);
  }
}
