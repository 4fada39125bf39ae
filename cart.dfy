/** The shopping cart of the storefront: an ordered list of lines, each a
    sweet, a quantity in kilograms and the line's price. Every operation
    maps the old list to a new one. */
module Cart {
  import opened SweetModel

  datatype CartItem = CartItem(sweet: Sweet, quantity: real, price: real)

  /** The price of `quantity` kilograms of `s`, as a new line carries it. */
  function LinePrice(s: Sweet, quantity: real): real {
    UnitPrice(s) * quantity
  }

  predicate SameLine(item: CartItem, sweetId: nat, quantity: real) {
    item.sweet.id == sweetId && item.quantity == quantity
  }

  /** Some line holds this sweet at this quantity (`prevItems.find`). */
  predicate HasLine(cart: seq<CartItem>, sweetId: nat, quantity: real) {
    exists i :: 0 <= i < |cart| && SameLine(cart[i], sweetId, quantity)
  }

  /** No two lines share both the sweet and the quantity. */
  predicate NoDuplicateLines(cart: seq<CartItem>) {
    forall i, j :: 0 <= i < j < |cart| ==> !SameLine(cart[j], cart[i].sweet.id, cart[i].quantity)
  }

  /** addToCart: nothing changes when the same sweet is already in the cart
      at the same quantity; otherwise one line is appended. */
  function AddToCart(cart: seq<CartItem>, sweet: Sweet, quantity: real): (r: seq<CartItem>)
    ensures HasLine(r, sweet.id, quantity)
    ensures HasLine(cart, sweet.id, quantity) ==> r == cart
    ensures !HasLine(cart, sweet.id, quantity) ==>
      |r| == |cart| + 1 && r[..|cart|] == cart
      && r[|cart|] == CartItem(sweet, quantity, LinePrice(sweet, quantity))
  {
    if HasLine(cart, sweet.id, quantity) then cart
    else
      var r := cart + [CartItem(sweet, quantity, LinePrice(sweet, quantity))];
      assert SameLine(r[|cart|], sweet.id, quantity);
      r
  }

  /** removeFromCart: every line of the sweet goes, whatever its quantity. */
  function RemoveFromCart(cart: seq<CartItem>, sweetId: nat): (r: seq<CartItem>)
    ensures |r| <= |cart|
    ensures forall i :: 0 <= i < |r| ==> r[i].sweet.id != sweetId
    ensures forall item :: item in r <==> item in cart && item.sweet.id != sweetId
  {
    if cart == [] then []
    else (if cart[0].sweet.id != sweetId then [cart[0]] else []) + RemoveFromCart(cart[1..], sweetId)
  }

  /** The lines of one sweet, in cart order. */
  function LinesOf(cart: seq<CartItem>, sweetId: nat): seq<CartItem> {
    if cart == [] then []
    else (if cart[0].sweet.id == sweetId then [cart[0]] else []) + LinesOf(cart[1..], sweetId)
  }

  /** updateCartItemQuantity: each line of the sweet gets the new quantity
      and a price recomputed from it; every other line stays as it was, and
      so do the length and the order. */
  function UpdateCartItemQuantity(cart: seq<CartItem>, sweetId: nat, quantity: real): (r: seq<CartItem>)
    ensures |r| == |cart|
    ensures forall i :: 0 <= i < |cart| && cart[i].sweet.id != sweetId ==> r[i] == cart[i]
    ensures forall i :: 0 <= i < |cart| && cart[i].sweet.id == sweetId ==>
      r[i] == cart[i].(quantity := quantity, price := LinePrice(cart[i].sweet, quantity))
  {
    if cart == [] then []
    else
      var head := if cart[0].sweet.id == sweetId
        then cart[0].(quantity := quantity, price := LinePrice(cart[0].sweet, quantity))
        else cart[0];
      [head] + UpdateCartItemQuantity(cart[1..], sweetId, quantity)
  }

  function ClearCart(): (r: seq<CartItem>)
    ensures |r| == 0
  {
    []
  }

  /** getTotalPrice: `reduce` from the left, starting at 0. */
  function TotalPrice(cart: seq<CartItem>): (total: real)
    ensures (forall i :: 0 <= i < |cart| ==> cart[i].price >= 0.0) ==> total >= 0.0
  {
    if cart == [] then 0.0 else TotalPrice(cart[..|cart| - 1]) + cart[|cart| - 1].price
  }

  /** getTotalItems: the number of lines, not of kilograms. */
  function TotalItems(cart: seq<CartItem>): (n: nat)
    ensures n == 0 <==> cart == []
  {
    |cart|
  }

  lemma {:induction false} TotalPriceAppend(a: seq<CartItem>, b: seq<CartItem>)
    ensures TotalPrice(a + b) == TotalPrice(a) + TotalPrice(b)
  {
    if b != [] {
      var b' := b[..|b| - 1];
      assert (a + b)[..|a + b| - 1] == a + b';
      TotalPriceAppend(a, b');
    } else {
      assert a + b == a;
    }
  }

  lemma TotalPriceSingle(item: CartItem)
    ensures TotalPrice([item]) == item.price
  {
    assert [item][..0] == [];
  }

  /** Adding a new line adds its price to the total, and the number of
      lines grows by one; a repeated add changes neither. */
  lemma AddToCartTotals(cart: seq<CartItem>, sweet: Sweet, quantity: real)
    ensures var r := AddToCart(cart, sweet, quantity);
      (HasLine(cart, sweet.id, quantity) ==>
        TotalPrice(r) == TotalPrice(cart) && TotalItems(r) == TotalItems(cart))
      && (!HasLine(cart, sweet.id, quantity) ==>
        TotalPrice(r) == TotalPrice(cart) + UnitPrice(sweet) * quantity && TotalItems(r) == TotalItems(cart) + 1)
  {
    if !HasLine(cart, sweet.id, quantity) {
      var item := CartItem(sweet, quantity, LinePrice(sweet, quantity));
      TotalPriceAppend(cart, [item]);
      TotalPriceSingle(item);
    }
  }

  /** Adding the same sweet at the same quantity twice is adding it once. */
  lemma AddToCartIdempotent(cart: seq<CartItem>, sweet: Sweet, quantity: real)
    ensures AddToCart(AddToCart(cart, sweet, quantity), sweet, quantity) == AddToCart(cart, sweet, quantity)
  {
  }

  /** addToCart keeps the cart free of duplicated (sweet, quantity) lines. */
  lemma AddToCartKeepsNoDuplicates(cart: seq<CartItem>, sweet: Sweet, quantity: real)
    requires NoDuplicateLines(cart)
    ensures NoDuplicateLines(AddToCart(cart, sweet, quantity))
  {
    var r := AddToCart(cart, sweet, quantity);
    if !HasLine(cart, sweet.id, quantity) {
      forall i, j | 0 <= i < j < |r|
        ensures !SameLine(r[j], r[i].sweet.id, r[i].quantity)
      {
        if j == |cart| {
          assert r[i] == cart[i];
          assert !SameLine(cart[i], sweet.id, quantity);
        } else {
          assert r[i] == cart[i] && r[j] == cart[j];
        }
      }
    }
  }

  /** updateCartItemQuantity does not keep that invariant: two lines of one
      sweet at 250 g and 500 g both become 1 kg lines. */
  lemma UpdateCanDuplicateLines(s: Sweet)
    ensures var cart := [CartItem(s, 0.25, LinePrice(s, 0.25)), CartItem(s, 0.5, LinePrice(s, 0.5))];
      NoDuplicateLines(cart) && !NoDuplicateLines(UpdateCartItemQuantity(cart, s.id, 1.0))
  {
    var cart := [CartItem(s, 0.25, LinePrice(s, 0.25)), CartItem(s, 0.5, LinePrice(s, 0.5))];
    var r := UpdateCartItemQuantity(cart, s.id, 1.0);
    assert SameLine(r[1], r[0].sweet.id, r[0].quantity);
  }

  /** removeFromCart keeps the other lines in their order: it distributes
      over concatenation. */
  lemma {:induction false} RemoveFromCartAppend(a: seq<CartItem>, b: seq<CartItem>, sweetId: nat)
    ensures RemoveFromCart(a + b, sweetId) == RemoveFromCart(a, sweetId) + RemoveFromCart(b, sweetId)
  {
    if a == [] {
      assert a + b == b;
    } else {
      assert (a + b)[1..] == a[1..] + b;
      RemoveFromCartAppend(a[1..], b, sweetId);
    }
  }

  /** A cart without lines of the sweet is left as it is. */
  lemma {:induction false} RemoveAbsentIsIdentity(cart: seq<CartItem>, sweetId: nat)
    requires forall i :: 0 <= i < |cart| ==> cart[i].sweet.id != sweetId
    ensures RemoveFromCart(cart, sweetId) == cart
  {
    if cart != [] {
      RemoveAbsentIsIdentity(cart[1..], sweetId);
      assert cart == [cart[0]] + cart[1..];
    }
  }

  /** The total splits into the lines removed and the lines kept. */
  lemma {:induction false} RemoveFromCartTotal(cart: seq<CartItem>, sweetId: nat)
    ensures TotalPrice(cart) == TotalPrice(RemoveFromCart(cart, sweetId)) + TotalPrice(LinesOf(cart, sweetId))
  {
    if cart == [] {
    } else {
      var head := [cart[0]];
      RemoveFromCartTotal(cart[1..], sweetId);
      assert cart == head + cart[1..];
      TotalPriceAppend(head, cart[1..]);
      TotalPriceSingle(cart[0]);
      var kept := if cart[0].sweet.id != sweetId then head else [];
      var taken := if cart[0].sweet.id == sweetId then head else [];
      TotalPriceAppend(kept, RemoveFromCart(cart[1..], sweetId));
      TotalPriceAppend(taken, LinesOf(cart[1..], sweetId));
    }
  }

  /** Re-quantifying one sweet and then removing it leaves the same cart as
      removing it at once: the other lines are untouched. */
  lemma {:induction false} RemoveAfterUpdate(cart: seq<CartItem>, sweetId: nat, quantity: real)
    ensures RemoveFromCart(UpdateCartItemQuantity(cart, sweetId, quantity), sweetId) == RemoveFromCart(cart, sweetId)
  {
    if cart != [] {
      RemoveAfterUpdate(cart[1..], sweetId, quantity);
      var u := UpdateCartItemQuantity(cart, sweetId, quantity);
      assert u[1..] == UpdateCartItemQuantity(cart[1..], sweetId, quantity);
    }
  }

  /** Clearing empties the cart: no lines and a total of 0. */
  lemma ClearCartTotals()
    ensures TotalPrice(ClearCart()) == 0.0 && TotalItems(ClearCart()) == 0
  {
  }
}
