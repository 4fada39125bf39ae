/** The purchase ledger: an append-only `purchases` table and its three
    listings, each an inner join with `users` and `sweets`, newest first. */
module PurchaseLedger {
  import opened Wrappers
  import opened Seqs
  import opened SweetModel
  import SweetCatalog

  /** How the insert of recordPurchase can go wrong: the INSERT itself
      fails, or the row it inserted is not found when read back. */
  datatype StoreFault = NoFault | InsertFails | ReadBackFails

  /** A column value of a joined listing row. */
  datatype Value = IntValue(i: int) | RealValue(x: real) | TextValue(s: string) | NullValue

  /** A listing row: column name to value, as the database driver returns it. */
  type Row = map<string, Value>

  /** The twelve columns every listing selects; none of them is a password. */
  const ListingColumns: set<string> := {
    "id", "user_id", "sweet_id", "quantity", "price_per_kg", "total_price", "created_at",
    "user_email", "user_name", "user_phone", "sweet_name", "sweet_category"
  }

  /** Ids and creation ticks grow with insertion order. */
  predicate LedgerOrdered(records: seq<Purchase>) {
    forall i, j :: 0 <= i < j < |records| ==>
      records[i].id < records[j].id && records[i].createdAt < records[j].createdAt
  }

  predicate NewestFirst(ps: seq<Purchase>) {
    forall i, j :: 0 <= i < j < |ps| ==> ps[i].createdAt > ps[j].createdAt
  }

  /** `SELECT ... FROM users WHERE id = ?`. The users and sweets tables are
      keyed by their id, so at most one row carries it; the join and the
      listings below take the first such row and rely on there being only
      one. */
  function FindUser(users: seq<User>, id: int): (r: Option<User>)
    ensures r.Some? ==> r.value in users && r.value.id == id
    ensures r.None? <==> forall i :: 0 <= i < |users| ==> users[i].id != id
  {
    if users == [] then None
    else if users[0].id == id then Some(users[0])
    else FindUser(users[1..], id)
  }

  /** Both inner joins find their partner row (one row each, since the ids
      are primary keys). */
  predicate Joinable(p: Purchase, users: seq<User>, sweets: seq<Sweet>) {
    FindUser(users, p.userId).Some? && SweetCatalog.Lookup(sweets, p.sweetId).Some?
  }

  /** Which listing: every purchase, one user's, or one sweet's. */
  datatype Scope = Everything | OfUser(userId: int) | OfSweet(sweetId: int)

  predicate InScope(scope: Scope, p: Purchase) {
    match scope
    case Everything => true
    case OfUser(u) => p.userId == u
    case OfSweet(s) => p.sweetId == s
  }

  /** The WHERE clause and both joins, applied to records in the order given. */
  function Selected(ps: seq<Purchase>, users: seq<User>, sweets: seq<Sweet>, scope: Scope): (r: seq<Purchase>)
    ensures |r| <= |ps|
    ensures forall p :: p in r <==> p in ps && InScope(scope, p) && Joinable(p, users, sweets)
    ensures forall i :: 0 <= i < |r| ==> InScope(scope, r[i]) && Joinable(r[i], users, sweets)
  {
    if ps == [] then []
    else
      (if InScope(scope, ps[0]) && Joinable(ps[0], users, sweets) then [ps[0]] else [])
      + Selected(ps[1..], users, sweets, scope)
  }

  function OptionalText(x: Option<string>): Value {
    if x.Some? then TextValue(x.value) else NullValue
  }

  /** The selected columns of one joined purchase. */
  function JoinRow(p: Purchase, u: User, s: Sweet): Row {
    map[
      "id" := IntValue(p.id),
      "user_id" := IntValue(p.userId),
      "sweet_id" := IntValue(p.sweetId),
      "quantity" := RealValue(p.quantity),
      "price_per_kg" := RealValue(p.pricePerKg),
      "total_price" := RealValue(p.totalPrice),
      "created_at" := IntValue(p.createdAt),
      "user_email" := TextValue(u.email),
      "user_name" := OptionalText(u.name),
      "user_phone" := OptionalText(u.phone),
      "sweet_name" := TextValue(s.name),
      "sweet_category" := TextValue(s.category)
    ]
  }

  /** A joined row has exactly the twelve listing columns, no password,
      and carries the purchase's own fields next to the user's contact
      details and the sweet's name and category. */
  lemma JoinRowShape(p: Purchase, u: User, s: Sweet)
    ensures var r := JoinRow(p, u, s);
      && r.Keys == ListingColumns
      && "password" !in r
      && r["id"] == IntValue(p.id) && r["user_id"] == IntValue(p.userId) && r["sweet_id"] == IntValue(p.sweetId)
      && r["quantity"] == RealValue(p.quantity) && r["price_per_kg"] == RealValue(p.pricePerKg)
      && r["total_price"] == RealValue(p.totalPrice) && r["created_at"] == IntValue(p.createdAt)
      && r["user_email"] == TextValue(u.email) && r["user_name"] == OptionalText(u.name)
      && r["user_phone"] == OptionalText(u.phone)
      && r["sweet_name"] == TextValue(s.name) && r["sweet_category"] == TextValue(s.category)
  {
  }

  /** The joined row of a purchase whose user and sweet both exist. */
  function JoinOf(p: Purchase, users: seq<User>, sweets: seq<Sweet>): Row
    requires Joinable(p, users, sweets)
  {
    JoinRow(p, FindUser(users, p.userId).value, SweetCatalog.Lookup(sweets, p.sweetId).value)
  }

  /** The projection of the selected purchases onto listing rows. */
  function JoinAll(ps: seq<Purchase>, users: seq<User>, sweets: seq<Sweet>): (r: seq<Row>)
    requires forall i :: 0 <= i < |ps| ==> Joinable(ps[i], users, sweets)
    ensures |r| == |ps|
    ensures forall i :: 0 <= i < |ps| ==> (Joinable(ps[i], users, sweets) && r[i] == JoinOf(ps[i], users, sweets))
  {
    if ps == [] then []
    else
      assert Joinable(ps[0], users, sweets);
      var tail := JoinAll(ps[1..], users, sweets);
      assert forall i :: 0 < i < |ps| ==> ps[1..][i - 1] == ps[i];
      [JoinOf(ps[0], users, sweets)] + tail
  }

  /** The purchases a listing reports, newest first. */
  function Listed(records: seq<Purchase>, users: seq<User>, sweets: seq<Sweet>, scope: Scope): seq<Purchase> {
    Selected(Reverse(records), users, sweets, scope)
  }

  /** The rows a listing returns. */
  function Listing(records: seq<Purchase>, users: seq<User>, sweets: seq<Sweet>, scope: Scope): seq<Row> {
    JoinAll(Listed(records, users, sweets, scope), users, sweets)
  }

  /** `const { password, ...safePurchase } = purchase`. */
  function StripPassword(row: Row): (r: Row)
    ensures "password" !in r
    ensures forall k :: k in r <==> k in row && k != "password"
  {
    row - {"password"}
  }

  function StripAll(rows: seq<Row>): (r: seq<Row>)
    ensures |r| == |rows|
    ensures forall i :: 0 <= i < |rows| ==> r[i] == StripPassword(rows[i])
  {
    if rows == [] then [] else [StripPassword(rows[0])] + StripAll(rows[1..])
  }

  // ------------------------------------------------------------------
  // Properties of the listings

  lemma {:induction false} SelectedKeepsOrder(ps: seq<Purchase>, users: seq<User>, sweets: seq<Sweet>, scope: Scope)
    requires NewestFirst(ps)
    ensures NewestFirst(Selected(ps, users, sweets, scope))
  {
    if ps != [] {
      assert NewestFirst(ps[1..]) by {
        forall i, j | 0 <= i < j < |ps[1..]|
          ensures ps[1..][i].createdAt > ps[1..][j].createdAt
        {
          assert ps[1..][i] == ps[i + 1] && ps[1..][j] == ps[j + 1];
        }
      }
      SelectedKeepsOrder(ps[1..], users, sweets, scope);
      var tail := Selected(ps[1..], users, sweets, scope);
      forall j | 0 <= j < |tail|
        ensures ps[0].createdAt > tail[j].createdAt
      {
        assert tail[j] in ps[1..];
        var k :| 0 <= k < |ps[1..]| && ps[1..][k] == tail[j];
        assert ps[k + 1] == tail[j];
      }
      if InScope(scope, ps[0]) && Joinable(ps[0], users, sweets) {
        assert Selected(ps, users, sweets, scope) == [ps[0]] + tail;
        NewestFirstCons(ps[0], tail);
      } else {
        assert Selected(ps, users, sweets, scope) == tail;
      }
    }
  }

  lemma NewestFirstCons(x: Purchase, tail: seq<Purchase>)
    requires NewestFirst(tail)
    requires forall j :: 0 <= j < |tail| ==> x.createdAt > tail[j].createdAt
    ensures NewestFirst([x] + tail)
  {
    var r := [x] + tail;
    forall i, j | 0 <= i < j < |r|
      ensures r[i].createdAt > r[j].createdAt
    {
      assert r[j] == tail[j - 1];
      if i > 0 {
        assert r[i] == tail[i - 1];
      }
    }
  }

  /** A listing reports exactly the joinable purchases of its scope, each
      once, newest first. */
  lemma ListedSpec(records: seq<Purchase>, users: seq<User>, sweets: seq<Sweet>, scope: Scope)
    requires LedgerOrdered(records)
    ensures forall p :: p in Listed(records, users, sweets, scope) <==>
      p in records && InScope(scope, p) && Joinable(p, users, sweets)
    ensures NewestFirst(Listed(records, users, sweets, scope))
  {
    forall p
      ensures p in Reverse(records) <==> p in records
    {
      ReverseMembership(records, p);
    }
    SelectedKeepsOrder(Reverse(records), users, sweets, scope);
  }

  /** A purchase whose sweet has been deleted is in no listing. */
  lemma DeletedSweetDropsOut(records: seq<Purchase>, users: seq<User>, t: SweetCatalog.Table, id: int, scope: Scope)
    ensures forall p :: p in Listed(records, users, SweetCatalog.Delete(t, id).table.rows, scope) ==> p.sweetId != id
  {
    forall p | p in Listed(records, users, SweetCatalog.Delete(t, id).table.rows, scope)
      ensures p.sweetId != id
    {
      SweetCatalog.DeleteRemovesOnlyTarget(t, id, p.sweetId);
    }
  }

  /** No row of any listing carries a password, so stripping it is the
      identity on what the join returns. */
  lemma {:induction false} StripIsIdentityOnJoins(ps: seq<Purchase>, users: seq<User>, sweets: seq<Sweet>)
    requires forall i :: 0 <= i < |ps| ==> Joinable(ps[i], users, sweets)
    ensures StripAll(JoinAll(ps, users, sweets)) == JoinAll(ps, users, sweets)
  {
    var rows := JoinAll(ps, users, sweets);
    forall i | 0 <= i < |rows|
      ensures StripPassword(rows[i]) == rows[i]
    {
      var p := ps[i];
      JoinRowShape(p, FindUser(users, p.userId).value, SweetCatalog.Lookup(sweets, p.sweetId).value);
      StripWithoutPassword(rows[i]);
    }
  }

  lemma StripWithoutPassword(row: Row)
    requires "password" !in row
    ensures StripPassword(row) == row
  {
    assert row - {"password"} == row;
  }

  /** A purchase just appended for a user and a sweet that both exist heads
      the listings of its user, of its sweet and of everything. */
  lemma NewPurchaseListedFirst(records: seq<Purchase>, p: Purchase, users: seq<User>, sweets: seq<Sweet>, scope: Scope)
    requires Joinable(p, users, sweets) && InScope(scope, p)
    ensures Listed(records + [p], users, sweets, scope) == [p] + Listed(records, users, sweets, scope)
  {
    ReverseAppend(records, p);
    var ps := [p] + Reverse(records);
    assert ps[0] == p && ps[1..] == Reverse(records);
  }

  lemma {:induction false} ReverseAppend<T>(s: seq<T>, x: T)
    ensures Reverse(s + [x]) == [x] + Reverse(s)
  {
    if s != [] {
      assert (s + [x])[1..] == s[1..] + [x];
      ReverseAppend(s[1..], x);
    } else {
      assert Reverse([x]) == Reverse([x][1..]) + [x];
    }
  }

  // ------------------------------------------------------------------
  // The service

  class PurchaseService {
    var records: seq<Purchase>
    var nextId: nat
    var clock: nat

    ghost predicate Valid()
      reads this
    {
      && LedgerOrdered(records)
      && forall i :: 0 <= i < |records| ==> records[i].id < nextId && records[i].createdAt < clock
    }

    constructor ()
      ensures Valid() && records == [] && nextId == 1
    {
      records := [];
      nextId := 1;
      clock := 0;
    }

    /** INSERT one purchase, then read it back by its new id. */
    method RecordPurchase(userId: int, sweetId: int, quantity: real, pricePerKg: real, totalPrice: real, fault: StoreFault)
      returns (r: Result<Purchase, ServiceError>)
      requires Valid()
      modifies this
      ensures Valid()
      ensures old(records) <= records
      ensures fault == InsertFails ==> records == old(records) && r == Failure(StorageUnavailable)
      ensures fault != InsertFails ==>
        records == old(records) + [Purchase(old(nextId), userId, sweetId, quantity, pricePerKg, totalPrice, old(clock))]
      ensures fault == ReadBackFails ==> r == Failure(PurchaseRecordFailed)
      ensures fault == NoFault ==> r == Success(records[|records| - 1])
    {
      if fault == InsertFails {
        return Failure(StorageUnavailable);
      }
      var purchase := Purchase(nextId, userId, sweetId, quantity, pricePerKg, totalPrice, clock);
      records := records + [purchase];
      nextId := nextId + 1;
      clock := clock + 1;
      if fault == ReadBackFails {
        return Failure(PurchaseRecordFailed);
      }
      r := Success(purchase);
    }

    method GetUserPurchases(users: seq<User>, sweets: seq<Sweet>, userId: int) returns (rows: seq<Row>)
      requires Valid()
      ensures rows == Listing(records, users, sweets, OfUser(userId))
      ensures forall p :: p in Listed(records, users, sweets, OfUser(userId)) <==>
        p in records && p.userId == userId && Joinable(p, users, sweets)
      ensures NewestFirst(Listed(records, users, sweets, OfUser(userId)))
    {
      ListedSpec(records, users, sweets, OfUser(userId));
      rows := Listing(records, users, sweets, OfUser(userId));
    }

    method GetAllPurchases(users: seq<User>, sweets: seq<Sweet>) returns (rows: seq<Row>)
      requires Valid()
      ensures rows == Listing(records, users, sweets, Everything)
      ensures forall i :: 0 <= i < |rows| ==> "password" !in rows[i]
      ensures forall p :: p in Listed(records, users, sweets, Everything) <==>
        p in records && Joinable(p, users, sweets)
      ensures NewestFirst(Listed(records, users, sweets, Everything))
    {
      ListedSpec(records, users, sweets, Everything);
      var purchases := Listing(records, users, sweets, Everything);
      StripIsIdentityOnJoins(Listed(records, users, sweets, Everything), users, sweets);
      rows := StripAll(purchases);
    }

    method GetPurchasesBySweet(users: seq<User>, sweets: seq<Sweet>, sweetId: int) returns (rows: seq<Row>)
      requires Valid()
      ensures rows == Listing(records, users, sweets, OfSweet(sweetId))
      ensures forall p :: p in Listed(records, users, sweets, OfSweet(sweetId)) <==>
        p in records && p.sweetId == sweetId && Joinable(p, users, sweets)
      ensures NewestFirst(Listed(records, users, sweets, OfSweet(sweetId)))
    {
      ListedSpec(records, users, sweets, OfSweet(sweetId));
      rows := Listing(records, users, sweets, OfSweet(sweetId));
    }
  }
}
