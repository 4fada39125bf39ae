/** The `sweets` table as a value, and the effect of every catalog operation
    on it. The class in sweet_service.dfy performs these operations step by
    step and is proved to agree with the functions here; the invariants of
    the table (unique names, non-negative stock) are proved about them. */
module SweetCatalog {
  import opened Wrappers
  import opened Seqs
  import opened Text
  import opened SweetModel

  /** Rows in insertion order, the next AUTOINCREMENT id and a clock that
      stands for CURRENT_TIMESTAMP. */
  datatype Table = Table(rows: seq<Sweet>, nextId: nat, clock: nat)

  /** The table after an operation, and what the operation returned. */
  datatype Step<T> = Step(table: Table, out: T)

  /** A fresh table: AUTOINCREMENT hands out 1 first. */
  const EmptyTable := Table([], 1, 0)

  // ------------------------------------------------------------------
  // Invariants

  /** The UNIQUE constraint on `name`. */
  predicate NamesDistinct(rows: seq<Sweet>) {
    forall i, j :: 0 <= i < j < |rows| ==> rows[i].name != rows[j].name
  }

  /** Ids and creation ticks grow with insertion order. */
  predicate InsertionOrdered(rows: seq<Sweet>) {
    forall i, j :: 0 <= i < j < |rows| ==> rows[i].id < rows[j].id && rows[i].createdAt < rows[j].createdAt
  }

  predicate BelowCounters(t: Table) {
    forall i :: 0 <= i < |t.rows| ==>
      t.rows[i].id < t.nextId && t.rows[i].createdAt < t.clock && t.rows[i].updatedAt < t.clock
  }

  predicate Valid(t: Table) {
    NamesDistinct(t.rows) && InsertionOrdered(t.rows) && BelowCounters(t)
  }

  predicate StockNonNegative(rows: seq<Sweet>) {
    forall i :: 0 <= i < |rows| ==> rows[i].quantity >= 0.0
  }

  // ------------------------------------------------------------------
  // Row access

  /** `SELECT ... FROM sweets WHERE id = ?`. */
  function Lookup(rows: seq<Sweet>, id: int): (r: Option<Sweet>)
    ensures r.Some? ==> r.value.id == id
  {
    if rows == [] then None
    else if rows[0].id == id then Some(rows[0])
    else Lookup(rows[1..], id)
  }

  /** What Lookup finds is a stored row. */
  lemma {:induction false} LookupFound(rows: seq<Sweet>, id: int)
    ensures Lookup(rows, id).Some? ==> Lookup(rows, id).value in rows
  {
    if rows != [] && rows[0].id != id {
      LookupFound(rows[1..], id);
    }
  }

  /** Lookup finds nothing exactly when no row carries the id. */
  lemma {:induction false} LookupAbsent(rows: seq<Sweet>, id: int)
    ensures Lookup(rows, id).None? <==> forall i :: 0 <= i < |rows| ==> rows[i].id != id
  {
    if rows != [] && rows[0].id != id {
      LookupAbsent(rows[1..], id);
      assert forall i :: 1 <= i < |rows| ==> rows[i] == rows[1..][i - 1];
    }
  }

  /** `SELECT id FROM sweets WHERE name = ? [AND id != ?]`. */
  predicate NameTaken(rows: seq<Sweet>, name: string, except: Option<int>) {
    exists i :: 0 <= i < |rows| && rows[i].name == name && (except.None? || rows[i].id != except.value)
  }

  /** `UPDATE sweets SET ... WHERE id = s.id`: the row with that id becomes `s`. */
  function Replace(rows: seq<Sweet>, s: Sweet): (r: seq<Sweet>)
    ensures |r| == |rows|
    ensures forall i :: 0 <= i < |rows| ==> r[i] == (if rows[i].id == s.id then s else rows[i])
  {
    if rows == [] then []
    else [if rows[0].id == s.id then s else rows[0]] + Replace(rows[1..], s)
  }

  /** `DELETE FROM sweets WHERE id = ?`. */
  function Remove(rows: seq<Sweet>, id: int): (r: seq<Sweet>)
    ensures |r| <= |rows|
    ensures forall x :: x in r <==> x in rows && x.id != id
  {
    if rows == [] then []
    else (if rows[0].id == id then [] else [rows[0]]) + Remove(rows[1..], id)
  }

  lemma {:induction false} LookupFindsRow(rows: seq<Sweet>, k: nat)
    requires InsertionOrdered(rows) && k < |rows|
    ensures Lookup(rows, rows[k].id) == Some(rows[k])
  {
    if k > 0 {
      assert rows[0].id < rows[k].id;
      assert rows[1..][k - 1] == rows[k];
      LookupFindsRow(rows[1..], k - 1);
    }
  }

  /** A looked-up row sits at some index; with ordered ids, at exactly one. */
  lemma LookupIndex(rows: seq<Sweet>, id: int) returns (k: nat)
    requires InsertionOrdered(rows) && Lookup(rows, id).Some?
    ensures k < |rows| && rows[k] == Lookup(rows, id).value && rows[k].id == id
    ensures forall i :: 0 <= i < |rows| && i != k ==> rows[i].id != id
  {
    var s := Lookup(rows, id).value;
    LookupFound(rows, id);
    k :| 0 <= k < |rows| && rows[k] == s;
  }

  lemma {:induction false} LookupReplace(rows: seq<Sweet>, s: Sweet, id: int)
    ensures Lookup(Replace(rows, s), id) ==
      if id == s.id && Lookup(rows, id).Some? then Some(s) else Lookup(rows, id)
  {
    if rows != [] {
      var head := if rows[0].id == s.id then s else rows[0];
      assert Replace(rows, s)[0] == head;
      assert Replace(rows, s)[1..] == Replace(rows[1..], s);
      LookupReplace(rows[1..], s, id);
    }
  }

  lemma {:induction false} LookupRemove(rows: seq<Sweet>, id: int, j: int)
    ensures Lookup(Remove(rows, id), j) == if j == id then None else Lookup(rows, j)
  {
    if rows != [] {
      LookupRemove(rows[1..], id, j);
      if rows[0].id != id {
        assert Remove(rows, id)[0] == rows[0];
        assert Remove(rows, id)[1..] == Remove(rows[1..], id);
      } else {
        assert Remove(rows, id) == Remove(rows[1..], id);
      }
    }
  }

  /** Any ordered selection of rows of a valid table keeps names distinct. */
  lemma NamesDistinctOfMembers(rows: seq<Sweet>, r: seq<Sweet>)
    requires NamesDistinct(rows) && InsertionOrdered(rows) && InsertionOrdered(r)
    requires forall x :: x in r ==> x in rows
    ensures NamesDistinct(r)
  {
    forall i, j | 0 <= i < j < |r|
      ensures r[i].name != r[j].name
    {
      assert r[i] in rows && r[j] in rows;
      var a :| 0 <= a < |rows| && rows[a] == r[i];
      var b :| 0 <= b < |rows| && rows[b] == r[j];
      assert a != b;
    }
  }

  lemma OrderedTail(rows: seq<Sweet>)
    requires InsertionOrdered(rows) && rows != []
    ensures InsertionOrdered(rows[1..])
    ensures forall x :: x in rows[1..] ==> rows[0].id < x.id && rows[0].createdAt < x.createdAt
  {
    forall x | x in rows[1..]
      ensures rows[0].id < x.id && rows[0].createdAt < x.createdAt
    {
      var k :| 0 <= k < |rows[1..]| && rows[1..][k] == x;
      assert rows[k + 1] == x;
    }
  }

  /** A row followed by an ordered sequence of later rows is ordered. */
  lemma OrderedCons(x: Sweet, tail: seq<Sweet>)
    requires InsertionOrdered(tail)
    requires forall y :: y in tail ==> x.id < y.id && x.createdAt < y.createdAt
    ensures InsertionOrdered([x] + tail)
  {
    var r := [x] + tail;
    forall i, j | 0 <= i < j < |r|
      ensures r[i].id < r[j].id && r[i].createdAt < r[j].createdAt
    {
      assert r[j] == tail[j - 1];
      if i > 0 {
        assert r[i] == tail[i - 1];
      } else {
        assert tail[j - 1] in tail;
      }
    }
  }

  lemma {:induction false} RemoveKeepsOrder(rows: seq<Sweet>, id: int)
    requires InsertionOrdered(rows)
    ensures InsertionOrdered(Remove(rows, id))
  {
    if rows != [] {
      OrderedTail(rows);
      RemoveKeepsOrder(rows[1..], id);
      var tail := Remove(rows[1..], id);
      if rows[0].id != id {
        assert Remove(rows, id) == [rows[0]] + tail;
        OrderedCons(rows[0], tail);
      } else {
        assert Remove(rows, id) == tail;
      }
    }
  }

  // ------------------------------------------------------------------
  // Create

  /** The guard of createSweet: name and category non-empty, a truthy
      per-kilo price or at least a legacy price, and no negative per-kilo
      price. A per-kilo price of 0 counts as missing. */
  predicate CreateDataValid(d: SweetCreate) {
    && d.name != ""
    && d.category != ""
    && (Truthy(d.pricePerKilo) || d.price.Some?)
    && !(d.pricePerKilo.Some? && d.pricePerKilo.value < 0.0)
  }

  /** The row createSweet inserts (`pricePerKilo || price || 0`, then
      `price || price_per_kilo`, quantity defaulting to 0). */
  function NewSweet(d: SweetCreate, t: Table): (s: Sweet)
    requires CreateDataValid(d)
    ensures s.id == t.nextId && s.createdAt == t.clock && s.updatedAt == t.clock
    ensures s.name == d.name && s.category == d.category
    ensures d.quantity.None? ==> s.quantity == 0.0
    ensures d.quantity.Some? ==> s.quantity == d.quantity.value
    ensures Truthy(d.pricePerKilo) ==> s.pricePerKilo == d.pricePerKilo.value
    ensures !Truthy(d.pricePerKilo) ==> s.pricePerKilo == d.price.value
    ensures Truthy(d.price) ==> s.price == d.price.value
    ensures !Truthy(d.price) ==> s.price == s.pricePerKilo
  {
    var perKilo := OrElse(d.pricePerKilo, OrElse(d.price, 0.0));
    Sweet(t.nextId, d.name, d.category, OrElse(d.price, perKilo), perKilo,
          d.quantity.GetOr(0.0), t.clock, t.clock)
  }

  function Create(t: Table, d: SweetCreate): (r: Step<Result<Sweet, ServiceError>>)
    ensures r.out == Failure(InvalidSweetData) <==> !CreateDataValid(d)
    ensures r.out == Failure(DuplicateName(d.name)) <==> CreateDataValid(d) && NameTaken(t.rows, d.name, None)
    ensures r.out.Success? <==> CreateDataValid(d) && !NameTaken(t.rows, d.name, None)
    ensures r.out.Failure? ==> r.table == t
    ensures r.out.Success? ==>
      && r.out.value == NewSweet(d, t)
      && r.table == Table(t.rows + [r.out.value], t.nextId + 1, t.clock + 1)
  {
    if !CreateDataValid(d) then Step(t, Failure(InvalidSweetData))
    else if NameTaken(t.rows, d.name, None) then Step(t, Failure(DuplicateName(d.name)))
    else
      var s := NewSweet(d, t);
      Step(Table(t.rows + [s], t.nextId + 1, t.clock + 1), Success(s))
  }

  lemma CreatePreservesValid(t: Table, d: SweetCreate)
    requires Valid(t)
    ensures Valid(Create(t, d).table)
  {
    var r := Create(t, d);
    if r.out.Success? {
      var rows := r.table.rows;
      forall i, j | 0 <= i < j < |rows|
        ensures rows[i].name != rows[j].name
      {
        if j == |rows| - 1 {
          assert rows[i] == t.rows[i];
          assert !(t.rows[i].name == d.name);
        }
      }
    }
  }

  /** A create that clears the controller's validators stores no negative
      price and no negative stock. */
  lemma ValidatedCreateNonNegative(t: Table, d: SweetCreate)
    requires d.pricePerKilo.Some? && d.pricePerKilo.value >= 0.0
    requires d.price.Some? ==> d.price.value >= 0.0
    requires d.quantity.Some? ==> d.quantity.value >= 0.0
    requires Create(t, d).out.Success?
    ensures var s := Create(t, d).out.value;
      s.pricePerKilo >= 0.0 && s.price >= 0.0 && s.quantity >= 0.0
  {
  }

  /** The service's own guard looks only at the per-kilo price: without one,
      a negative legacy price is accepted and becomes the per-kilo price.
      Only the controller's validators keep it out. */
  lemma ServiceAcceptsNegativeLegacyPrice()
    ensures var r := Create(EmptyTable, SweetCreate("Barfi", "Traditional", None, Some(-5.0), None));
      r.out.Success? && r.out.value.pricePerKilo == -5.0
  {
    var d := SweetCreate("Barfi", "Traditional", None, Some(-5.0), None);
    assert !NameTaken(EmptyTable.rows, d.name, None);
  }

  // ------------------------------------------------------------------
  // Update

  predicate NoFields(u: SweetUpdate) {
    u.name.None? && u.category.None? && u.price.None? && u.pricePerKilo.None? && u.quantity.None?
  }

  /** The row after `UPDATE sweets SET <supplied fields>, updated_at = ...`. */
  function Patch(s: Sweet, u: SweetUpdate, tick: nat): (r: Sweet)
    ensures r.id == s.id && r.createdAt == s.createdAt && r.updatedAt == tick
    ensures r.name == (if u.name.Some? then u.name.value else s.name)
    ensures r.category == (if u.category.Some? then u.category.value else s.category)
    ensures r.price == (if u.price.Some? then u.price.value else s.price)
    ensures r.pricePerKilo == (if u.pricePerKilo.Some? then u.pricePerKilo.value else s.pricePerKilo)
    ensures r.quantity == (if u.quantity.Some? then u.quantity.value else s.quantity)
  {
    s.(name := u.name.GetOr(s.name), category := u.category.GetOr(s.category),
       price := u.price.GetOr(s.price), pricePerKilo := u.pricePerKilo.GetOr(s.pricePerKilo),
       quantity := u.quantity.GetOr(s.quantity), updatedAt := tick)
  }

  /** A rename to a name that a different sweet holds. */
  predicate RenameClashes(rows: seq<Sweet>, s: Sweet, u: SweetUpdate) {
    u.name.Some? && u.name.value != s.name && NameTaken(rows, u.name.value, Some(s.id))
  }

  function Update(t: Table, id: int, u: SweetUpdate): (r: Step<Result<Option<Sweet>, ServiceError>>)
    ensures Lookup(t.rows, id).None? ==> r == Step(t, Success(None))
    ensures r.out.Failure? ==> r.table == t
    ensures Lookup(t.rows, id).Some? ==>
      var s := Lookup(t.rows, id).value;
      if RenameClashes(t.rows, s, u) then r.out == Failure(DuplicateName(u.name.value))
      else if NoFields(u) then r == Step(t, Success(Some(s)))
      else
        && r.out == Success(Some(Patch(s, u, t.clock)))
        && r.table == Table(Replace(t.rows, Patch(s, u, t.clock)), t.nextId, t.clock + 1)
  {
    match Lookup(t.rows, id)
    case None => Step(t, Success(None))
    case Some(s) =>
      if RenameClashes(t.rows, s, u) then Step(t, Failure(DuplicateName(u.name.value)))
      else if NoFields(u) then Step(t, Success(Some(s)))
      else
        var s' := Patch(s, u, t.clock);
        Step(Table(Replace(t.rows, s'), t.nextId, t.clock + 1), Success(Some(s')))
  }

  /** With ordered ids, overwriting the row with the id of row k changes
      row k and no other. */
  lemma ReplaceAt(rows: seq<Sweet>, k: nat, s': Sweet)
    requires InsertionOrdered(rows) && k < |rows| && s'.id == rows[k].id
    ensures |Replace(rows, s')| == |rows|
    ensures forall i :: 0 <= i < |rows| ==> Replace(rows, s')[i] == if i == k then s' else rows[i]
  {
    forall i | 0 <= i < |rows| && i != k
      ensures rows[i].id != s'.id
    {
      if i < k { assert rows[i].id < rows[k].id; } else { assert rows[k].id < rows[i].id; }
    }
  }

  lemma ReplaceKeepsNames(rows: seq<Sweet>, k: nat, s': Sweet)
    requires InsertionOrdered(rows) && NamesDistinct(rows) && k < |rows| && s'.id == rows[k].id
    requires forall i :: 0 <= i < |rows| && i != k ==> rows[i].name != s'.name
    ensures NamesDistinct(Replace(rows, s'))
  {
    ReplaceAt(rows, k, s');
  }

  lemma ReplaceKeepsOrder(rows: seq<Sweet>, k: nat, s': Sweet)
    requires InsertionOrdered(rows) && k < |rows|
    requires s'.id == rows[k].id && s'.createdAt == rows[k].createdAt
    ensures InsertionOrdered(Replace(rows, s'))
  {
    ReplaceAt(rows, k, s');
    var r := Replace(rows, s');
    forall i, j | 0 <= i < j < |r|
      ensures r[i].id < r[j].id && r[i].createdAt < r[j].createdAt
    {
      assert rows[i].id < rows[j].id && rows[i].createdAt < rows[j].createdAt;
    }
  }

  /** Overwriting one row keeps the table valid when the new row keeps the
      id and creation tick, gets a current update tick and takes no name
      another row holds. */
  lemma ReplaceKeepsValid(t: Table, k: nat, s': Sweet, clock': nat)
    requires Valid(t) && k < |t.rows| && t.clock <= clock'
    requires s'.id == t.rows[k].id && s'.createdAt == t.rows[k].createdAt && s'.updatedAt < clock'
    requires forall i :: 0 <= i < |t.rows| && i != k ==> t.rows[i].name != s'.name
    ensures Valid(Table(Replace(t.rows, s'), t.nextId, clock'))
  {
    ReplaceKeepsNames(t.rows, k, s');
    ReplaceKeepsOrder(t.rows, k, s');
    ReplaceAt(t.rows, k, s');
  }

  lemma UpdatePreservesValid(t: Table, id: int, u: SweetUpdate)
    requires Valid(t)
    ensures Valid(Update(t, id, u).table)
  {
    if Lookup(t.rows, id).Some? {
      var k := LookupIndex(t.rows, id);
      var s := t.rows[k];
      if !RenameClashes(t.rows, s, u) && !NoFields(u) {
        var s' := Patch(s, u, t.clock);
        forall i | 0 <= i < |t.rows| && i != k
          ensures t.rows[i].name != s'.name
        {
          if u.name.Some? && u.name.value != s.name {
            assert t.rows[i].id != id;
          } else {
            assert s'.name == s.name;
            if i < k { assert t.rows[i].name != t.rows[k].name; } else { assert t.rows[k].name != t.rows[i].name; }
          }
        }
        ReplaceKeepsValid(t, k, s', t.clock + 1);
      }
    }
  }

  /** Updating an unknown id, or supplying no field, changes nothing;
      otherwise only the updated row changes, its supplied fields take the
      new values and its other fields stay. */
  lemma UpdateChangesOnlyTarget(t: Table, id: int, u: SweetUpdate, j: int)
    requires Update(t, id, u).out.Success?
    ensures j != id ==> Lookup(Update(t, id, u).table.rows, j) == Lookup(t.rows, j)
    ensures Lookup(t.rows, id).Some? && !NoFields(u) ==>
      Lookup(Update(t, id, u).table.rows, id) == Some(Patch(Lookup(t.rows, id).value, u, t.clock))
  {
    if Lookup(t.rows, id).Some? && !NoFields(u) {
      var s := Lookup(t.rows, id).value;
      LookupReplace(t.rows, Patch(s, u, t.clock), j);
      LookupReplace(t.rows, Patch(s, u, t.clock), id);
    }
  }

  // ------------------------------------------------------------------
  // Purchase and restock

  function QuantityOnly(q: real): SweetUpdate {
    SweetUpdate(None, None, None, None, Some(q))
  }

  /** The table after updateSweet writes only a new stock `q` into the
      stored row `s`: that row replaced, with a current update tick. */
  function StockWritten(t: Table, s: Sweet, q: real): Table {
    Table(Replace(t.rows, s.(quantity := q, updatedAt := t.clock)), t.nextId, t.clock + 1)
  }

  /** Writing only the stock of a stored row keeps the table valid. */
  lemma StockWrittenKeepsValid(t: Table, s: Sweet, q: real, written: Table)
    requires Valid(t) && s in t.rows && written == StockWritten(t, s, q)
    ensures Valid(written)
  {
    var k :| 0 <= k < |t.rows| && t.rows[k] == s;
    var s' := s.(quantity := q, updatedAt := t.clock);
    forall i | 0 <= i < |t.rows| && i != k
      ensures t.rows[i].name != s'.name
    {
      if i < k { assert t.rows[i].name != t.rows[k].name; } else { assert t.rows[k].name != t.rows[i].name; }
    }
    ReplaceKeepsValid(t, k, s', t.clock + 1);
  }

  /** purchaseSweet: read the row, refuse when stock < q, otherwise write
      stock - q through updateSweet. */
  function Purchase(t: Table, id: int, q: real): (r: Step<Result<Option<Sweet>, ServiceError>>)
    ensures Lookup(t.rows, id).None? ==> r == Step(t, Success(None))
    ensures Lookup(t.rows, id).Some? && Lookup(t.rows, id).value.quantity < q ==>
      r == Step(t, Failure(InsufficientStock))
    ensures Lookup(t.rows, id).Some? && q <= Lookup(t.rows, id).value.quantity ==>
      var s := Lookup(t.rows, id).value;
      && r.out == Success(Some(s.(quantity := s.quantity - q, updatedAt := t.clock)))
      && r.out.value.value.quantity >= 0.0
      && r.table == StockWritten(t, s, s.quantity - q)
  {
    match Lookup(t.rows, id)
    case None => Step(t, Success(None))
    case Some(s) =>
      if s.quantity < q then Step(t, Failure(InsufficientStock))
      else Step(StockWritten(t, s, s.quantity - q), Success(Some(s.(quantity := s.quantity - q, updatedAt := t.clock))))
  }

  /** restockSweet: read the row, write stock + q through updateSweet. */
  function Restock(t: Table, id: int, q: real): (r: Step<Result<Option<Sweet>, ServiceError>>)
    ensures Lookup(t.rows, id).None? ==> r == Step(t, Success(None))
    ensures Lookup(t.rows, id).Some? ==>
      var s := Lookup(t.rows, id).value;
      && r.out == Success(Some(s.(quantity := s.quantity + q, updatedAt := t.clock)))
      && r.table == StockWritten(t, s, s.quantity + q)
  {
    match Lookup(t.rows, id)
    case None => Step(t, Success(None))
    case Some(s) => Step(StockWritten(t, s, s.quantity + q), Success(Some(s.(quantity := s.quantity + q, updatedAt := t.clock))))
  }

  /** A purchase the stock covers writes the decremented stock. */
  lemma PurchaseWritesStock(t: Table, id: int, q: real)
    requires Lookup(t.rows, id).Some? && q <= Lookup(t.rows, id).value.quantity
    ensures Purchase(t, id, q).table == StockWritten(t, Lookup(t.rows, id).value, Lookup(t.rows, id).value.quantity - q)
  {
  }

  /** A restock of a stored row writes the incremented stock. */
  lemma RestockWritesStock(t: Table, id: int, q: real)
    requires Lookup(t.rows, id).Some?
    ensures Restock(t, id, q).table == StockWritten(t, Lookup(t.rows, id).value, Lookup(t.rows, id).value.quantity + q)
  {
  }

  lemma PurchasePreservesValid(t: Table, id: int, q: real)
    requires Valid(t)
    ensures Valid(Purchase(t, id, q).table)
  {
    if Lookup(t.rows, id).Some? && q <= Lookup(t.rows, id).value.quantity {
      PurchaseWriteKeepsValid(t, id, q);
    } else {
      PurchaseRefusedKeepsTable(t, id, q);
    }
  }

  lemma PurchaseWriteKeepsValid(t: Table, id: int, q: real)
    requires Valid(t) && Lookup(t.rows, id).Some? && q <= Lookup(t.rows, id).value.quantity
    ensures Valid(Purchase(t, id, q).table)
  {
    var s := Lookup(t.rows, id).value;
    var written := StockWritten(t, s, s.quantity - q);
    LookupFound(t.rows, id);
    StockWrittenKeepsValid(t, s, s.quantity - q, written);
    PurchaseWritesStock(t, id, q);
  }

  /** A purchase of an unknown id or beyond the stock leaves the table. */
  lemma PurchaseRefusedKeepsTable(t: Table, id: int, q: real)
    requires Lookup(t.rows, id).None? || Lookup(t.rows, id).value.quantity < q
    ensures Purchase(t, id, q).table == t
  {
  }

  lemma RestockPreservesValid(t: Table, id: int, q: real)
    requires Valid(t)
    ensures Valid(Restock(t, id, q).table)
  {
    if Lookup(t.rows, id).Some? {
      var s := Lookup(t.rows, id).value;
      var written := StockWritten(t, s, s.quantity + q);
      LookupFound(t.rows, id);
      StockWrittenKeepsValid(t, s, s.quantity + q, written);
      RestockWritesStock(t, id, q);
    }
  }

  /** Stock never goes negative through a purchase, whatever q is: the
      decrement happens only when q <= stock. */
  lemma PurchaseKeepsStockNonNegative(t: Table, id: int, q: real)
    requires StockNonNegative(t.rows)
    ensures StockNonNegative(Purchase(t, id, q).table.rows)
  {
  }

  lemma RestockKeepsStockNonNegative(t: Table, id: int, q: real)
    requires StockNonNegative(t.rows) && q >= 0.0
    ensures StockNonNegative(Restock(t, id, q).table.rows)
  {
    LookupFound(t.rows, id);
  }

  /** A refused purchase is refused again on the unchanged table. */
  lemma InsufficientStockIsStable(t: Table, id: int, q: real)
    requires Purchase(t, id, q).out == Failure(InsufficientStock)
    ensures Purchase(Purchase(t, id, q).table, id, q).out == Failure(InsufficientStock)
    ensures Purchase(t, id, q).table == t
  {
  }

  /** Restocking q and then purchasing q gives back the original stock and
      leaves every other sweet as it was. */
  lemma RestockThenPurchaseRestoresStock(t: Table, id: int, q: real)
    requires Lookup(t.rows, id).Some? && Lookup(t.rows, id).value.quantity >= 0.0
    ensures var t2 := Purchase(Restock(t, id, q).table, id, q);
      && t2.out.Success? && t2.out.value.Some?
      && t2.out.value.value.quantity == Lookup(t.rows, id).value.quantity
      && Lookup(t2.table.rows, id) == t2.out.value
      && forall j :: j != id ==> Lookup(t2.table.rows, j) == Lookup(t.rows, j)
  {
    var s := Lookup(t.rows, id).value;
    var s1 := s.(quantity := s.quantity + q, updatedAt := t.clock);
    var t1 := Table(Replace(t.rows, s1), t.nextId, t.clock + 1);
    assert Restock(t, id, q).table == t1;
    LookupReplace(t.rows, s1, id);
    assert Lookup(t1.rows, id) == Some(s1);
    var s2 := s1.(quantity := s1.quantity - q, updatedAt := t1.clock);
    var t2 := Table(Replace(t1.rows, s2), t1.nextId, t1.clock + 1);
    assert Purchase(t1, id, q) == Step(t2, Success(Some(s2)));
    LookupReplace(t1.rows, s2, id);
    forall j | j != id
      ensures Lookup(t2.rows, j) == Lookup(t.rows, j)
    {
      LookupReplace(t.rows, s1, j);
      LookupReplace(t1.rows, s2, j);
    }
  }

  // ------------------------------------------------------------------
  // Delete

  function Delete(t: Table, id: int): (r: Step<bool>)
    ensures r.out <==> Lookup(t.rows, id).Some?
    ensures r.table.nextId == t.nextId && r.table.clock == t.clock
  {
    Step(Table(Remove(t.rows, id), t.nextId, t.clock), Lookup(t.rows, id).Some?)
  }

  /** `changes > 0`: the delete removed a row exactly when the id existed. */
  lemma {:induction false} RemoveShrinksIff(rows: seq<Sweet>, id: int)
    ensures |Remove(rows, id)| < |rows| <==> Lookup(rows, id).Some?
  {
    if rows != [] {
      RemoveShrinksIff(rows[1..], id);
      if rows[0].id != id {
        assert Remove(rows, id) == [rows[0]] + Remove(rows[1..], id);
      }
    }
  }

  /** After a delete no row has the id, and every other row is untouched. */
  lemma DeleteRemovesOnlyTarget(t: Table, id: int, j: int)
    ensures Lookup(Delete(t, id).table.rows, id).None?
    ensures j != id ==> Lookup(Delete(t, id).table.rows, j) == Lookup(t.rows, j)
  {
    LookupRemove(t.rows, id, id);
    LookupRemove(t.rows, id, j);
  }

  lemma DeletePreservesValid(t: Table, id: int)
    requires Valid(t)
    ensures Valid(Delete(t, id).table)
  {
    RemoveKeepsOrder(t.rows, id);
    NamesDistinctOfMembers(t.rows, Remove(t.rows, id));
    var r := Remove(t.rows, id);
    forall i | 0 <= i < |r|
      ensures r[i].id < t.nextId && r[i].createdAt < t.clock && r[i].updatedAt < t.clock
    {
      assert r[i] in t.rows;
    }
  }

  // ------------------------------------------------------------------
  // Listing and search

  /** getAllSweets: `ORDER BY created_at DESC`. */
  function AllSweets(rows: seq<Sweet>): (r: seq<Sweet>)
    requires InsertionOrdered(rows)
    ensures |r| == |rows|
    ensures forall x :: x in r <==> x in rows
    ensures forall i, j :: 0 <= i < j < |r| ==> r[i].createdAt > r[j].createdAt
  {
    var r := Reverse(rows);
    assert forall x :: x in r <==> x in rows by {
      forall x ensures x in r <==> x in rows { ReverseMembership(rows, x); }
    }
    r
  }

  predicate NewestFirst(xs: seq<Sweet>) {
    forall i, j :: 0 <= i < j < |xs| ==> xs[i].createdAt > xs[j].createdAt
  }

  /** SQLite's LIKE: `%` matches any run, `_` any one character, ASCII
      letters match either case, and there is no escape character. */
  predicate Like(s: string, p: string)
    decreases |s| + |p|
  {
    if p == [] then s == []
    else if p[0] == '%' then Like(s, p[1..]) || (s != [] && Like(s[1..], p))
    else s != [] && (p[0] == '_' || SameIgnoringCase(s[0], p[0])) && Like(s[1..], p[1..])
  }

  predicate NoWildcards(p: string) {
    forall k :: 0 <= k < |p| ==> p[k] != '%' && p[k] != '_'
  }

  /** JavaScript truthiness of an optional string. */
  predicate HasText(x: Option<string>) {
    x.Some? && x.value != ""
  }

  /** The AND of the filters searchSweets applies; empty name or category
      and absent bounds are skipped, and the bounds are on the legacy
      `price` column. */
  predicate MatchesFilters(f: SearchFilters, s: Sweet) {
    && (HasText(f.name) ==> Like(s.name, "%" + f.name.value + "%"))
    && (HasText(f.category) ==> s.category == f.category.value)
    && (f.minPrice.Some? ==> s.price >= f.minPrice.value)
    && (f.maxPrice.Some? ==> s.price <= f.maxPrice.value)
  }

  function Filter(xs: seq<Sweet>, f: SearchFilters): (r: seq<Sweet>)
    ensures |r| <= |xs|
    ensures forall x :: x in r <==> x in xs && MatchesFilters(f, x)
  {
    if xs == [] then []
    else (if MatchesFilters(f, xs[0]) then [xs[0]] else []) + Filter(xs[1..], f)
  }

  /** searchSweets: the filtered catalog, in getAllSweets order. */
  function Search(rows: seq<Sweet>, f: SearchFilters): (r: seq<Sweet>)
    requires InsertionOrdered(rows)
    ensures |r| <= |rows|
    ensures forall x :: x in r ==> x in rows && MatchesFilters(f, x)
  {
    Filter(AllSweets(rows), f)
  }

  lemma {:induction false} FilterKeepsNewestFirst(xs: seq<Sweet>, f: SearchFilters)
    requires NewestFirst(xs)
    ensures NewestFirst(Filter(xs, f))
  {
    if xs != [] {
      FilterKeepsNewestFirst(xs[1..], f);
      var tail := Filter(xs[1..], f);
      forall j | 0 <= j < |tail|
        ensures xs[0].createdAt > tail[j].createdAt
      {
        assert tail[j] in xs[1..];
        var k :| 0 <= k < |xs[1..]| && xs[1..][k] == tail[j];
        assert xs[k + 1] == tail[j];
      }
    }
  }

  /** Every search result is a sweet of the catalog that passes all the
      filters, every such sweet is in the result, and the result is newest
      first. */
  lemma SearchSpec(rows: seq<Sweet>, f: SearchFilters)
    requires InsertionOrdered(rows)
    ensures forall x :: x in Search(rows, f) <==> x in rows && MatchesFilters(f, x)
    ensures NewestFirst(Search(rows, f))
  {
    FilterKeepsNewestFirst(AllSweets(rows), f);
  }

  lemma {:induction false} FilterEverything(xs: seq<Sweet>, f: SearchFilters)
    requires forall i :: 0 <= i < |xs| ==> MatchesFilters(f, xs[i])
    ensures Filter(xs, f) == xs
  {
    if xs != [] {
      FilterEverything(xs[1..], f);
      assert xs == [xs[0]] + xs[1..];
    }
  }

  /** With no usable filter the search returns the whole catalog in
      getAllSweets order. */
  lemma SearchWithoutFiltersIsAll(rows: seq<Sweet>, f: SearchFilters)
    requires InsertionOrdered(rows)
    requires !HasText(f.name) && !HasText(f.category) && f.minPrice.None? && f.maxPrice.None?
    ensures Search(rows, f) == AllSweets(rows)
  {
    FilterEverything(AllSweets(rows), f);
  }

  lemma {:induction false} LikeAnything(s: string)
    ensures Like(s, "%")
  {
    assert "%"[1..] == "";
    if s != [] {
      LikeAnything(s[1..]);
    }
  }

  lemma {:induction false} LikeLiteralThenAnything(s: string, p: string)
    requires NoWildcards(p)
    ensures Like(s, p + "%") <==> PrefixIgnoringCase(p, s)
    decreases |p|
  {
    if p == [] {
      assert p + "%" == "%";
      LikeAnything(s);
    } else {
      var q := p + "%";
      assert q[0] == p[0] && q[1..] == p[1..] + "%";
      if s != [] {
        LikeLiteralThenAnything(s[1..], p[1..]);
        if PrefixIgnoringCase(p[1..], s[1..]) && SameIgnoringCase(s[0], p[0]) {
          forall k | 0 <= k < |p|
            ensures SameIgnoringCase(s[k], p[k])
          {
            if k > 0 {
              assert s[1..][k - 1] == s[k] && p[1..][k - 1] == p[k];
            }
          }
        }
        if PrefixIgnoringCase(p, s) {
          forall k | 0 <= k < |p| - 1
            ensures SameIgnoringCase(s[1..][k], p[1..][k])
          {
            assert s[1..][k] == s[k + 1] && p[1..][k] == p[k + 1];
          }
        }
      }
    }
  }

  lemma ContainsStep(s: string, p: string)
    requires s != []
    ensures ContainsIgnoringCase(s, p) <==> PrefixIgnoringCase(p, s) || ContainsIgnoringCase(s[1..], p)
  {
    assert s[0..] == s;
    if ContainsIgnoringCase(s, p) {
      var i :| 0 <= i <= |s| && PrefixIgnoringCase(p, s[i..]);
      if i > 0 {
        assert s[1..][i - 1..] == s[i..];
      }
    }
    if ContainsIgnoringCase(s[1..], p) {
      var i :| 0 <= i <= |s[1..]| && PrefixIgnoringCase(p, s[1..][i..]);
      assert s[1..][i..] == s[i + 1..];
    }
  }

  /** A name filter without `%` or `_` is a case-insensitive (ASCII)
      substring test. */
  lemma {:induction false} NameFilterIsSubstring(s: string, p: string)
    requires NoWildcards(p)
    ensures Like(s, "%" + p + "%") <==> ContainsIgnoringCase(s, p)
    decreases |s|
  {
    var pat := "%" + p + "%";
    assert pat[0] == '%' && pat[1..] == p + "%";
    LikeLiteralThenAnything(s, p);
    if s == [] {
      assert s[0..] == s;
    } else {
      NameFilterIsSubstring(s[1..], p);
      ContainsStep(s, p);
    }
  }

  /** The filter text is not escaped: `_` in it matches any character, so
      the filter "_" selects every non-empty name. */
  lemma UnderscoreFilterMatchesAnyName()
    ensures Like("abc", "%" + "_" + "%")
    ensures !ContainsIgnoringCase("abc", "_")
  {
    var pat := "%" + "_" + "%";
    assert pat[1..] == "_%";
    assert "_%"[1..] == "%";
    LikeAnything("bc");
    assert "abc"[1..] == "bc";
    forall i | 0 <= i <= 3
      ensures !PrefixIgnoringCase("_", "abc"[i..])
    {
      if i < 3 {
        assert "abc"[i..][0] == "abc"[i];
      }
    }
  }
}
