/** The SweetService class: the catalog held in fields and changed step by
    step, each method proved to leave exactly the table the matching
    function of SweetCatalog describes. */
module SweetService {
  import opened Wrappers
  import opened SweetModel
  import opened SweetCatalog

  /** A column named in the SET list of updateSweet. */
  datatype Column = NameColumn | CategoryColumn | PriceColumn | PricePerKiloColumn | QuantityColumn

  /** A condition appended to searchSweets' WHERE clause. */
  datatype Condition =
    | NameLike(pattern: string)
    | CategoryIs(category: string)
    | PriceAtLeast(bound: real)
    | PriceAtMost(bound: real)

  predicate Holds(c: Condition, s: Sweet) {
    match c
    case NameLike(p) => Like(s.name, p)
    case CategoryIs(k) => s.category == k
    case PriceAtLeast(b) => s.price >= b
    case PriceAtMost(b) => s.price <= b
  }

  /** `WHERE 1=1 AND c1 AND c2 ...`. */
  predicate HoldsAll(cs: seq<Condition>, s: Sweet) {
    forall i :: 0 <= i < |cs| ==> Holds(cs[i], s)
  }

  /** The rows the assembled query selects, in the order given. */
  function Select(xs: seq<Sweet>, cs: seq<Condition>): (r: seq<Sweet>)
    ensures forall x :: x in r <==> x in xs && HoldsAll(cs, x)
  {
    if xs == [] then []
    else (if HoldsAll(cs, xs[0]) then [xs[0]] else []) + Select(xs[1..], cs)
  }

  /** A query whose conditions accept exactly the sweets the filters accept
      selects what Filter keeps. */
  lemma {:induction false} SelectIsFilter(xs: seq<Sweet>, cs: seq<Condition>, f: SearchFilters)
    requires forall s :: HoldsAll(cs, s) <==> MatchesFilters(f, s)
    ensures Select(xs, cs) == Filter(xs, f)
  {
    if xs != [] {
      SelectIsFilter(xs[1..], cs, f);
    }
  }

  /** `SELECT id FROM sweets WHERE name = ? [AND id != ?]`: the first such row. */
  function FindByName(rows: seq<Sweet>, name: string, except: Option<int>): (r: Option<Sweet>)
    ensures r.Some? <==> NameTaken(rows, name, except)
    ensures r.Some? ==> r.value in rows && r.value.name == name
    ensures r.Some? && except.Some? ==> r.value.id != except.value
  {
    if rows == [] then None
    else if rows[0].name == name && (except.None? || rows[0].id != except.value) then Some(rows[0])
    else
      var r := FindByName(rows[1..], name, except);
      assert r.Some? <==> NameTaken(rows, name, except) by {
        if NameTaken(rows, name, except) {
          var i :| 0 <= i < |rows| && rows[i].name == name && (except.None? || rows[i].id != except.value);
          assert i > 0 && rows[1..][i - 1] == rows[i];
        }
        if r.Some? {
          var i :| 0 <= i < |rows[1..]| && rows[1..][i] == r.value;
          assert rows[i + 1] == r.value;
        }
      }
      r
  }

  /** The SET list of updateSweet: one column per supplied field, in the
      order name, category, price, price_per_kilo, quantity, and the row
      those assignments produce (its update tick not yet set). */
  method SetList(s: Sweet, updates: SweetUpdate) returns (fields: seq<Column>, patched: Sweet)
    ensures |fields| == 0 <==> NoFields(updates)
    ensures NameColumn in fields <==> updates.name.Some?
    ensures CategoryColumn in fields <==> updates.category.Some?
    ensures PriceColumn in fields <==> updates.price.Some?
    ensures PricePerKiloColumn in fields <==> updates.pricePerKilo.Some?
    ensures QuantityColumn in fields <==> updates.quantity.Some?
    ensures patched == Patch(s, updates, s.updatedAt)
  {
    fields := [];
    patched := s;
    if updates.name.Some? {
      fields := fields + [NameColumn];
      patched := patched.(name := updates.name.value);
    }
    if updates.category.Some? {
      fields := fields + [CategoryColumn];
      patched := patched.(category := updates.category.value);
    }
    if updates.price.Some? {
      fields := fields + [PriceColumn];
      patched := patched.(price := updates.price.value);
    }
    if updates.pricePerKilo.Some? {
      fields := fields + [PricePerKiloColumn];
      patched := patched.(pricePerKilo := updates.pricePerKilo.value);
    }
    if updates.quantity.Some? {
      fields := fields + [QuantityColumn];
      patched := patched.(quantity := updates.quantity.value);
    }
  }

  class SweetService {
    var rows: seq<Sweet>
    var nextId: nat
    var clock: nat

    function Model(): Table
      reads this
    {
      Table(rows, nextId, clock)
    }

    ghost predicate Valid()
      reads this
    {
      SweetCatalog.Valid(Model())
    }

    constructor ()
      ensures Valid() && Model() == EmptyTable
    {
      rows := [];
      nextId := 1;
      clock := 0;
    }

    method CreateSweet(data: SweetCreate) returns (r: Result<Sweet, ServiceError>)
      requires Valid()
      modifies this
      ensures Valid()
      ensures Model() == Create(old(Model()), data).table && r == Create(old(Model()), data).out
    {
      if data.name == "" || data.category == ""
         || (!Truthy(data.pricePerKilo) && data.price.None?)
         || (data.pricePerKilo.Some? && data.pricePerKilo.value < 0.0)
      {
        return Failure(InvalidSweetData);
      }
      var existing := FindByName(rows, data.name, None);
      if existing.Some? {
        return Failure(DuplicateName(data.name));
      }
      var finalPricePerKilo := OrElse(data.pricePerKilo, OrElse(data.price, 0.0));
      var finalPrice := OrElse(data.price, finalPricePerKilo);
      var quantity := data.quantity.GetOr(0.0);
      var sweet := Sweet(nextId, data.name, data.category, finalPrice, finalPricePerKilo, quantity, clock, clock);
      rows := rows + [sweet];
      nextId := nextId + 1;
      clock := clock + 1;
      CreatePreservesValid(old(Model()), data);
      r := Success(sweet);
    }

    method GetAllSweets() returns (r: seq<Sweet>)
      requires Valid()
      ensures r == AllSweets(rows)
      ensures forall x :: x in r <==> x in rows
      ensures NewestFirst(r)
    {
      r := AllSweets(rows);
    }

    method GetSweetById(id: int) returns (r: Option<Sweet>)
      ensures r == Lookup(rows, id)
      ensures r.Some? ==> r.value in rows && r.value.id == id
      ensures r.None? <==> forall i :: 0 <= i < |rows| ==> rows[i].id != id
    {
      r := Lookup(rows, id);
      LookupFound(rows, id);
      LookupAbsent(rows, id);
    }

    method UpdateSweet(id: int, updates: SweetUpdate) returns (r: Result<Option<Sweet>, ServiceError>)
      requires Valid()
      modifies this
      ensures Valid()
      ensures Model() == Update(old(Model()), id, updates).table && r == Update(old(Model()), id, updates).out
    {
      ghost var t := Model();
      var existing := GetSweetById(id);
      if existing.None? {
        return Success(None);
      }
      var s := existing.value;
      if updates.name.Some? && updates.name.value != s.name {
        var duplicate := FindByName(rows, updates.name.value, Some(id));
        if duplicate.Some? {
          assert RenameClashes(t.rows, s, updates);
          return Failure(DuplicateName(updates.name.value));
        }
      }
      assert !RenameClashes(t.rows, s, updates);
      var updateFields, patched := SetList(s, updates);
      if |updateFields| == 0 {
        assert Update(t, id, updates) == Step(t, Success(Some(s)));
        return Success(Some(s));
      }
      patched := patched.(updatedAt := clock);
      assert patched == Patch(s, updates, t.clock);
      assert Update(t, id, updates) == Step(Table(Replace(t.rows, patched), t.nextId, t.clock + 1), Success(Some(patched)));
      UpdatePreservesValid(t, id, updates);
      LookupReplace(t.rows, patched, id);
      Save(patched);
      assert Model() == Update(t, id, updates).table;
      var after := GetSweetById(id);
      assert after == Some(patched);
      r := Success(after);
    }

    /** `UPDATE sweets SET ... WHERE id = ?` with the row already computed;
        CURRENT_TIMESTAMP moves on. */
    method Save(patched: Sweet)
      modifies this
      ensures Model() == Table(Replace(old(rows), patched), old(nextId), old(clock) + 1)
    {
      rows := Replace(rows, patched);
      clock := clock + 1;
    }

    method DeleteSweet(id: int) returns (deleted: bool)
      requires Valid()
      modifies this
      ensures Valid()
      ensures Model() == Delete(old(Model()), id).table && deleted == Delete(old(Model()), id).out
    {
      var before := |rows|;
      DeletePreservesValid(Model(), id);
      RemoveShrinksIff(rows, id);
      rows := Remove(rows, id);
      deleted := |rows| < before;
    }

    method SearchSweets(filters: SearchFilters) returns (r: seq<Sweet>)
      requires Valid()
      ensures r == Search(rows, filters)
      ensures forall x :: x in r <==> x in rows && MatchesFilters(filters, x)
      ensures NewestFirst(r)
    {
      var conditions: seq<Condition> := [];
      if HasText(filters.name) {
        conditions := conditions + [NameLike("%" + filters.name.value + "%")];
      }
      if HasText(filters.category) {
        conditions := conditions + [CategoryIs(filters.category.value)];
      }
      if filters.minPrice.Some? {
        conditions := conditions + [PriceAtLeast(filters.minPrice.value)];
      }
      if filters.maxPrice.Some? {
        conditions := conditions + [PriceAtMost(filters.maxPrice.value)];
      }
      assert conditions == ConditionsFor(filters);
      forall s
        ensures HoldsAll(conditions, s) <==> MatchesFilters(filters, s)
      {
        ConditionsMatchFilters(filters, conditions, s);
      }
      r := Select(AllSweets(rows), conditions);
      SelectIsFilter(AllSweets(rows), conditions, filters);
      SearchSpec(rows, filters);
    }

    method PurchaseSweet(id: int, quantity: real) returns (r: Result<Option<Sweet>, ServiceError>)
      requires Valid()
      modifies this
      ensures Valid()
      ensures Model() == SweetCatalog.Purchase(old(Model()), id, quantity).table && r == SweetCatalog.Purchase(old(Model()), id, quantity).out
    {
      ghost var t := Model();
      ghost var spec := SweetCatalog.Purchase(t, id, quantity);
      var sweet := GetSweetById(id);
      if sweet.None? {
        assert spec == Step(t, Success(None));
        return Success(None);
      }
      if sweet.value.quantity < quantity {
        assert spec == Step(t, Failure(InsufficientStock));
        return Failure(InsufficientStock);
      }
      var newQuantity := sweet.value.quantity - quantity;
      PatchStockOnly(sweet.value, newQuantity, t.clock);
      r := UpdateSweet(id, QuantityOnly(newQuantity));
      assert Model() == spec.table && r == spec.out;
    }

    method RestockSweet(id: int, quantity: real) returns (r: Result<Option<Sweet>, ServiceError>)
      requires Valid()
      modifies this
      ensures Valid()
      ensures Model() == Restock(old(Model()), id, quantity).table && r == Restock(old(Model()), id, quantity).out
    {
      ghost var t := Model();
      ghost var spec := Restock(t, id, quantity);
      var sweet := GetSweetById(id);
      if sweet.None? {
        assert spec == Step(t, Success(None));
        return Success(None);
      }
      var newQuantity := sweet.value.quantity + quantity;
      PatchStockOnly(sweet.value, newQuantity, t.clock);
      r := UpdateSweet(id, QuantityOnly(newQuantity));
      assert Model() == spec.table && r == spec.out;
    }
  }

  /** Patching the stock alone changes the stock and the update tick and
      nothing else. */
  lemma PatchStockOnly(s: Sweet, q: real, tick: nat)
    ensures Patch(s, QuantityOnly(q), tick) == s.(quantity := q, updatedAt := tick)
    ensures !NoFields(QuantityOnly(q))
  {
  }

  /** The conditions searchSweets pushes, one per usable filter. */
  function ConditionsFor(f: SearchFilters): (cs: seq<Condition>)
    ensures |cs| <= 4
    ensures cs == [] <==> !HasText(f.name) && !HasText(f.category) && f.minPrice.None? && f.maxPrice.None?
  {
    (if HasText(f.name) then [NameLike("%" + f.name.value + "%")] else [])
    + (if HasText(f.category) then [CategoryIs(f.category.value)] else [])
    + (if f.minPrice.Some? then [PriceAtLeast(f.minPrice.value)] else [])
    + (if f.maxPrice.Some? then [PriceAtMost(f.maxPrice.value)] else [])
  }

  /** The assembled WHERE clause means the same as MatchesFilters. */
  lemma ConditionsMatchFilters(f: SearchFilters, cs: seq<Condition>, s: Sweet)
    requires cs == ConditionsFor(f)
    ensures HoldsAll(cs, s) <==> MatchesFilters(f, s)
  {
    var a := if HasText(f.name) then [NameLike("%" + f.name.value + "%")] else [];
    var b := if HasText(f.category) then [CategoryIs(f.category.value)] else [];
    var c := if f.minPrice.Some? then [PriceAtLeast(f.minPrice.value)] else [];
    var d := if f.maxPrice.Some? then [PriceAtMost(f.maxPrice.value)] else [];
    assert cs == a + b + c + d;
    assert HoldsAll(a, s) <==> (HasText(f.name) ==> Like(s.name, "%" + f.name.value + "%")) by {
      if HasText(f.name) { assert a[0] == NameLike("%" + f.name.value + "%"); }
    }
    assert HoldsAll(b, s) <==> (HasText(f.category) ==> s.category == f.category.value) by {
      if HasText(f.category) { assert b[0] == CategoryIs(f.category.value); }
    }
    assert HoldsAll(c, s) <==> (f.minPrice.Some? ==> s.price >= f.minPrice.value) by {
      if f.minPrice.Some? { assert c[0] == PriceAtLeast(f.minPrice.value); }
    }
    assert HoldsAll(d, s) <==> (f.maxPrice.Some? ==> s.price <= f.maxPrice.value) by {
      if f.maxPrice.Some? { assert d[0] == PriceAtMost(f.maxPrice.value); }
    }
    assert HoldsAll(cs, s) <==> HoldsAll(a, s) && HoldsAll(b, s) && HoldsAll(c, s) && HoldsAll(d, s) by {
      HoldsAllAppend(a + b + c, d, s);
      HoldsAllAppend(a + b, c, s);
      HoldsAllAppend(a, b, s);
    }
  }

  lemma HoldsAllAppend(xs: seq<Condition>, ys: seq<Condition>, s: Sweet)
    ensures HoldsAll(xs + ys, s) <==> HoldsAll(xs, s) && HoldsAll(ys, s)
  {
    if HoldsAll(xs, s) && HoldsAll(ys, s) {
      forall i | 0 <= i < |xs + ys|
        ensures Holds((xs + ys)[i], s)
      {
        if i >= |xs| { assert (xs + ys)[i] == ys[i - |xs|]; }
      }
    }
    if HoldsAll(xs + ys, s) {
      forall i | 0 <= i < |xs|
        ensures Holds(xs[i], s)
      {
        assert (xs + ys)[i] == xs[i];
      }
      forall i | 0 <= i < |ys|
        ensures Holds(ys[i], s)
      {
        assert (xs + ys)[i + |xs|] == ys[i];
      }
    }
  }
}
