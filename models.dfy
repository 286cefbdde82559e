/** The three tables of the service (restaurants, pizzas and the
    restaurant_pizzas join table carrying a price), the price validator, the
    two one-to-many relationships with their cascading delete, and the two
    association proxies derived from them. */
module Models {
  import opened Wrappers
  import opened OrderedKeys

  datatype Restaurant = Restaurant(id: int, name: string, address: string)

  datatype Pizza = Pizza(id: int, name: string, ingredients: string)

  /** A join row. Its price, pizza id and restaurant id are plain integers:
      the columns are declared non-null, so no row can lack one. */
  datatype RestaurantPizza = RestaurantPizza(id: int, price: int, pizzaId: int, restaurantId: int)

  const MinPrice: int := 1
  const MaxPrice: int := 30
  const PriceError: string := "Price must be between 1 and 30"

  /** The validator run whenever a join row's price is set; a failure stands
      for the ValueError it raises. */
  function ValidatePrice(value: int): (r: Result<int, string>)
    ensures r.Success? <==> MinPrice <= value <= MaxPrice
    ensures r.Success? ==> r.value == value
    ensures r.Failure? ==> r.error == PriceError
  {
    if value < MinPrice || value > MaxPrice then Failure(PriceError) else Success(value)
  }

  lemma ValidatePriceBoundaries()
    ensures ValidatePrice(0) == Failure(PriceError)
    ensures ValidatePrice(31) == Failure(PriceError)
    ensures ValidatePrice(1) == Success(1)
    ensures ValidatePrice(30) == Success(30)
  {
  }

  /** The contents of the three tables, each keyed by primary key. */
  datatype Tables = Tables(
    restaurants: map<int, Restaurant>,
    pizzas: map<int, Pizza>,
    restaurantPizzas: map<int, RestaurantPizza>)

  /** A stored join row under key k: its own id is k, its price passed the
      validator, and both foreign keys name an existing row. */
  predicate RowConsistent(t: Tables, rp: RestaurantPizza, k: int) {
    && rp.id == k
    && ValidatePrice(rp.price).Success?
    && rp.restaurantId in t.restaurants
    && rp.pizzaId in t.pizzas
  }

  /** The schema's invariants over a whole store. */
  predicate Wellformed(t: Tables) {
    && (forall k :: k in t.restaurants ==> t.restaurants[k].id == k)
    && (forall k :: k in t.pizzas ==> t.pizzas[k].id == k)
    && (forall k :: k in t.restaurantPizzas ==> RowConsistent(t, t.restaurantPizzas[k], k))
  }

  /** The two one-to-many relationships onto the join table:
      Restaurant.restaurant_pizzas and Pizza.restaurant_pizzas. */
  datatype Relationship = OfRestaurant | OfPizza

  /** The foreign key a join row holds for a relationship. */
  function ParentId(rp: RestaurantPizza, rel: Relationship): int {
    match rel
    case OfRestaurant => rp.restaurantId
    case OfPizza => rp.pizzaId
  }

  /** A join row is stored when the join table holds exactly it under its id. */
  predicate Stored(t: Tables, rp: RestaurantPizza) {
    rp.id in t.restaurantPizzas && t.restaurantPizzas[rp.id] == rp
  }

  /** The keys of the join rows a parent owns through a relationship. */
  function RowIdsOf(t: Tables, rel: Relationship, parent: int): set<int> {
    set k | k in t.restaurantPizzas && ParentId(t.restaurantPizzas[k], rel) == parent
  }

  function RowsAt(t: Tables, ids: seq<int>): seq<RestaurantPizza>
    requires forall i :: 0 <= i < |ids| ==> ids[i] in t.restaurantPizzas
  {
    seq(|ids|, i requires 0 <= i < |ids| => t.restaurantPizzas[ids[i]])
  }

  /** The relationship collection itself (restaurant.restaurant_pizzas or
      pizza.restaurant_pizzas): exactly the stored join rows whose foreign
      key names the parent, in ascending id order. It is derived from the
      join table, never stored. */
  function RowsOf(t: Tables, rel: Relationship, parent: int): (rows: seq<RestaurantPizza>)
    requires Wellformed(t)
    ensures forall i :: 0 <= i < |rows| ==> Stored(t, rows[i]) && ParentId(rows[i], rel) == parent
    ensures forall rp :: Stored(t, rp) && ParentId(rp, rel) == parent ==> rp in rows
    ensures forall i, j :: 0 <= i < j < |rows| ==> rows[i].id < rows[j].id
  {
    var ids := SortedIds(RowIdsOf(t, rel, parent));
    assert forall i :: 0 <= i < |ids| ==> ids[i] in RowIdsOf(t, rel, parent) by {
      forall i | 0 <= i < |ids| ensures ids[i] in RowIdsOf(t, rel, parent) {
        assert ids[i] in ids;
      }
    }
    var rows := RowsAt(t, ids);
    assert forall i :: 0 <= i < |rows| ==> Stored(t, rows[i]) && ParentId(rows[i], rel) == parent by {
      forall i | 0 <= i < |rows|
        ensures Stored(t, rows[i]) && ParentId(rows[i], rel) == parent
      {
        var k := ids[i];
        assert k in RowIdsOf(t, rel, parent);
        assert RowConsistent(t, t.restaurantPizzas[k], k);
        assert rows[i] == t.restaurantPizzas[k];
      }
    }
    assert forall rp :: Stored(t, rp) && ParentId(rp, rel) == parent ==> rp in rows by {
      forall rp | Stored(t, rp) && ParentId(rp, rel) == parent
        ensures rp in rows
      {
        assert rp.id in RowIdsOf(t, rel, parent);
        var i :| 0 <= i < |ids| && ids[i] == rp.id;
        assert rows[i] == rp;
      }
    }
    rows
  }

  /** The set of ids of some join rows. */
  function IdsOf(rows: seq<RestaurantPizza>): set<int> {
    set rp | rp in rows :: rp.id
  }

  /** The relationship collection holds each owned key once: its ids are
      exactly the owned keys and its length is their number. */
  lemma RowsOfIds(t: Tables, rel: Relationship, parent: int)
    requires Wellformed(t)
    ensures IdsOf(RowsOf(t, rel, parent)) == RowIdsOf(t, rel, parent)
    ensures |RowsOf(t, rel, parent)| == |RowIdsOf(t, rel, parent)|
  {
    var rows := RowsOf(t, rel, parent);
    forall k | k in RowIdsOf(t, rel, parent)
      ensures k in IdsOf(rows)
    {
      assert Stored(t, t.restaurantPizzas[k]);
    }
    forall k | k in IdsOf(rows)
      ensures k in RowIdsOf(t, rel, parent)
    {
      var rp :| rp in rows && rp.id == k;
      var i :| 0 <= i < |rows| && rows[i] == rp;
      assert Stored(t, rows[i]);
    }
    assert |rows| == |SortedIds(RowIdsOf(t, rel, parent))|;
  }

  /** Under the schema's invariants, a join row is in restaurant.restaurant_pizzas
      exactly when its restaurant_id is that restaurant's id, and the same for
      pizza.restaurant_pizzas and pizza_id. */
  lemma RowsOfExact(t: Tables, rel: Relationship, parent: int, rp: RestaurantPizza)
    requires Wellformed(t)
    requires Stored(t, rp)
    ensures rp in RowsOf(t, rel, parent) <==> ParentId(rp, rel) == parent
  {
    var rows := RowsOf(t, rel, parent);
    if rp in rows {
      var i :| 0 <= i < |rows| && rows[i] == rp;
    }
  }

  /** restaurant.pizzas over a list of join rows: each row's pizza, in order. */
  function PizzasOf(t: Tables, rows: seq<RestaurantPizza>): seq<Pizza>
    requires forall rp :: rp in rows ==> rp.pizzaId in t.pizzas
  {
    if rows == [] then [] else [t.pizzas[rows[0].pizzaId]] + PizzasOf(t, rows[1..])
  }

  /** pizza.restaurants over a list of join rows: each row's restaurant, in order. */
  function RestaurantsOf(t: Tables, rows: seq<RestaurantPizza>): seq<Restaurant>
    requires forall rp :: rp in rows ==> rp.restaurantId in t.restaurants
  {
    if rows == [] then [] else [t.restaurants[rows[0].restaurantId]] + RestaurantsOf(t, rows[1..])
  }

  /** The association proxy restaurant.pizzas: rp.pizza taken over
      restaurant.restaurant_pizzas, position by position, so a pizza offered
      twice appears twice. */
  function PizzasOfRestaurant(t: Tables, rid: int): (ps: seq<Pizza>)
    requires Wellformed(t)
    ensures |ps| == |RowsOf(t, OfRestaurant, rid)|
    ensures forall i :: 0 <= i < |ps| ==> ps[i] == t.pizzas[RowsOf(t, OfRestaurant, rid)[i].pizzaId]
  {
    PizzasOfAligned(t, RowsOf(t, OfRestaurant, rid));
    PizzasOf(t, RowsOf(t, OfRestaurant, rid))
  }

  /** The association proxy pizza.restaurants: rp.restaurant taken over
      pizza.restaurant_pizzas, position by position. */
  function RestaurantsOfPizza(t: Tables, pid: int): (rs: seq<Restaurant>)
    requires Wellformed(t)
    ensures |rs| == |RowsOf(t, OfPizza, pid)|
    ensures forall i :: 0 <= i < |rs| ==> rs[i] == t.restaurants[RowsOf(t, OfPizza, pid)[i].restaurantId]
  {
    RestaurantsOfAligned(t, RowsOf(t, OfPizza, pid));
    RestaurantsOf(t, RowsOf(t, OfPizza, pid))
  }

  lemma {:induction false} PizzasOfAligned(t: Tables, rows: seq<RestaurantPizza>)
    requires forall rp :: rp in rows ==> rp.pizzaId in t.pizzas
    ensures |PizzasOf(t, rows)| == |rows|
    ensures forall i :: 0 <= i < |rows| ==> PizzasOf(t, rows)[i] == t.pizzas[rows[i].pizzaId]
  {
    if rows != [] {
      PizzasOfAligned(t, rows[1..]);
    }
  }

  lemma {:induction false} RestaurantsOfAligned(t: Tables, rows: seq<RestaurantPizza>)
    requires forall rp :: rp in rows ==> rp.restaurantId in t.restaurants
    ensures |RestaurantsOf(t, rows)| == |rows|
    ensures forall i :: 0 <= i < |rows| ==> RestaurantsOf(t, rows)[i] == t.restaurants[rows[i].restaurantId]
  {
    if rows != [] {
      RestaurantsOfAligned(t, rows[1..]);
    }
  }

  /** A pizza is in restaurant.pizzas exactly when some stored join row links
      it to that restaurant. */
  lemma PizzasOfRestaurantMembers(t: Tables, rid: int, p: Pizza)
    requires Wellformed(t)
    ensures p in PizzasOfRestaurant(t, rid) <==>
      exists k :: k in t.restaurantPizzas && t.restaurantPizzas[k].restaurantId == rid
                  && p == t.pizzas[t.restaurantPizzas[k].pizzaId]
  {
    var rows := RowsOf(t, OfRestaurant, rid);
    PizzasOfAligned(t, rows);
    var view := PizzasOf(t, rows);
    if p in view {
      var i :| 0 <= i < |view| && view[i] == p;
      assert Stored(t, rows[i]);
      var k := rows[i].id;
      assert k in t.restaurantPizzas && t.restaurantPizzas[k].restaurantId == rid;
    }
    if exists k :: k in t.restaurantPizzas && t.restaurantPizzas[k].restaurantId == rid
                   && p == t.pizzas[t.restaurantPizzas[k].pizzaId] {
      var k :| k in t.restaurantPizzas && t.restaurantPizzas[k].restaurantId == rid
               && p == t.pizzas[t.restaurantPizzas[k].pizzaId];
      var rp := t.restaurantPizzas[k];
      assert Stored(t, rp);
      var i :| 0 <= i < |rows| && rows[i] == rp;
      assert view[i] == p;
    }
  }

  /** A restaurant is in pizza.restaurants exactly when some stored join row
      links it to that pizza. */
  lemma RestaurantsOfPizzaMembers(t: Tables, pid: int, r: Restaurant)
    requires Wellformed(t)
    ensures r in RestaurantsOfPizza(t, pid) <==>
      exists k :: k in t.restaurantPizzas && t.restaurantPizzas[k].pizzaId == pid
                  && r == t.restaurants[t.restaurantPizzas[k].restaurantId]
  {
    var rows := RowsOf(t, OfPizza, pid);
    RestaurantsOfAligned(t, rows);
    var view := RestaurantsOf(t, rows);
    if r in view {
      var i :| 0 <= i < |view| && view[i] == r;
      assert Stored(t, rows[i]);
      var k := rows[i].id;
      assert k in t.restaurantPizzas && t.restaurantPizzas[k].pizzaId == pid;
    }
    if exists k :: k in t.restaurantPizzas && t.restaurantPizzas[k].pizzaId == pid
                   && r == t.restaurants[t.restaurantPizzas[k].restaurantId] {
      var k :| k in t.restaurantPizzas && t.restaurantPizzas[k].pizzaId == pid
               && r == t.restaurants[t.restaurantPizzas[k].restaurantId];
      var rp := t.restaurantPizzas[k];
      assert Stored(t, rp);
      var i :| 0 <= i < |rows| && rows[i] == rp;
      assert view[i] == r;
    }
  }

  /** Deleting a parent row under cascade="all, delete-orphan": the parent
      and every join row it owns go, and nothing else changes. A restaurant's
      delete removes no pizza, since the join row's relationship to its pizza
      has no cascade, and a pizza's delete removes no restaurant. */
  function DeleteCascade(t: Tables, rel: Relationship, parent: int): (t': Tables)
    ensures forall k :: k in t'.restaurantPizzas <==>
      k in t.restaurantPizzas && ParentId(t.restaurantPizzas[k], rel) != parent
    ensures forall k :: k in t'.restaurantPizzas ==> t'.restaurantPizzas[k] == t.restaurantPizzas[k]
    ensures t'.restaurants == (if rel == OfRestaurant then t.restaurants - {parent} else t.restaurants)
    ensures t'.pizzas == (if rel == OfPizza then t.pizzas - {parent} else t.pizzas)
  {
    var rows := t.restaurantPizzas - RowIdsOf(t, rel, parent);
    match rel
    case OfRestaurant => Tables(t.restaurants - {parent}, t.pizzas, rows)
    case OfPizza => Tables(t.restaurants, t.pizzas - {parent}, rows)
  }

  lemma DeleteCascadeWellformed(t: Tables, rel: Relationship, parent: int)
    requires Wellformed(t)
    ensures Wellformed(DeleteCascade(t, rel, parent))
  {
  }

  lemma SetMinusCard(a: set<int>, b: set<int>)
    requires b <= a
    ensures |a - b| == |a| - |b|
  {
    assert a == (a - b) + b;
    assert (a - b) !! b;
  }

  /** A parent owning N join rows takes exactly N join rows with it. */
  lemma DeleteCascadeCount(t: Tables, rel: Relationship, parent: int)
    requires Wellformed(t)
    ensures |DeleteCascade(t, rel, parent).restaurantPizzas| == |t.restaurantPizzas| - |RowsOf(t, rel, parent)|
  {
    var gone := RowIdsOf(t, rel, parent);
    var kept := DeleteCascade(t, rel, parent).restaurantPizzas;
    assert kept.Keys == t.restaurantPizzas.Keys - gone;
    SetMinusCard(t.restaurantPizzas.Keys, gone);
    RowsOfIds(t, rel, parent);
  }

  /** After the cascade the deleted parent owns no join row. */
  lemma DeleteCascadeOrphansNothing(t: Tables, rel: Relationship, parent: int)
    requires Wellformed(t)
    ensures Wellformed(DeleteCascade(t, rel, parent))
    ensures RowsOf(DeleteCascade(t, rel, parent), rel, parent) == []
  {
    DeleteCascadeWellformed(t, rel, parent);
    var t' := DeleteCascade(t, rel, parent);
    assert RowIdsOf(t', rel, parent) == {};
  }

  /** After the cascade every other parent of the same kind owns exactly the
      join rows it owned before, in the same order. */
  lemma DeleteCascadeKeepsOthers(t: Tables, rel: Relationship, parent: int, other: int)
    requires Wellformed(t)
    requires other != parent
    ensures Wellformed(DeleteCascade(t, rel, parent))
    ensures RowsOf(DeleteCascade(t, rel, parent), rel, other) == RowsOf(t, rel, other)
  {
    DeleteCascadeWellformed(t, rel, parent);
    var t' := DeleteCascade(t, rel, parent);
    var owned := RowIdsOf(t, rel, other);
    assert RowIdsOf(t', rel, other) == owned;
    var ids := SortedIds(owned);
    forall i | 0 <= i < |ids|
      ensures ids[i] in t'.restaurantPizzas && t'.restaurantPizzas[ids[i]] == t.restaurantPizzas[ids[i]]
    {
      assert ids[i] in owned;
    }
    assert RowsAt(t', ids) == RowsAt(t, ids);
  }
}
