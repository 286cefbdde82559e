/** The five request handlers of the service. A read handler works on one
    snapshot of the tables; a write handler works on the database in place
    and is one atomic step. */
module App {
  import opened Wrappers
  import opened OrderedKeys
  import opened Models
  import opened Session
  import opened Responses

  /** GET /restaurants: one {id, name, address} per stored restaurant, in
      ascending id order, each equal to the stored row. */
  function GetRestaurants(t: Tables): (r: Response)
    requires Wellformed(t)
    ensures r.status == 200 && r.body.RestaurantList?
    ensures |r.body.restaurants| == |t.restaurants|
    ensures forall i :: 0 <= i < |r.body.restaurants| ==>
      r.body.restaurants[i].id in t.restaurants && t.restaurants[r.body.restaurants[i].id] == r.body.restaurants[i]
    ensures forall k :: k in t.restaurants ==> t.restaurants[k] in r.body.restaurants
    ensures forall i, j :: 0 <= i < j < |r.body.restaurants| ==> r.body.restaurants[i].id < r.body.restaurants[j].id
  {
    var rs := ValuesInKeyOrder(t.restaurants);
    assert forall i :: 0 <= i < |rs| ==> rs[i].id == SortedIds(t.restaurants.Keys)[i];
    Response(RestaurantList(rs), 200)
  }

  /** GET /pizzas: one {id, name, ingredients} per stored pizza, in
      ascending id order, each equal to the stored row. */
  function GetPizzas(t: Tables): (r: Response)
    requires Wellformed(t)
    ensures r.status == 200 && r.body.PizzaList?
    ensures |r.body.pizzas| == |t.pizzas|
    ensures forall i :: 0 <= i < |r.body.pizzas| ==>
      r.body.pizzas[i].id in t.pizzas && t.pizzas[r.body.pizzas[i].id] == r.body.pizzas[i]
    ensures forall k :: k in t.pizzas ==> t.pizzas[k] in r.body.pizzas
    ensures forall i, j :: 0 <= i < j < |r.body.pizzas| ==> r.body.pizzas[i].id < r.body.pizzas[j].id
  {
    var ps := ValuesInKeyOrder(t.pizzas);
    assert forall i :: 0 <= i < |ps| ==> ps[i].id == SortedIds(t.pizzas.Keys)[i];
    Response(PizzaList(ps), 200)
  }

  /** An entry of restaurant_pizzas repeats the join row's columns and nests
      the row's stored pizza. */
  predicate EntryMatches(t: Tables, e: MenuEntry, rp: RestaurantPizza) {
    && e.id == rp.id
    && e.price == rp.price
    && e.pizzaId == rp.pizzaId
    && e.restaurantId == rp.restaurantId
    && rp.pizzaId in t.pizzas
    && e.pizza == t.pizzas[rp.pizzaId]
  }

  /** GET /restaurants/{id}. */
  method GetRestaurant(t: Tables, id: int) returns (r: Response)
    requires Wellformed(t)
    ensures id !in t.restaurants ==> r == NotFound()
    ensures id in t.restaurants ==>
      && r.status == 200
      && r.body.RestaurantDetail?
      && r.body.id == id
      && r.body.name == t.restaurants[id].name
      && r.body.address == t.restaurants[id].address
      && |r.body.restaurantPizzas| == |RowsOf(t, OfRestaurant, id)|
      && (forall i :: 0 <= i < |r.body.restaurantPizzas| ==>
            EntryMatches(t, r.body.restaurantPizzas[i], RowsOf(t, OfRestaurant, id)[i]))
    ensures id in t.restaurants ==>
      && (forall e :: e in r.body.restaurantPizzas ==>
            e.restaurantId == id && e.id in t.restaurantPizzas && t.restaurantPizzas[e.id].restaurantId == id)
      && (forall k :: k in t.restaurantPizzas && t.restaurantPizzas[k].restaurantId == id ==>
            exists e :: e in r.body.restaurantPizzas && e.id == k)
  {
    if id !in t.restaurants {
      return NotFound();
    }
    var restaurant := t.restaurants[id];
    var rows := RowsOf(t, OfRestaurant, id);
    var rps: seq<MenuEntry> := [];
    var i := 0;
    while i < |rows|
      invariant 0 <= i <= |rows|
      invariant |rps| == i
      invariant forall j :: 0 <= j < i ==> EntryMatches(t, rps[j], rows[j])
    {
      var rp := rows[i];
      assert Stored(t, rp);
      rps := rps + [MenuEntry(rp.id, rp.price, rp.pizzaId, rp.restaurantId, t.pizzas[rp.pizzaId])];
      i := i + 1;
    }
    r := Response(RestaurantDetail(restaurant.id, restaurant.name, restaurant.address, rps), 200);
    forall k | k in t.restaurantPizzas && t.restaurantPizzas[k].restaurantId == id
      ensures exists e :: e in rps && e.id == k
    {
      assert Stored(t, t.restaurantPizzas[k]);
      var j :| 0 <= j < |rows| && rows[j] == t.restaurantPizzas[k];
      assert rps[j] in rps && rps[j].id == k;
    }
    forall e | e in rps
      ensures e.restaurantId == id && e.id in t.restaurantPizzas && t.restaurantPizzas[e.id].restaurantId == id
    {
      var j :| 0 <= j < |rps| && rps[j] == e;
      assert Stored(t, rows[j]);
    }
  }

  /** DELETE /restaurants/{id}. */
  method DeleteRestaurant(db: Database, id: int) returns (r: Response)
    requires db.Valid()
    modifies db
    ensures db.Valid()
    ensures id !in old(db.restaurants) ==> r == NotFound() && db.Snapshot() == old(db.Snapshot())
    ensures id in old(db.restaurants) ==>
      && r == Response(NoContent, 204)
      && db.Snapshot() == DeleteCascade(old(db.Snapshot()), OfRestaurant, id)
      && id !in db.restaurants
      && RowsOf(db.Snapshot(), OfRestaurant, id) == []
      && |db.restaurantPizzas| == |old(db.restaurantPizzas)| - |RowsOf(old(db.Snapshot()), OfRestaurant, id)|
      && db.pizzas == old(db.pizzas)
      && (forall k :: k in db.restaurants <==> k in old(db.restaurants) && k != id)
      && (forall k :: k in db.restaurants ==> db.restaurants[k] == old(db.restaurants)[k])
      && (forall k :: k in db.restaurantPizzas <==>
            k in old(db.restaurantPizzas) && old(db.restaurantPizzas)[k].restaurantId != id)
      && (forall k :: k in db.restaurantPizzas ==> db.restaurantPizzas[k] == old(db.restaurantPizzas)[k])
  {
    if id !in db.restaurants {
      return NotFound();
    }
    ghost var before := db.Snapshot();
    db.Delete(OfRestaurant, id);
    DeleteCascadeCount(before, OfRestaurant, id);
    DeleteCascadeOrphansNothing(before, OfRestaurant, id);
    r := Response(NoContent, 204);
  }

  /** The JSON body of POST /restaurant_pizzas: each of its three fields may
      be absent (or null). */
  datatype RequestBody = RequestBody(price: Option<int>, pizzaId: Option<int>, restaurantId: Option<int>)

  predicate MissingField(data: RequestBody) {
    data.price.None? || data.pizzaId.None? || data.restaurantId.None?
  }

  /** Whether the handler stores the row: every field present, the price in
      range, and the commit succeeding. */
  predicate Accepted(t: Tables, data: RequestBody, fault: bool) {
    && !MissingField(data)
    && 1 <= data.price.value <= 30
    && !CommitFails(t, data.pizzaId.value, data.restaurantId.value, fault)
  }

  /** POST /restaurant_pizzas. `fault` is whether the database reports a
      failure of its own at commit. */
  method CreateRestaurantPizza(db: Database, data: RequestBody, fault: bool) returns (r: Response)
    requires db.Valid()
    modifies db
    ensures db.Valid()
    ensures r.status == 201 <==> Accepted(old(db.Snapshot()), data, fault)
    ensures r.status != 201 ==> r == ValidationFailed() && db.Snapshot() == old(db.Snapshot())
    ensures r.status == 201 ==>
      && r.body.Created?
      && Some(r.body.price) == data.price
      && Some(r.body.pizzaId) == data.pizzaId
      && Some(r.body.restaurantId) == data.restaurantId
      && r.body.id == NextRowId(old(db.Snapshot()))
      && r.body.id !in old(db.restaurantPizzas)
      && db.Snapshot() == old(db.Snapshot()).(restaurantPizzas := old(db.restaurantPizzas)[r.body.id :=
           RestaurantPizza(r.body.id, r.body.price, r.body.pizzaId, r.body.restaurantId)])
      && |db.restaurantPizzas| == |old(db.restaurantPizzas)| + 1
      && r.body.pizza == db.pizzas[r.body.pizzaId]
      && r.body.restaurant == db.restaurants[r.body.restaurantId]
  {
    if MissingField(data) {
      return ValidationFailed();
    }
    var price, pizzaId, restaurantId := data.price.value, data.pizzaId.value, data.restaurantId.value;
    if price < 1 || price > 30 {
      return ValidationFailed();
    }
    // Constructing the row runs the price validator; the commit may fail.
    // Either failure is rolled back, and a failed commit stored nothing.
    var row: Option<RestaurantPizza> := None;
    var checked := ValidatePrice(price);
    if checked.Success? {
      row := db.Insert(checked.value, pizzaId, restaurantId, fault);
    }
    if row.None? {
      return ValidationFailed();
    }
    var rp := row.value;
    r := Response(Created(rp.id, rp.price, rp.pizzaId, rp.restaurantId,
                          db.pizzas[rp.pizzaId], db.restaurants[rp.restaurantId]), 201);
  }
}
