/** What the handlers answer: a status code and a body, and the JSON
    document each body is written out as. The nested objects carry no
    back-references: an entry of a restaurant's restaurant_pizzas never
    embeds its restaurant, and no nested pizza or restaurant embeds its own
    restaurant_pizzas. */
module Responses {
  import opened Wrappers
  import opened Models

  /** One element of the restaurant_pizzas list of GET /restaurants/{id}. */
  datatype MenuEntry = MenuEntry(id: int, price: int, pizzaId: int, restaurantId: int, pizza: Pizza)

  datatype Body =
    | RestaurantList(restaurants: seq<Restaurant>)
    | PizzaList(pizzas: seq<Pizza>)
    | RestaurantDetail(id: int, name: string, address: string, restaurantPizzas: seq<MenuEntry>)
    | Created(id: int, price: int, pizzaId: int, restaurantId: int, pizza: Pizza, restaurant: Restaurant)
    | ErrorMessage(error: string)
    | ErrorList(errors: seq<string>)
    | NoContent

  datatype Response = Response(body: Body, status: int)

  const NotFoundMessage: string := "Restaurant not found"
  const ValidationMessage: string := "validation errors"

  function NotFound(): Response {
    Response(ErrorMessage(NotFoundMessage), 404)
  }

  function ValidationFailed(): Response {
    Response(ErrorList([ValidationMessage]), 400)
  }

  datatype Json =
    | JInt(n: int)
    | JStr(s: string)
    | JArr(items: seq<Json>)
    | JObj(members: seq<(string, Json)>)

  function RestaurantJson(r: Restaurant): Json {
    JObj([("id", JInt(r.id)), ("name", JStr(r.name)), ("address", JStr(r.address))])
  }

  function PizzaJson(p: Pizza): Json {
    JObj([("id", JInt(p.id)), ("name", JStr(p.name)), ("ingredients", JStr(p.ingredients))])
  }

  function EntryJson(e: MenuEntry): Json {
    JObj([("id", JInt(e.id)), ("price", JInt(e.price)), ("pizza_id", JInt(e.pizzaId)),
          ("restaurant_id", JInt(e.restaurantId)), ("pizza", PizzaJson(e.pizza))])
  }

  function BodyJson(b: Body): Json {
    match b
    case RestaurantList(rs) => JArr(seq(|rs|, i requires 0 <= i < |rs| => RestaurantJson(rs[i])))
    case PizzaList(ps) => JArr(seq(|ps|, i requires 0 <= i < |ps| => PizzaJson(ps[i])))
    case RestaurantDetail(id, name, address, es) =>
      JObj([("id", JInt(id)), ("name", JStr(name)), ("address", JStr(address)),
            ("restaurant_pizzas", JArr(seq(|es|, i requires 0 <= i < |es| => EntryJson(es[i]))))])
    case Created(id, price, pizzaId, restaurantId, pizza, restaurant) =>
      JObj([("id", JInt(id)), ("price", JInt(price)), ("pizza_id", JInt(pizzaId)),
            ("restaurant_id", JInt(restaurantId)), ("pizza", PizzaJson(pizza)),
            ("restaurant", RestaurantJson(restaurant))])
    case ErrorMessage(e) => JObj([("error", JStr(e))])
    case ErrorList(es) => JObj([("errors", JArr(seq(|es|, i requires 0 <= i < |es| => JStr(es[i]))))])
    case NoContent => JStr("")  // no JSON document: the 204 answer has an empty body
  }

  /** The keys of a JSON object, in order; nothing for other values. */
  function Keys(j: Json): seq<string> {
    match j
    case JObj(ms) => seq(|ms|, i requires 0 <= i < |ms| => ms[i].0)
    case _ => []
  }

  /** The value under the first occurrence of a key in a JSON object. A
      Python dict keeps the last value written for a repeated key instead;
      the two agree on every body here, whose keys are all distinct (the
      shape lemmas below state each body's key list). */
  function Get(j: Json, key: string): Option<Json> {
    match j
    case JObj(ms) => Lookup(ms, key)
    case _ => None
  }

  function Lookup(ms: seq<(string, Json)>, key: string): Option<Json> {
    if ms == [] then None
    else if ms[0].0 == key then Some(ms[0].1)
    else Lookup(ms[1..], key)
  }

  /** Lookup finds the value under the first occurrence of the key, and
      nothing when the key is absent. */
  lemma {:induction false} LookupFinds(ms: seq<(string, Json)>, key: string, i: int)
    requires 0 <= i <= |ms|
    requires forall j :: 0 <= j < i ==> ms[j].0 != key
    ensures i < |ms| && ms[i].0 == key ==> Lookup(ms, key) == Some(ms[i].1)
    ensures i == |ms| ==> Lookup(ms, key) == None
  {
    if 0 < i && ms[0].0 != key {
      LookupFinds(ms[1..], key, i - 1);
    }
  }

  /** A nested pizza or restaurant object: exactly its three columns. */
  predicate IsPizzaObject(j: Json) {
    Keys(j) == ["id", "name", "ingredients"]
  }

  predicate IsRestaurantObject(j: Json) {
    Keys(j) == ["id", "name", "address"]
  }

  /** An entry of restaurant_pizzas: the join row's columns and its pizza,
      and no "restaurant" key. */
  predicate IsEntryObject(j: Json) {
    && Keys(j) == ["id", "price", "pizza_id", "restaurant_id", "pizza"]
    && Get(j, "pizza").Some? && IsPizzaObject(Get(j, "pizza").value)
  }

  /** An entry of restaurant_pizzas written out: the join row's four columns
      with their values, and its pizza, which carries exactly its own three
      columns and no restaurant_pizzas. */
  lemma EntryJsonShape(e: MenuEntry)
    ensures var item := EntryJson(e);
      && IsEntryObject(item)
      && "restaurant" !in Keys(item)
      && "restaurant_pizzas" !in Keys(Get(item, "pizza").value)
      && Get(item, "id") == Some(JInt(e.id))
      && Get(item, "price") == Some(JInt(e.price))
      && Get(item, "pizza_id") == Some(JInt(e.pizzaId))
      && Get(item, "restaurant_id") == Some(JInt(e.restaurantId))
      && Get(item, "pizza") == Some(PizzaJson(e.pizza))
  {
    var item := EntryJson(e);
    var ks := Keys(item);
    assert ks[0] == "id" && ks[1] == "price" && ks[2] == "pizza_id" && ks[3] == "restaurant_id" && ks[4] == "pizza";
    assert ks == ["id", "price", "pizza_id", "restaurant_id", "pizza"];
    LookupFinds(item.members, "id", 0);
    LookupFinds(item.members, "price", 1);
    LookupFinds(item.members, "pizza_id", 2);
    LookupFinds(item.members, "restaurant_id", 3);
    LookupFinds(item.members, "pizza", 4);
    assert Keys(PizzaJson(e.pizza)) == ["id", "name", "ingredients"];
  }

  /** The body of GET /restaurants/{id} breaks the cycle restaurant ->
      restaurant_pizzas -> pizza -> restaurant_pizzas: its entries never
      embed the restaurant and their pizzas never embed restaurant_pizzas,
      and the entries' values are those of the typed body. */
  lemma {:induction false} DetailJsonShape(b: Body)
    requires b.RestaurantDetail?
    ensures var j := BodyJson(b);
      && Keys(j) == ["id", "name", "address", "restaurant_pizzas"]
      && Get(j, "id") == Some(JInt(b.id))
      && Get(j, "name") == Some(JStr(b.name))
      && Get(j, "address") == Some(JStr(b.address))
      && Get(j, "restaurant_pizzas").Some?
      && Get(j, "restaurant_pizzas").value.JArr?
      && |Get(j, "restaurant_pizzas").value.items| == |b.restaurantPizzas|
      && forall i :: 0 <= i < |b.restaurantPizzas| ==>
           var item := Get(j, "restaurant_pizzas").value.items[i];
           && IsEntryObject(item)
           && "restaurant" !in Keys(item)
           && "restaurant_pizzas" !in Keys(Get(item, "pizza").value)
           && Get(item, "id") == Some(JInt(b.restaurantPizzas[i].id))
           && Get(item, "price") == Some(JInt(b.restaurantPizzas[i].price))
           && Get(item, "pizza_id") == Some(JInt(b.restaurantPizzas[i].pizzaId))
           && Get(item, "restaurant_id") == Some(JInt(b.restaurantPizzas[i].restaurantId))
           && Get(item, "pizza") == Some(PizzaJson(b.restaurantPizzas[i].pizza))
  {
    var es := b.restaurantPizzas;
    forall i | 0 <= i < |es| {
      EntryJsonShape(es[i]);
    }
    var j := BodyJson(b);
    var ks := Keys(j);
    assert ks[0] == "id" && ks[1] == "name" && ks[2] == "address" && ks[3] == "restaurant_pizzas";
    assert ks == ["id", "name", "address", "restaurant_pizzas"];
    LookupFinds(j.members, "id", 0);
    LookupFinds(j.members, "name", 1);
    LookupFinds(j.members, "address", 2);
    LookupFinds(j.members, "restaurant_pizzas", 3);
  }

  /** The body of a 201 from POST /restaurant_pizzas: the join row's columns
      and both parents, neither of which embeds restaurant_pizzas. */
  lemma CreatedJsonShape(b: Body)
    requires b.Created?
    ensures var j := BodyJson(b);
      && Keys(j) == ["id", "price", "pizza_id", "restaurant_id", "pizza", "restaurant"]
      && Get(j, "id") == Some(JInt(b.id))
      && Get(j, "price") == Some(JInt(b.price))
      && Get(j, "pizza_id") == Some(JInt(b.pizzaId))
      && Get(j, "restaurant_id") == Some(JInt(b.restaurantId))
      && Get(j, "pizza") == Some(PizzaJson(b.pizza)) && IsPizzaObject(PizzaJson(b.pizza))
      && Get(j, "restaurant") == Some(RestaurantJson(b.restaurant)) && IsRestaurantObject(RestaurantJson(b.restaurant))
  {
    var j := BodyJson(b);
    var ks := Keys(j);
    assert ks[0] == "id" && ks[1] == "price" && ks[2] == "pizza_id" && ks[3] == "restaurant_id";
    assert ks[4] == "pizza" && ks[5] == "restaurant";
    assert ks == ["id", "price", "pizza_id", "restaurant_id", "pizza", "restaurant"];
    LookupFinds(j.members, "price", 1);
    LookupFinds(j.members, "pizza_id", 2);
    LookupFinds(j.members, "restaurant_id", 3);
    LookupFinds(j.members, "pizza", 4);
    LookupFinds(j.members, "restaurant", 5);
    assert Keys(PizzaJson(b.pizza)) == ["id", "name", "ingredients"];
    assert Keys(RestaurantJson(b.restaurant)) == ["id", "name", "address"];
  }

  /** The two error bodies: {"error": "Restaurant not found"} and
      {"errors": ["validation errors"]}. */
  lemma ErrorJsonShape()
    ensures BodyJson(NotFound().body) == JObj([("error", JStr("Restaurant not found"))])
    ensures BodyJson(ValidationFailed().body) == JObj([("errors", JArr([JStr("validation errors")]))])
  {
    assert BodyJson(ValidationFailed().body).members[0].1.items == [JStr("validation errors")];
  }
}
