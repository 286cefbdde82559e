# Pizza restaurants service, modelled in Dafny

The service keeps three tables: restaurants, pizzas, and restaurant_pizzas.
A restaurant_pizzas row joins a restaurant to a pizza at a price. The service
answers five HTTP requests over these tables:

- list the restaurants;
- show one restaurant with its menu;
- delete a restaurant;
- list the pizzas;
- add a pizza to a restaurant's menu at a price.

The model treats the relational store as three maps from primary key to row
(`Models.Tables`). A class `Session.Database` holds them and updates them in
place. The model covers:

- the price validator;
- the schema's invariants (`Models.Wellformed`): every key is its row's id, every
  stored price passed the validator, and every join row's `pizza_id` and
  `restaurant_id` name a stored row;
- the two relationships with their cascading delete;
- the association proxies `restaurant.pizzas` and `pizza.restaurants`;
- the five handlers, each returning a status and a typed body;
- the JSON document each typed body is written as (the 204 answer of a delete
  has an empty body and no JSON document; `NoContent` stands for it).

Files:

- `wrappers.dfy`: `Option` and `Result`.
- `ordered_keys.dfy`: the order a table scan returns rows in, which is ascending
  primary key.
- `models.dfy`: the rows, the validator, the store invariants, the
  relationships, the proxies and the cascade.
- `session.dfy`: the in-place store, with its cascading delete and its insert.
- `responses.dfy`: the response bodies and their JSON form.
- `app.dfy`: the five handlers.

Choices the code leaves open:

- **Row order.** The queries have no ORDER BY. Lists come back in ascending id
  order, which is the scan order of the default SQLite backend.
- **New row ids.** A new join row gets the id that SQLite gives an INTEGER
  PRIMARY KEY: one more than the largest id stored, or 1 for an empty table.
  The model does not use a separate counter.
- **Foreign keys.** The model assumes the store enforces the declared foreign
  keys (server/models.py:69-70). A commit fails when `pizza_id` or
  `restaurant_id` names no row, or when the database reports a failure of its
  own (the `fault` parameter). On failure nothing is stored.
- **Duplicates in `restaurant.pizzas`.** The proxy is a list over the join rows,
  so a pizza offered twice by one restaurant appears twice. The model follows
  the code here, not a reading of the proxy as a set of distinct pizzas.

## Model

| member | source | states |
|---|---|---|
| Models.ValidatePrice | server/models.py:80-84 | accepts a price exactly when 1 <= price <= 30, and returns it unchanged; otherwise fails with "Price must be between 1 and 30" |
| Models.ValidatePriceBoundaries | server/models.py:82-83 | 0 and 31 are rejected; 1 and 30 are accepted |
| Models.RowConsistent | server/models.py:65-70 | no contract; defined as: a join row stored under key k has id k, a price the validator accepts, and a pizza_id and restaurant_id that name stored rows (the declared non-null columns and foreign keys); it is kept by Models.DeleteCascadeWellformed and Session.Database.Insert |
| Models.Wellformed | server/models.py:16-77 | no contract; defined as: every restaurant and pizza is stored under its own id and every join row is Models.RowConsistent; it is the invariant Session.Database.Valid keeps across every handler |
| Models.RowsOf | server/models.py:24-28 | restaurant.restaurant_pizzas (or pizza.restaurant_pizzas) holds only stored join rows whose foreign key names the parent, holds every such row, and lists them in ascending id order |
| Models.RowsOfIds | server/models.py:24-28 | the relationship collection holds each owned join row exactly once: its ids are the owned keys and its length is their number |
| Models.RowsOfExact | server/models.py:73-74 | a stored join row is in a parent's restaurant_pizzas exactly when its restaurant_id (or pizza_id) is that parent's id, so both sides of each relationship agree |
| Models.PizzasOfAligned | server/models.py:31 | the proxy over a list of join rows has one pizza per row, each row's own pizza, in the same order |
| Models.RestaurantsOfAligned | server/models.py:54 | the proxy over a list of join rows has one restaurant per row, each row's own restaurant, in the same order |
| Models.PizzasOfRestaurant | server/models.py:31 | the proxy restaurant.pizzas: rp.pizza over restaurant.restaurant_pizzas, position by position, as many pizzas as join rows (duplicates kept) |
| Models.PizzasOfRestaurantMembers | server/models.py:31 | a pizza is in restaurant.pizzas exactly when some stored join row links it to that restaurant |
| Models.RestaurantsOfPizza | server/models.py:54 | the proxy pizza.restaurants: rp.restaurant over pizza.restaurant_pizzas, position by position, as many restaurants as join rows |
| Models.RestaurantsOfPizzaMembers | server/models.py:54 | a restaurant is in pizza.restaurants exactly when some stored join row links it to that pizza |
| Models.DeleteCascade | server/models.py:24-52 | deleting a restaurant (lines 24-28) or a pizza (lines 48-52) under cascade="all, delete-orphan": a join row is kept exactly when the parent does not own it, kept rows are unchanged, and only the parent leaves its own table; the other parent table is unchanged (a restaurant's delete removes no pizza, because server/models.py:73 declares no cascade) |
| Models.DeleteCascadeWellformed | server/models.py:48-52 | the cascade of a restaurant or a pizza leaves a store that meets the schema's invariants, so no join row is left dangling |
| Models.DeleteCascadeCount | server/models.py:24-28 | a parent owning N join rows takes exactly N join rows with it |
| Models.DeleteCascadeOrphansNothing | server/models.py:24-28 | after the cascade the deleted parent owns no join row |
| Models.DeleteCascadeKeepsOthers | server/models.py:48-52 | after the cascade every other parent of the same kind (every other restaurant when a restaurant is deleted, every other pizza when a pizza is) owns exactly the join rows it owned before, in the same order |
| OrderedKeys.EnumerationExists | server/app.py:36 | every set of primary keys has a scan-order listing: each key once, ascending |
| OrderedKeys.EnumerationUnique | server/app.py:36 | two ascending listings of the same keys are equal, so scan order is determined |
| OrderedKeys.SortedIds | server/app.py:36 | the keys in scan order: each key exactly once, ascending, and nothing else |
| OrderedKeys.ValuesInKeyOrder | server/app.py:104 | the rows of a table in scan order: one per key, each the row under its key in key order, and every stored row appears |
| Session.NextRowId | server/app.py:141-142 | the id the store gives a new join row is not in use and exceeds every id in use |
| Session.CommitFails | server/app.py:141-146 | no contract; defined as: the commit fails when the database reports a fault or the row's pizza_id or restaurant_id names no stored row (the declared foreign keys, server/models.py:69-70); Session.Database.Insert stores the row exactly when it is false |
| Session.Database.constructor | server/models.py:16-77 | a store opened on well-formed tables holds exactly those tables and meets the invariants |
| Session.Database.RemoveRows | server/models.py:24-28 | removes exactly the given join rows, one at a time, and keeps the invariants; the parent tables are untouched |
| Session.Database.Delete | server/app.py:93-94 | session.delete followed by commit of a restaurant or a pizza leaves exactly the cascade's result and keeps the invariants |
| Session.Database.Insert | server/app.py:136-142 | session.add followed by commit stores the row exactly when the commit does not fail; then the row has a fresh id and the given price, pizza_id and restaurant_id (all non-null, server/models.py:66-70), and the join table gains only that row; on failure the store is unchanged |
| Responses.BodyJson | server/app.py:37-164 | no contract; defined as the dict or list each handler builds (lines 37-44, 61-78, 105-112, 149-164), key by key in the handler's order; its meaning is stated by Responses.EntryJsonShape, Responses.DetailJsonShape, Responses.CreatedJsonShape and Responses.ErrorJsonShape |
| Responses.LookupFinds | server/app.py:149-164 | a key's value in a JSON object is found at its first occurrence, and nothing is found for an absent key |
| Responses.EntryJsonShape | server/app.py:61-71 | an entry of restaurant_pizzas has keys id, price, pizza_id, restaurant_id, pizza, carrying the entry's id, price, pizza_id and restaurant_id and its pizza, no "restaurant" key, and a nested pizza with exactly id, name, ingredients |
| Responses.DetailJsonShape | server/app.py:61-78 | the body of GET /restaurants/{id} has keys id, name, address, restaurant_pizzas, with the typed body's id, name and address; it lists one entry per typed entry, each of the shape above, with that entry's id, price, pizza_id, restaurant_id and pizza |
| Responses.CreatedJsonShape | server/app.py:149-164 | the 201 body has keys id, price, pizza_id, restaurant_id, pizza, restaurant with the typed body's values; the nested pizza and restaurant carry exactly their three columns |
| Responses.ErrorJsonShape | server/app.py:56 | the 404 body is {"error": "Restaurant not found"} and the 400 body is {"errors": ["validation errors"]} (server/app.py:129) |
| App.GetRestaurants | server/app.py:34-45 | status 200 and one {id, name, address} per stored restaurant: as many entries as restaurants, each equal to the stored row under its id, every stored restaurant present, in ascending id order; the store is a value and stays unchanged |
| App.GetPizzas | server/app.py:102-113 | status 200 and one {id, name, ingredients} per stored pizza: as many entries as pizzas, each equal to the stored row, every stored pizza present, in ascending id order |
| App.GetRestaurant | server/app.py:51-80 | an unknown id gives 404 with "Restaurant not found"; a known id gives 200 with the restaurant's stored id, name and address and one entry per join row of restaurant.restaurant_pizzas, in order, whose id, price, pizza_id and restaurant_id are the row's and whose pizza is the stored pizza; every entry belongs to this restaurant and every join row of this restaurant has an entry |
| App.DeleteRestaurant | server/app.py:86-96 | an unknown id gives 404 and leaves the store unchanged; a known id gives 204 with an empty body, removes the restaurant and exactly its join rows (their number is the size of its restaurant_pizzas), and leaves every pizza, every other restaurant and every other join row unchanged |
| App.Accepted | server/app.py:128-146 | no contract; defined as: all three fields present, the price in 1..30, and Session.CommitFails false; App.CreateRestaurantPizza answers 201 exactly when it holds |
| App.CreateRestaurantPizza | server/app.py:119-166 | 201 exactly when all three fields are present, the price is in 1..30 and the commit succeeds; otherwise 400 with "validation errors" and an unchanged store; on 201 the join table gains exactly one row, with a fresh id and the given price, pizza_id and restaurant_id, and the response repeats those values and nests the stored pizza and restaurant |

## Left out

- Framework setup is not modelled: the database URI from the environment and
  JSON formatting options (server/app.py:8-14), migrations and the unused REST
  API object (server/app.py:20-23), the HTML index route
  (server/app.py:26-28), and `app.run` (server/app.py:169-170).
- The metadata naming convention (server/models.py:7-13) and the `__repr__`
  methods are not modelled. They only affect DDL names and debug strings.
- The serializer rules (server/models.py:34, 56, 77) are not modelled, because
  the handlers build every response by hand. The cycle those rules break is
  stated instead about the hand-built bodies (`Responses.DetailJsonShape`,
  `Responses.CreatedJsonShape`).
- JSON parsing of the request (server/app.py:121) is not modelled. The request
  body is three optional integers. An absent or non-JSON body is outside the
  model. So are prices of other JSON types:
  - a non-numeric price (a string, list or object) makes `price < 1` raise an
    uncaught error, answered with 500;
  - a fractional price within 1..30 such as 2.5, or `true`, passes both the
    range test (server/app.py:132) and the validator (server/models.py:82) and,
    when the commit succeeds, is stored and answered with 201;
  - `false` and fractions outside 1..30 such as 0.5 or 30.5 fail the range test
    and are answered with 400 (server/app.py:133).
- App.GetRestaurant, App.DeleteRestaurant: ids only arrive as the route
  `/restaurants/<int:id>` delivers them (server/app.py:51, 86), that is
  0 <= id < 2^63. The model accepts every integer. The router's own 404 for a
  path that is not an unsigned digit string, and the error (answered with 500)
  the database driver raises for an id of 2^63 or more, are not modelled.
- Session.Database.Insert: assumes the store enforces the declared foreign keys.
  With SQLite's default of no enforcement, a dangling id is stored, and reading
  `new_rp.pizza.id` (server/app.py:155) then raises after the commit, so the
  client receives a 500. That path is not modelled.
- Session.NextRowId: follows SQLite's rowid rule. A backend that draws ids from
  a sequence can give out ids that differ from max + 1; the model still
  requires a fresh id.
- Transactions, isolation, concurrent requests and lazy loading of
  relationships are not modelled. Each handler is one atomic step on the store.
  Session.Database.Delete: the commit of a delete (server/app.py:94) always
  succeeds in the model; a database failure there is uncaught in the source,
  answered with 500, and stores nothing. Session.NextRowId: SQLite's fallback
  when the largest rowid is already 2^63-1 (it picks an unused id at random)
  is not modelled, since ids are unbounded here.
- The session's pending state is not modelled: a failed commit is followed by
  `rollback`, and the model has it store nothing (server/app.py:144-146).
- The name, address and ingredients columns are nullable in the schema
  (server/models.py:20-21, 44-45). The model gives them plain string values,
  so a null name is not distinguished from any other string.
- The framework writes JSON objects with their keys sorted. The model keeps
  the keys in the order the handler writes them; only the set of keys and
  their values are meaningful.
- No handler deletes a pizza. The pizza side of the cascade
  (server/models.py:48-52) is modelled as `Session.Database.Delete` with
  `OfPizza`, which no handler calls.
