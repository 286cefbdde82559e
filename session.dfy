/** The database session the handlers work through: the three tables held
    in place, the cascading delete the ORM performs on session.delete, and
    the insert that session.add followed by session.commit performs. */
module Session {
  import opened Wrappers
  import opened OrderedKeys
  import opened Models

  /** The id the store gives a new join row when none is supplied: one more
      than the largest id in the table, or 1 for an empty table (the rowid
      rule of the default SQLite backend for an INTEGER PRIMARY KEY). */
  function NextRowId(t: Tables): (id: int)
    ensures id !in t.restaurantPizzas
    ensures forall k :: k in t.restaurantPizzas ==> k < id
  {
    var ids := SortedIds(t.restaurantPizzas.Keys);
    if |ids| == 0 then 1
    else
      assert forall k :: k in t.restaurantPizzas ==> k <= ids[|ids| - 1] by {
        forall k | k in t.restaurantPizzas ensures k <= ids[|ids| - 1] {
          var i :| 0 <= i < |ids| && ids[i] == k;
        }
      }
      ids[|ids| - 1] + 1
  }

  /** Whether committing a new join row fails. The store rejects a row whose
      pizza_id or restaurant_id names no row (the declared foreign keys), and
      `fault` stands for any other failure the database reports. */
  predicate CommitFails(t: Tables, pizzaId: int, restaurantId: int, fault: bool) {
    fault || pizzaId !in t.pizzas || restaurantId !in t.restaurants
  }

  class Database {
    var restaurants: map<int, Restaurant>
    var pizzas: map<int, Pizza>
    var restaurantPizzas: map<int, RestaurantPizza>

    function Snapshot(): Tables
      reads this
    {
      Tables(restaurants, pizzas, restaurantPizzas)
    }

    predicate Valid()
      reads this
    {
      Wellformed(Snapshot())
    }

    constructor (seed: Tables)
      requires Wellformed(seed)
      ensures Valid()
      ensures Snapshot() == seed
    {
      restaurants := seed.restaurants;
      pizzas := seed.pizzas;
      restaurantPizzas := seed.restaurantPizzas;
    }

    /** Deletes the given join rows one at a time, as the cascade does. */
    method RemoveRows(rows: seq<RestaurantPizza>)
      requires Valid()
      modifies this
      ensures Valid()
      ensures restaurants == old(restaurants) && pizzas == old(pizzas)
      ensures restaurantPizzas == old(restaurantPizzas) - IdsOf(rows)
    {
      var i := 0;
      while i < |rows|
        invariant 0 <= i <= |rows|
        invariant Valid()
        invariant restaurants == old(restaurants) && pizzas == old(pizzas)
        invariant restaurantPizzas == old(restaurantPizzas) - IdsOf(rows[..i])
      {
        assert IdsOf(rows[..i + 1]) == IdsOf(rows[..i]) + {rows[i].id} by {
          assert rows[..i + 1] == rows[..i] + [rows[i]];
        }
        restaurantPizzas := restaurantPizzas - {rows[i].id};
        i := i + 1;
      }
      assert rows[..i] == rows;
    }

    /** session.delete of a restaurant or a pizza, then commit: the cascade
        removes the parent's join rows, then the parent itself. */
    method Delete(rel: Relationship, parent: int)
      requires Valid()
      modifies this
      ensures Valid()
      ensures Snapshot() == DeleteCascade(old(Snapshot()), rel, parent)
    {
      var rows := RowsOf(Snapshot(), rel, parent);
      RowsOfIds(Snapshot(), rel, parent);
      DeleteCascadeWellformed(Snapshot(), rel, parent);
      RemoveRows(rows);
      match rel
      case OfRestaurant => restaurants := restaurants - {parent};
      case OfPizza => pizzas := pizzas - {parent};
    }

    /** session.add of a new join row, then commit. On success the row is
        stored under a fresh id; on failure nothing is stored. */
    method Insert(price: int, pizzaId: int, restaurantId: int, fault: bool)
      returns (row: Option<RestaurantPizza>)
      requires Valid()
      requires ValidatePrice(price).Success?
      modifies this
      ensures Valid()
      ensures row.Some? <==> !CommitFails(old(Snapshot()), pizzaId, restaurantId, fault)
      ensures row.None? ==> Snapshot() == old(Snapshot())
      ensures row.Some? ==>
        && row.value == RestaurantPizza(NextRowId(old(Snapshot())), price, pizzaId, restaurantId)
        && row.value.id !in old(restaurantPizzas)
        && Snapshot() == old(Snapshot()).(restaurantPizzas := old(restaurantPizzas)[row.value.id := row.value])
    {
      if CommitFails(Snapshot(), pizzaId, restaurantId, fault) {
        row := None;
      } else {
        var added := RestaurantPizza(NextRowId(Snapshot()), price, pizzaId, restaurantId);
        restaurantPizzas := restaurantPizzas[added.id := added];
        row := Some(added);
      }
    }
  }
}
