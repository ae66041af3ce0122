/** The three tables of the restaurant database, as in-memory values.

    Prices are integer cents: the menu_items.price column is DECIMAL(10, 2),
    so every stored price is a whole number of cents. The orders table is
    represented by its menu_item_id column; an order carries nothing else
    that the seed routine or the search query looks at.
 */
module Tables {

  datatype Option<+T> = None | Some(value: T)

  /** A row of the restaurants table. */
  datatype Restaurant = Restaurant(id: int, name: string, city: string)

  /** A row of the menu_items table. */
  datatype MenuRow = MenuRow(id: int, restaurantId: int, dishName: string, priceCents: int)

  /** The database the search query runs against; `orders` lists the
      menu_item_id of every order row. */
  datatype Database = Database(restaurants: seq<Restaurant>, menuItems: seq<MenuRow>, orders: seq<int>)

  /** The number of order rows that reference menu item `itemId`: what
      COUNT(o.id) gives a menu item after the left join with orders. */
  function OrderCount(orders: seq<int>, itemId: int): (n: nat)
    ensures n <= |orders|
    ensures n > 0 <==> itemId in orders
  {
    MultiplicityBound(orders, itemId);
    multiset(orders)[itemId]
  }

  lemma {:induction false} MultiplicityBound(orders: seq<int>, x: int)
    ensures multiset(orders)[x] <= |orders|
  {
    if orders != [] {
      MultiplicityBound(orders[1..], x);
      assert orders == [orders[0]] + orders[1..];
    }
  }

  /** `n` copies of `x`. */
  function Repeat(x: int, n: nat): (r: seq<int>)
    ensures |r| == n
    ensures forall k :: 0 <= k < n ==> r[k] == x
  {
    seq(n, _ => x)
  }

  lemma {:induction false} RepeatCount(x: int, n: nat, y: int)
    ensures OrderCount(Repeat(x, n), y) == if x == y then n else 0
  {
    if n > 0 {
      RepeatCount(x, n - 1, y);
      assert Repeat(x, n) == Repeat(x, n - 1) + [x];
    } else {
      assert Repeat(x, n) == [];
    }
  }

  /** The restaurant an inner join on `r.id = id` pairs with: the first
      restaurant with that id, or none when no restaurant has it. */
  function RestaurantById(restaurants: seq<Restaurant>, id: int): (r: Option<Restaurant>)
    ensures r.Some? ==> r.value in restaurants && r.value.id == id
    ensures r.None? ==> forall x :: x in restaurants ==> x.id != id
  {
    if restaurants == [] then None
    else if restaurants[0].id == id then Some(restaurants[0])
    else RestaurantById(restaurants[1..], id)
  }

  /** Restaurants numbered `base`, `base + 1`, ... in order: looking up an
      id finds the restaurant at its offset, and only ids in that range are
      found. */
  lemma {:induction false} ByIdConsecutive(restaurants: seq<Restaurant>, base: int)
    requires forall k :: 0 <= k < |restaurants| ==> restaurants[k].id == base + k
    ensures forall id :: RestaurantById(restaurants, id) ==
                         if base <= id < base + |restaurants| then Some(restaurants[id - base]) else None
  {
    if restaurants != [] {
      var tail := restaurants[1..];
      forall k | 0 <= k < |tail| ensures tail[k].id == base + 1 + k {
        assert tail[k] == restaurants[k + 1];
      }
      ByIdConsecutive(tail, base + 1);
      forall id ensures RestaurantById(restaurants, id) ==
        if base <= id < base + |restaurants| then Some(restaurants[id - base]) else None
      {
        if id != base && base + 1 <= id < base + |restaurants| {
          assert tail[id - (base + 1)] == restaurants[id - base];
        }
      }
    }
  }

  /** Primary-key uniqueness of the restaurants table. */
  predicate UniqueRestaurantIds(restaurants: seq<Restaurant>)
  {
    forall i, j :: 0 <= i < j < |restaurants| ==> restaurants[i].id != restaurants[j].id
  }

  /** Primary-key uniqueness of the menu_items table. */
  predicate UniqueIds(items: seq<MenuRow>)
  {
    forall i, j :: 0 <= i < j < |items| ==> items[i].id != items[j].id
  }
}
