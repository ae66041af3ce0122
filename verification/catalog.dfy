/** The fixed sample catalog that the seed routine inserts.

    `RestaurantData` lists the restaurants in insertion order and `DishAt`
    gives the menu items in insertion order. A dish names its restaurant by
    the restaurant's position in `RestaurantData` (1-based). The dishes are
    written as one block of five per restaurant, in the catalog's own order;
    the blocks concatenate to the catalog's flat list of fifty entries.
 */
module Catalog {
  import opened Tables

  /** One entry of the dish list: restaurant position, dish name, price. */
  datatype CatalogDish = CatalogDish(restaurant: int, dishName: string, priceCents: int)

  /** The (name, city) pairs inserted into the restaurants table. */
  const RestaurantData: seq<(string, string)> := [
    ("Hyderabadi Spice House", "Hyderabad"),
    ("Delhi Darbar", "Delhi"),
    ("Mumbai Masala", "Mumbai"),
    ("Chennai Curry Point", "Chennai"),
    ("Bangalore Biryani", "Bangalore"),
    ("Pune Palace", "Pune"),
    ("Kolkata Kitchen", "Kolkata"),
    ("Jaipur Junction", "Jaipur"),
    ("Ahmedabad Aroma", "Ahmedabad"),
    ("Lucknow Legacy", "Lucknow")
  ]

  /** The (dish name, price) pairs of the restaurant at position `restaurant`,
      in the order the catalog lists them; every restaurant has five. */
  function MenuOf(restaurant: int): (items: seq<(string, int)>)
    ensures 1 <= restaurant <= 10 ==> |items| == 5
  {
    if restaurant == 1 then [("Chicken Biryani", 22000), ("Mutton Biryani", 28000), ("Veg Biryani", 15000),
               ("Butter Chicken", 25000), ("Paneer Tikka", 18000)]
    else if restaurant == 2 then [("Chicken Biryani", 20000), ("Chicken Biryani", 24000), ("Veg Biryani", 16000),
               ("Dal Makhani", 18000), ("Naan", 5000)]
    else if restaurant == 3 then [("Chicken Biryani", 23000), ("Fish Biryani", 26000), ("Pav Bhaji", 12000),
               ("Vada Pav", 3000), ("Dosa", 8000)]
    else if restaurant == 4 then [("Chicken Biryani", 21000), ("Egg Biryani", 19000), ("Idli", 6000),
               ("Sambar", 4000), ("Rasam", 3500)]
    else if restaurant == 5 then [("Chicken Biryani", 22500), ("Mutton Biryani", 29000), ("Veg Biryani", 15500),
               ("Chicken Curry", 20000), ("Roti", 2000)]
    else if restaurant == 6 then [("Chicken Biryani", 21500), ("Veg Biryani", 14500), ("Misal Pav", 10000),
               ("Bhel Puri", 6000), ("Puran Poli", 8000)]
    else if restaurant == 7 then [("Chicken Biryani", 20500), ("Fish Biryani", 25000), ("Rasgulla", 5000),
               ("Sandesh", 6000), ("Kathi Roll", 9000)]
    else if restaurant == 8 then [("Chicken Biryani", 23500), ("Dal Baati", 18000), ("Gatte Ki Sabzi", 16000),
               ("Rajasthani Thali", 30000), ("Lassi", 4000)]
    else if restaurant == 9 then [("Chicken Biryani", 19500), ("Dhokla", 7000), ("Gujarati Thali", 25000),
               ("Fafda", 5000), ("Jalebi", 4000)]
    else if restaurant == 10 then [("Chicken Biryani", 24000), ("Mutton Biryani", 30000), ("Kebabs", 22000),
                ("Nihari", 18000), ("Sheermal", 3000)]
    else []
  }

  /** The dish at position `k` of the dish list: the dishes of restaurant 1
      come first, then those of restaurant 2, and so on. */
  function DishAt(k: int): CatalogDish
  {
    var r := k / 5 + 1;
    if 0 <= k < 50 then CatalogDish(r, MenuOf(r)[k % 5].0, MenuOf(r)[k % 5].1)
    else CatalogDish(0, [], 0)
  }

  /** The menu_items row with position `k` in insertion order: it received
      id k + 1. */
  function RowAt(k: int): MenuRow
  {
    MenuRow(k + 1, DishAt(k).restaurant, DishAt(k).dishName, DishAt(k).priceCents)
  }

  /** `rows` is the menu_items table as the seed routine re-reads it
      (ORDER BY id) when the rows received ids 1, 2, ... in insertion
      order, as they do after TRUNCATE resets the auto-increment counter. */
  predicate IsCatalog(rows: seq<MenuRow>)
  {
    |rows| == 50 && forall k :: 0 <= k < 50 ==> rows[k] == RowAt(k)
  }

  /** The restaurants rows with ids 1, 2, ... in insertion order: the ids
      are distinct, and looking up id `id` finds the `id`-th (name, city)
      pair, for exactly the ids 1..10. */
  function CatalogRestaurants(): (rs: seq<Restaurant>)
    ensures |rs| == |RestaurantData|
    ensures UniqueRestaurantIds(rs)
    ensures forall id :: RestaurantById(rs, id) ==
                         if 1 <= id <= |RestaurantData|
                         then Some(Restaurant(id, RestaurantData[id - 1].0, RestaurantData[id - 1].1))
                         else None
  {
    var rs := seq(|RestaurantData|, k requires 0 <= k < |RestaurantData| =>
      Restaurant(k + 1, RestaurantData[k].0, RestaurantData[k].1));
    ByIdConsecutive(rs, 1);
    rs
  }

  /** The fifty catalog rows: their ids are distinct, and every row has a
      restaurant of the catalog to join with. */
  function CatalogRows(): (rows: seq<MenuRow>)
    ensures IsCatalog(rows)
    ensures UniqueIds(rows)
    ensures forall k :: 0 <= k < |rows| ==> RestaurantById(CatalogRestaurants(), rows[k].restaurantId).Some?
  {
    var rows := seq(50, RowAt);
    CatalogJoins(rows);
    rows
  }

  /** The re-read catalog has unique ids, and the inner join pairs every
      row with the restaurant of its position. */
  lemma CatalogJoins(rows: seq<MenuRow>)
    requires IsCatalog(rows)
    ensures UniqueIds(rows)
    ensures forall k :: 0 <= k < |rows| ==>
      RestaurantById(CatalogRestaurants(), rows[k].restaurantId).Some? &&
      RestaurantById(CatalogRestaurants(), rows[k].restaurantId).value.id == rows[k].restaurantId
  {
    CatalogWellFormed();
  }

  /** Every dish names an existing restaurant position and has a price
      between 0.00 and 300.00, and the ids of the re-read rows ascend. */
  lemma CatalogWellFormed()
    ensures |RestaurantData| == 10
    ensures forall k :: 0 <= k < 50 ==>
      1 <= DishAt(k).restaurant <= |RestaurantData| && 0 <= DishAt(k).priceCents <= 30000
    ensures forall rows: seq<MenuRow>, i, j :: IsCatalog(rows) && 0 <= i < j < |rows| ==> rows[i].id < rows[j].id
  {
  }
}
