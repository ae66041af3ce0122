/** The search endpoint run against the freshly seeded database.

    The catalog holds eleven Chicken Biryani rows: one per restaurant, plus
    a 240.00 version at restaurant 2 (id 7) that the order plan never
    reaches. Searching for "Chicken Biryani" between 0.00 and 1000.00
    therefore matches eleven items, and the limit of ten drops exactly the
    one without orders: the response has one row per restaurant, led by
    restaurant 1 with 96 orders.
 */
module SeededSearch {
  import opened Tables
  import opened Catalog
  import opened Seed
  import opened Search

  /** The ids of the Chicken Biryani rows of the catalog. */
  const ChickenIds: set<int> := {1, 6, 7, 11, 16, 21, 26, 31, 36, 41, 46}

  /** The dish name searched for. */
  const Term: string := "Chicken Biryani"

  /** The validated query of name=Chicken Biryani&minPrice=0&maxPrice=1000. */
  const ChickenQuery: Query := Query(Term, 0, 100000)

  /** Of the catalog's dish names, only "Chicken Biryani" itself matches
      the term: every other name is shorter than the term, except
      "Rajasthani Thali", which has no 'c' where the term could start. */
  lemma OnlyTermMatches(name: string)
    requires name == Term || |name| < |Term| || name == "Rajasthani Thali"
    ensures NameMatches(name, Term) <==> name == Term
  {
    if name == Term {
      NameMatchesItself(Term);
    } else {
      FirstLetterAbsent(name, Term);
    }
  }

  /** Among the five dishes of a restaurant, the Chicken Biryani rows are
      the first of each restaurant and the second of restaurant 2. */
  lemma BlockNames(r: int, i: int)
    requires 1 <= r <= 10 && 0 <= i < 5
    ensures var name := MenuOf(r)[i].0;
      && (name == Term || |name| < |Term| || name == "Rajasthani Thali")
      && (name == Term <==> 5 * (r - 1) + i + 1 in ChickenIds)
  {
  }

  /** A catalog row's name matches the term exactly when the row is a
      Chicken Biryani row. */
  lemma NameFact(rows: seq<MenuRow>, k: int)
    requires IsCatalog(rows) && 0 <= k < 50
    ensures NameMatches(rows[k].dishName, Term) <==> rows[k].id in ChickenIds
  {
    var r, i := k / 5 + 1, k % 5;
    assert rows[k].dishName == MenuOf(r)[i].0;
    BlockNames(r, i);
    OnlyTermMatches(rows[k].dishName);
  }

  /** Every catalog price lies inside the queried range 0.00..1000.00. */
  lemma PriceFact(rows: seq<MenuRow>, k: int)
    requires IsCatalog(rows) && 0 <= k < 50
    ensures 0 <= rows[k].priceCents <= 100000
  {
    CatalogWellFormed();
  }

  /** Every catalog row finds its restaurant. */
  lemma JoinFact(rows: seq<MenuRow>, k: int)
    requires IsCatalog(rows) && 0 <= k < 50
    ensures RestaurantById(CatalogRestaurants(), rows[k].restaurantId).Some?
  {
    CatalogJoins(rows);
  }

  /** A catalog row passes the filters and the join exactly when it is one
      of the Chicken Biryani rows. */
  lemma ChickenRow(rows: seq<MenuRow>, k: int)
    requires IsCatalog(rows) && 0 <= k < 50
    ensures Joined(CatalogRestaurants(), rows[k], ChickenQuery) <==> rows[k].id in ChickenIds
  {
    NameFact(rows, k);
    PriceFact(rows, k);
    JoinFact(rows, k);
  }

  /** The items the query keeps are the eleven Chicken Biryani rows. */
  lemma ChickenJoinedIds(db: Database)
    requires db.restaurants == CatalogRestaurants() && IsCatalog(db.menuItems)
    ensures JoinedIds(db, ChickenQuery, db.menuItems) == ChickenIds
  {
    var rows := db.menuItems;
    forall k | 0 <= k < |rows|
      ensures Joined(db.restaurants, rows[k], ChickenQuery) <==> rows[k].id in ChickenIds
    {
      ChickenRow(rows, k);
    }
    forall x | x in ChickenIds ensures exists k :: 0 <= k < |rows| && rows[k].id == x {
      assert 1 <= x <= 50;
      assert rows[x - 1].id == x;
    }
    JoinedIdsExactly(db, ChickenQuery, rows, ChickenIds);
  }

  /** There are eleven Chicken Biryani rows. */
  lemma ChickenIdsSize()
    ensures |ChickenIds| == 11
  {
  }

  /** The planned orders of the Chicken Biryani rows: at most 96, and the
      extremes are unique. */
  lemma ChickenPlanned(id: int)
    requires id in ChickenIds
    ensures Planned(id) <= 96
    ensures Planned(id) == 96 <==> id == 1
    ensures Planned(id) == 0 <==> id == 7
  {
  }

  /** Apart from id 7, the Chicken Biryani row with id `id` belongs to
      restaurant (id + 4) / 5, and the one of restaurant 2 costs 200.00. */
  lemma ChickenRestaurant(rows: seq<MenuRow>, id: int)
    requires IsCatalog(rows) && id in ChickenIds && id != 7
    ensures 5 * rows[id - 1].restaurantId - 4 == id
    ensures 1 <= rows[id - 1].restaurantId <= 10
    ensures rows[id - 1].restaurantId == 2 ==> rows[id - 1].priceCents == 20000
  {
  }

  /** In a list of eleven groups sorted by count, with distinct items whose
      ids are `ids`, where item `zero` has no orders, every other item has
      some and item `top` has strictly the most, the first ten are all but
      `zero`, led by `top`. */
  lemma UnorderedSortsLast(s: seq<Group>, orders: seq<int>, ids: set<int>, zero: int, top: int)
    requires SortedByCount(s) && DistinctItems(s) && |s| == Limit + 1
    requires forall p :: 0 <= p < |s| ==>
      s[p].item.id in ids && s[p].orderCount == OrderCount(orders, s[p].item.id)
    requires forall id :: id in ids ==> exists p :: 0 <= p < |s| && s[p].item.id == id
    requires zero in ids && top in ids
    requires OrderCount(orders, zero) == 0
    requires forall x :: x in ids && x != zero ==> OrderCount(orders, x) > 0
    requires forall x :: x in ids && x != top ==> OrderCount(orders, x) < OrderCount(orders, top)
    ensures forall k :: 0 <= k < Limit ==> s[k].item.id in ids && s[k].item.id != zero
    ensures forall id :: id in ids && id != zero ==> exists k :: 0 <= k < Limit && s[k].item.id == id
    ensures s[0].item.id == top
  {
    var pz :| 0 <= pz <= Limit && s[pz].item.id == zero;
    assert s[Limit].orderCount <= s[pz].orderCount == 0;
    assert s[Limit].item.id == zero;
    forall k | 0 <= k < Limit ensures s[k].item.id != zero {
      assert s[k].item.id != s[Limit].item.id;
    }
    forall id | id in ids && id != zero ensures exists k :: 0 <= k < Limit && s[k].item.id == id {
      var p :| 0 <= p <= Limit && s[p].item.id == id;
      assert p != Limit;
    }
    var pt :| 0 <= pt <= Limit && s[pt].item.id == top;
    assert s[0].orderCount >= s[pt].orderCount;
  }

  /** Sorting groups keeps the facts that hold of each group and the ids
      the groups cover. */
  lemma SortedFacts(gs: seq<Group>, orders: seq<int>, ids: set<int>)
    requires forall g :: g in gs ==> g.item.id in ids && g.orderCount == OrderCount(orders, g.item.id)
    requires forall id :: id in ids ==> exists g :: g in gs && g.item.id == id
    ensures var s := SortByCount(gs);
      && |s| == |gs|
      && (forall p :: 0 <= p < |s| ==> s[p].item.id in ids && s[p].orderCount == OrderCount(orders, s[p].item.id))
      && (forall id :: id in ids ==> exists p :: 0 <= p < |s| && s[p].item.id == id)
  {
    var s := SortByCount(gs);
    assert |s| == |multiset(s)| == |multiset(gs)|;
    forall p | 0 <= p < |s|
      ensures s[p].item.id in ids && s[p].orderCount == OrderCount(orders, s[p].item.id)
    {
      assert s[p] in multiset(gs);
    }
    forall id | id in ids ensures exists p :: 0 <= p < |s| && s[p].item.id == id {
      var g :| g in gs && g.item.id == id;
      assert g in multiset(s);
    }
  }

  /** Ranking eleven groups with distinct items whose ids are `ids`, where
      item `zero` has no orders, every other item has some and item `top`
      has strictly the most, keeps all but `zero`, led by `top`. */
  lemma RankedDropsUnordered(gs: seq<Group>, orders: seq<int>, ids: set<int>, zero: int, top: int)
    requires DistinctItems(gs) && |gs| == Limit + 1
    requires forall g :: g in gs ==> g.item.id in ids && g.orderCount == OrderCount(orders, g.item.id)
    requires forall id :: id in ids ==> exists g :: g in gs && g.item.id == id
    requires zero in ids && top in ids
    requires OrderCount(orders, zero) == 0
    requires forall x :: x in ids && x != zero ==> OrderCount(orders, x) > 0
    requires forall x :: x in ids && x != top ==> OrderCount(orders, x) < OrderCount(orders, top)
    ensures var a := Ranked(gs);
      && |a| == Limit
      && (forall k :: 0 <= k < Limit ==> a[k].item.id in ids && a[k].item.id != zero)
      && (forall id :: id in ids && id != zero ==> exists k :: 0 <= k < Limit && a[k].item.id == id)
      && a[0].item.id == top
  {
    SortKeepsDistinct(gs);
    SortedFacts(gs, orders, ids);
    var s := SortByCount(gs);
    UnorderedSortsLast(s, orders, ids, zero, top);
    var a := s[..Limit];
    assert Ranked(gs) == a;
    forall k | 0 <= k < Limit ensures a[k].item.id in ids && a[k].item.id != zero {
      assert a[k] == s[k];
    }
    forall id | id in ids && id != zero ensures exists k :: 0 <= k < Limit && a[k].item.id == id {
      var k :| 0 <= k < Limit && s[k].item.id == id;
      assert a[k] == s[k];
    }
    assert a[0] == s[0];
  }

  /** The Chicken Biryani row of restaurant `r` heads its block. */
  lemma ChickenIdOf(r: int)
    requires 1 <= r <= 10
    ensures 5 * r - 4 in ChickenIds && 5 * r - 4 != 7
  {
  }

  /** Some row of the response belongs to restaurant `r`. */
  predicate HasRestaurant(rows: seq<ResultRow>, r: int)
  {
    exists k :: 0 <= k < |rows| && rows[k].restaurantId == r
  }

  /** On the seeded tables the query keeps the eleven Chicken Biryani rows
      and returns all of them except the premium row 7, led by row 1. */
  lemma SeededChickenAnswer(db: Database)
    requires db.restaurants == CatalogRestaurants() && IsCatalog(db.menuItems)
    requires forall x :: OrderCount(db.orders, x) == Planned(x)
    ensures var a := Answer(db, ChickenQuery);
      && |a| == Limit
      && (forall k :: 0 <= k < Limit ==> a[k].item.id in ChickenIds && a[k].item.id != 7)
      && (forall id :: id in ChickenIds && id != 7 ==> exists k :: 0 <= k < Limit && a[k].item.id == id)
      && a[0].item.id == 1
  {
    var rows := db.menuItems;
    ChickenJoinedIds(db);
    ChickenIdsSize();
    CatalogJoins(rows);
    forall x | x in ChickenIds
      ensures x != 7 ==> OrderCount(db.orders, x) > 0
      ensures x != 1 ==> OrderCount(db.orders, x) < OrderCount(db.orders, 1)
    {
      ChickenPlanned(x);
      ChickenPlanned(1);
    }
    ChickenPlanned(7);
    MatchingCount(db, ChickenQuery, rows);
    MatchingDistinct(db, ChickenQuery, rows);
    MatchingIds(db, ChickenQuery, rows);
    RankedDropsUnordered(Matching(db, ChickenQuery, rows), db.orders, ChickenIds, 7, 1);
  }

  /** The rows of that answer: one per restaurant, restaurant 1 first with
      96 orders, and none for the 240.00 Chicken Biryani of restaurant 2. */
  lemma SeededChickenRows(db: Database)
    requires db.restaurants == CatalogRestaurants() && IsCatalog(db.menuItems)
    requires forall x :: OrderCount(db.orders, x) == Planned(x)
    ensures var rows := RowsOf(Answer(db, ChickenQuery));
      && |rows| == 10
      && rows[0].restaurantId == 1 && rows[0].orderCount == 96
      && (forall k :: 0 <= k < 10 ==> 1 <= rows[k].restaurantId <= 10)
      && (forall r :: 1 <= r <= 10 ==> HasRestaurant(rows, r))
      && (forall i, j :: 0 <= i < j < 10 ==> rows[i].restaurantId != rows[j].restaurantId)
      && (forall k :: 0 <= k < 10 ==> !(rows[k].restaurantId == 2 && rows[k].dishPrice == 24000))
  {
    var items := db.menuItems;
    SeededChickenAnswer(db);
    CatalogJoins(items);
    var a := Answer(db, ChickenQuery);
    var rows := RowsOf(a);
    forall k | 0 <= k < 10
      ensures 5 * rows[k].restaurantId - 4 == a[k].item.id
      ensures 1 <= rows[k].restaurantId <= 10
      ensures rows[k].restaurantId == 2 ==> rows[k].dishPrice == 20000
    {
      assert a[k] in a;
      var j :| 0 <= j < |items| && items[j] == a[k].item;
      ChickenRestaurant(items, a[k].item.id);
    }
    AnswerDistinct(db, ChickenQuery);
    forall i, j | 0 <= i < j < 10 ensures rows[i].restaurantId != rows[j].restaurantId {
      assert a[i].item.id != a[j].item.id;
    }
    ChickenPlanned(1);
    assert a[0] in a;
    forall r | 1 <= r <= 10 ensures HasRestaurant(rows, r) {
      ChickenIdOf(r);
      var k :| 0 <= k < 10 && a[k].item.id == 5 * r - 4;
      assert rows[k].restaurantId == r;
    }
  }

  /** The response to name=Chicken Biryani&minPrice=0&maxPrice=1000 on the
      freshly seeded database: ten rows, one per restaurant, restaurant 1
      first with 96 orders, and no row for the 240.00 Chicken Biryani of
      restaurant 2. */
  lemma SeededChickenBiryaniSearch(db: Database)
    requires db.restaurants == CatalogRestaurants() && db.menuItems == CatalogRows() && db.orders == SeededOrders
    ensures var resp := SearchDishes(db, Some("Chicken Biryani"), Amount(0), Amount(100000));
      && resp.Found?
      && |resp.restaurants| == 10
      && resp.restaurants[0].restaurantId == 1 && resp.restaurants[0].orderCount == 96
      && (forall k :: 0 <= k < 10 ==> 1 <= resp.restaurants[k].restaurantId <= 10)
      && (forall r :: 1 <= r <= 10 ==> HasRestaurant(resp.restaurants, r))
      && (forall i, j :: 0 <= i < j < 10 ==> resp.restaurants[i].restaurantId != resp.restaurants[j].restaurantId)
      && (forall k :: 0 <= k < 10 ==> !(resp.restaurants[k].restaurantId == 2 && resp.restaurants[k].dishPrice == 24000))
  {
    SeededCountsPlanned(db.orders);
    SeededChickenRows(db);
    ChickenValidates();
  }

  /** The seeded orders hold each item as often as the order plan says. */
  lemma SeededCountsPlanned(orders: seq<int>)
    requires orders == SeededOrders
    ensures forall x :: OrderCount(orders, x) == Planned(x)
  {
    forall x ensures OrderCount(orders, x) == Planned(x) {
      SeededOrderCounts(x);
    }
  }

  /** The search term needs no trimming, and the query parameters pass
      validation unchanged. */
  lemma ChickenValidates()
    ensures Validate(Some(Term), Amount(0), Amount(100000)) == Accept(ChickenQuery)
  {
    TrimKeeps(Term);
  }
}
