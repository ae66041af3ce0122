/** Order synthesis of the seed routine.

    After the catalog is inserted, the seed routine re-reads menu_items in
    id order, groups the rows into a two-level lookup keyed by restaurant id
    and then dish name, resolves each (restaurant, dish, price) tuple of its
    order plan to a row id, and appends that id to the order list as many
    times as the tuple's count. The orders insert is issued only when the
    list is non-empty.
 */
module Seed {
  import opened Tables
  import opened Catalog

  /** restaurant_id -> dish_name -> the rows with that key, in read order. */
  type Lookup = map<int, map<string, seq<MenuRow>>>

  type Key = (int, string)

  predicate HasKey(row: MenuRow, restId: int, dishName: string)
  {
    row.restaurantId == restId && row.dishName == dishName
  }

  /** The rows of `rows` whose key is (restId, dishName), in their order in `rows`. */
  function Bucket(rows: seq<MenuRow>, restId: int, dishName: string): seq<MenuRow>
  {
    if rows == [] then []
    else
      var last := rows[|rows| - 1];
      Bucket(rows[..|rows| - 1], restId, dishName) + (if HasKey(last, restId, dishName) then [last] else [])
  }

  /** The rows the lookup holds under (restId, dishName); no rows when either
      key is missing. */
  function BucketOf(lookup: Lookup, restId: int, dishName: string): seq<MenuRow>
  {
    if restId in lookup && dishName in lookup[restId] then lookup[restId][dishName] else []
  }

  /** The distinct (restaurant_id, dish_name) keys of `rows`, in order of first occurrence. */
  function KeysOf(rows: seq<MenuRow>): seq<Key>
  {
    if rows == [] then []
    else
      var ks := KeysOf(rows[..|rows| - 1]);
      var last := rows[|rows| - 1];
      if (last.restaurantId, last.dishName) in ks then ks else ks + [(last.restaurantId, last.dishName)]
  }

  /** The total size of the buckets of `rows` under `keys`. */
  function SizeSum(rows: seq<MenuRow>, keys: seq<Key>): nat
  {
    if keys == [] then 0
    else
      var k := keys[|keys| - 1];
      SizeSum(rows, keys[..|keys| - 1]) + |Bucket(rows, k.0, k.1)|
  }

  /** The total size of the lookup's buckets under `keys`. */
  function LookupSize(lookup: Lookup, keys: seq<Key>): nat
  {
    if keys == [] then 0
    else
      var k := keys[|keys| - 1];
      LookupSize(lookup, keys[..|keys| - 1]) + |BucketOf(lookup, k.0, k.1)|
  }

  predicate Distinct<T(==)>(s: seq<T>)
  {
    forall i, j :: 0 <= i < j < |s| ==> s[i] != s[j]
  }

  // ---------------------------------------------------------------------
  // Buckets: each row sits in exactly the bucket of its key

  /** A bucket holds each row of its key exactly as often as the rows do,
      and no row of another key: the grouping neither drops nor duplicates. */
  lemma {:induction false} BucketMultiplicity(rows: seq<MenuRow>, restId: int, dishName: string, x: MenuRow)
    ensures multiset(Bucket(rows, restId, dishName))[x] ==
            if HasKey(x, restId, dishName) then multiset(rows)[x] else 0
  {
    if rows != [] {
      var init, last := rows[..|rows| - 1], rows[|rows| - 1];
      BucketMultiplicity(init, restId, dishName, x);
      assert rows == init + [last];
    }
  }

  /** Rows read in ascending id order give buckets in ascending id order. */
  lemma {:induction false} BucketAscending(rows: seq<MenuRow>, restId: int, dishName: string)
    requires forall i, j :: 0 <= i < j < |rows| ==> rows[i].id < rows[j].id
    ensures var b := Bucket(rows, restId, dishName);
      forall i, j :: 0 <= i < j < |b| ==> b[i].id < b[j].id
  {
    if rows != [] {
      var init, last := rows[..|rows| - 1], rows[|rows| - 1];
      BucketAscending(init, restId, dishName);
      var b0 := Bucket(init, restId, dishName);
      forall i | 0 <= i < |b0|
        ensures b0[i].id < last.id
      {
        BucketMultiplicity(init, restId, dishName, b0[i]);
        assert b0[i] in multiset(b0);
        var k :| 0 <= k < |init| && init[k] == b0[i];
        assert rows[k] == init[k];
      }
    }
  }

  /** Bucket over a concatenation. */
  lemma {:induction false} BucketAppend(a: seq<MenuRow>, b: seq<MenuRow>, restId: int, dishName: string)
    ensures Bucket(a + b, restId, dishName) == Bucket(a, restId, dishName) + Bucket(b, restId, dishName)
  {
    if b == [] {
      assert a + b == a;
    } else {
      var binit, last := b[..|b| - 1], b[|b| - 1];
      BucketAppend(a, binit, restId, dishName);
      assert (a + b)[..|a + b| - 1] == a + binit;
    }
  }

  // ---------------------------------------------------------------------
  // Keys and the size of the partition

  lemma {:induction false} KeysOfDistinct(rows: seq<MenuRow>)
    ensures Distinct(KeysOf(rows))
    ensures forall r, d :: (r, d) in KeysOf(rows) <==> Bucket(rows, r, d) != []
  {
    if rows != [] {
      var init, last := rows[..|rows| - 1], rows[|rows| - 1];
      KeysOfDistinct(init);
    }
  }

  lemma {:induction false} SizeSumStep(init: seq<MenuRow>, last: MenuRow, keys: seq<Key>)
    requires Distinct(keys)
    ensures SizeSum(init + [last], keys) ==
            SizeSum(init, keys) + if (last.restaurantId, last.dishName) in keys then 1 else 0
  {
    var rows := init + [last];
    assert rows[..|rows| - 1] == init;
    if keys != [] {
      var kinit := keys[..|keys| - 1];
      assert Distinct(kinit);
      SizeSumStep(init, last, kinit);
      assert keys == kinit + [keys[|keys| - 1]];
    }
  }

  /** The buckets of the distinct keys of `rows` together hold `|rows|` rows. */
  lemma {:induction false} PartitionSize(rows: seq<MenuRow>)
    ensures SizeSum(rows, KeysOf(rows)) == |rows|
  {
    if rows != [] {
      var init, last := rows[..|rows| - 1], rows[|rows| - 1];
      var ks := KeysOf(init);
      var kl := (last.restaurantId, last.dishName);
      assert rows == init + [last];
      PartitionSize(init);
      KeysOfDistinct(init);
      SizeSumStep(init, last, ks);
      if kl !in ks {
        assert Bucket(init, kl.0, kl.1) == [];
        assert (ks + [kl])[..|ks|] == ks;
      }
    }
  }

  lemma {:induction false} LookupSizeIsSizeSum(lookup: Lookup, rows: seq<MenuRow>, keys: seq<Key>)
    requires forall r, d :: BucketOf(lookup, r, d) == Bucket(rows, r, d)
    ensures LookupSize(lookup, keys) == SizeSum(rows, keys)
  {
    if keys != [] {
      LookupSizeIsSizeSum(lookup, rows, keys[..|keys| - 1]);
    }
  }

  // ---------------------------------------------------------------------
  // Building the lookup (the loop that groups the re-read rows)

  /** Appending one row to the rows read so far extends exactly its own bucket. */
  lemma BucketStep(rows: seq<MenuRow>, i: nat)
    requires i < |rows|
    ensures forall r, d :: Bucket(rows[..i + 1], r, d) ==
                          Bucket(rows[..i], r, d) + (if HasKey(rows[i], r, d) then [rows[i]] else [])
  {
    assert rows[..i + 1][..i] == rows[..i];
  }

  /** What a lookup whose buckets are exactly those of `rows`, with no empty
      bucket and no empty restaurant entry, holds besides the buckets. */
  lemma LookupShape(lookup: Lookup, rows: seq<MenuRow>)
    requires Groups(lookup, rows)
    ensures forall r, d :: BucketOf(lookup, r, d) == Bucket(rows, r, d)
    ensures forall r, d :: r in lookup && d in lookup[r] <==> (r, d) in KeysOf(rows)
    ensures forall r :: r in lookup ==> exists row :: row in rows && row.restaurantId == r
    ensures Distinct(KeysOf(rows)) && LookupSize(lookup, KeysOf(rows)) == |rows|
  {
    KeysOfDistinct(rows);
    PartitionSize(rows);
    LookupSizeIsSizeSum(lookup, rows, KeysOf(rows));
    forall r, d
      ensures r in lookup && d in lookup[r] <==> (r, d) in KeysOf(rows)
    {
      assert BucketOf(lookup, r, d) == Bucket(rows, r, d);
    }
    forall r | r in lookup
      ensures exists row :: row in rows && row.restaurantId == r
    {
      var d :| d in lookup[r];
      var b := Bucket(rows, r, d);
      assert BucketOf(lookup, r, d) == b;
      BucketMultiplicity(rows, r, d, b[0]);
      assert b[0] in multiset(b);
    }
  }

  /** `lookup` groups exactly the rows of `rows`, with no empty bucket and
      no empty restaurant entry. */
  ghost predicate Groups(lookup: Lookup, rows: seq<MenuRow>)
  {
    && (forall r, d :: BucketOf(lookup, r, d) == Bucket(rows, r, d))
    && (forall r, d :: r in lookup && d in lookup[r] ==> lookup[r][d] != [])
    && (forall r :: r in lookup ==> |lookup[r]| > 0)
  }

  /** The lookup after pushing `item` into the bucket of its key, creating
      the restaurant entry and the bucket first where they are missing. */
  function WithRow(lookup: Lookup, item: MenuRow): Lookup
  {
    var restId, dish := item.restaurantId, item.dishName;
    var withRestaurant := if restId !in lookup then lookup[restId := map[]] else lookup;
    var withBucket := if dish !in withRestaurant[restId]
                      then withRestaurant[restId := withRestaurant[restId][dish := []]]
                      else withRestaurant;
    withBucket[restId := withBucket[restId][dish := withBucket[restId][dish] + [item]]]
  }

  /** Pushing `item` extends exactly the bucket of its key, and creates no
      empty bucket or restaurant entry. */
  lemma WithRowBuckets(lookup: Lookup, item: MenuRow)
    ensures forall r, d :: BucketOf(WithRow(lookup, item), r, d) ==
                          BucketOf(lookup, r, d) + (if HasKey(item, r, d) then [item] else [])
    ensures forall r, d :: r in WithRow(lookup, item) && d in WithRow(lookup, item)[r] ==>
                          (r, d) == (item.restaurantId, item.dishName) || (r in lookup && d in lookup[r])
    ensures forall r :: r in WithRow(lookup, item) ==>
                       r == item.restaurantId || (r in lookup && lookup[r] == WithRow(lookup, item)[r])
    ensures item.restaurantId in WithRow(lookup, item) &&
            item.dishName in WithRow(lookup, item)[item.restaurantId]
  {
  }

  lemma GroupsStep(lookup: Lookup, rows: seq<MenuRow>, i: nat)
    requires i < |rows| && Groups(lookup, rows[..i])
    ensures Groups(WithRow(lookup, rows[i]), rows[..i + 1])
  {
    var next := WithRow(lookup, rows[i]);
    BucketStep(rows, i);
    WithRowBuckets(lookup, rows[i]);
    forall r, d | r in next && d in next[r] ensures next[r][d] != [] {
      assert BucketOf(next, r, d) == next[r][d];
    }
  }

  /** Groups `menuItemsList` by restaurant id and dish name. */
  method BuildLookup(menuItemsList: seq<MenuRow>) returns (lookup: Lookup)
    ensures forall r, d :: BucketOf(lookup, r, d) == Bucket(menuItemsList, r, d)
    ensures forall r, d :: r in lookup && d in lookup[r] <==> (r, d) in KeysOf(menuItemsList)
    ensures forall r :: r in lookup ==> exists row :: row in menuItemsList && row.restaurantId == r
    ensures Distinct(KeysOf(menuItemsList)) && LookupSize(lookup, KeysOf(menuItemsList)) == |menuItemsList|
  {
    lookup := map[];
    for i := 0 to |menuItemsList|
      invariant Groups(lookup, menuItemsList[..i])
    {
      var item := menuItemsList[i];
      var restId := item.restaurantId;
      var dish := item.dishName;
      ghost var before := lookup;
      if restId !in lookup {
        lookup := lookup[restId := map[]];
      }
      if dish !in lookup[restId] {
        lookup := lookup[restId := lookup[restId][dish := []]];
      }
      lookup := lookup[restId := lookup[restId][dish := lookup[restId][dish] + [item]]];
      assert lookup == WithRow(before, item);
      GroupsStep(before, menuItemsList, i);
    }
    assert menuItemsList[..|menuItemsList|] == menuItemsList;
    LookupShape(lookup, menuItemsList);
  }

  // ---------------------------------------------------------------------
  // findMenuItem

  /** The index of the first row of `items` priced `priceCents`. */
  function PriceIndex(items: seq<MenuRow>, priceCents: int): (k: Option<nat>)
    ensures k.Some? ==> k.value < |items| && items[k.value].priceCents == priceCents
    ensures k.Some? ==> forall j :: 0 <= j < k.value ==> items[j].priceCents != priceCents
    ensures k.None? ==> forall j :: 0 <= j < |items| ==> items[j].priceCents != priceCents
  {
    if items == [] then None
    else if items[0].priceCents == priceCents then Some(0)
    else match PriceIndex(items[1..], priceCents)
      case None => None
      case Some(k) => Some(k + 1)
  }

  /** The id findMenuItem returns for bucket `items`: with a price, the first
      row of that price; without one, the first row; null when there is none. */
  function Resolve(items: seq<MenuRow>, price: Option<int>): (id: Option<int>)
    ensures price.Some? ==>
      (id.Some? <==> exists k :: 0 <= k < |items| && items[k].priceCents == price.value)
    ensures price.Some? && id.Some? ==>
      exists k :: 0 <= k < |items| && items[k].priceCents == price.value && items[k].id == id.value &&
        forall j :: 0 <= j < k ==> items[j].priceCents != price.value
    ensures price.None? ==> (id.Some? <==> items != [])
    ensures price.None? && id.Some? ==> id.value == items[0].id
  {
    match price
    case Some(p) =>
      (match PriceIndex(items, p)
       case Some(k) => Some(items[k].id)
       case None => None)
    case None => if |items| > 0 then Some(items[0].id) else None
  }

  /** Looks up the bucket of (restId, dishName) and scans it. */
  method FindMenuItem(lookup: Lookup, restId: int, dishName: string, price: Option<int>) returns (id: Option<int>)
    ensures id == Resolve(BucketOf(lookup, restId, dishName), price)
  {
    var items := if restId in lookup && dishName in lookup[restId] then lookup[restId][dishName] else [];
    if price.Some? {
      var i := 0;
      while i < |items|
        invariant 0 <= i <= |items|
        invariant forall j :: 0 <= j < i ==> items[j].priceCents != price.value
      {
        if items[i].priceCents == price.value {
          return Some(items[i].id);
        }
        i := i + 1;
      }
      return None;
    }
    id := if |items| > 0 then Some(items[0].id) else None;
  }

  /** A bucket of rows none of which has price `priceCents` has no such row either. */
  lemma {:induction false} BucketWithoutPrice(rows: seq<MenuRow>, restId: int, dishName: string, priceCents: int)
    requires forall j :: 0 <= j < |rows| ==> !(HasKey(rows[j], restId, dishName) && rows[j].priceCents == priceCents)
    ensures forall x :: x in Bucket(rows, restId, dishName) ==> x.priceCents != priceCents
  {
    if rows != [] {
      var init, last := rows[..|rows| - 1], rows[|rows| - 1];
      BucketWithoutPrice(init, restId, dishName, priceCents);
      var b0 := Bucket(init, restId, dishName);
      var tail: seq<MenuRow> := if HasKey(last, restId, dishName) then [last] else [];
      assert Bucket(rows, restId, dishName) == b0 + tail;
      assert !(HasKey(last, restId, dishName) && last.priceCents == priceCents);
    }
  }

  /** Scanning past a prefix without the price finds the first row after it. */
  lemma {:induction false} PriceIndexAfter(a: seq<MenuRow>, x: MenuRow, b: seq<MenuRow>)
    requires forall i :: 0 <= i < |a| ==> a[i].priceCents != x.priceCents
    ensures PriceIndex(a + [x] + b, x.priceCents) == Some(|a|)
  {
    if a != [] {
      PriceIndexAfter(a[1..], x, b);
      assert (a + [x] + b)[1..] == a[1..] + [x] + b;
    }
  }

  /** Resolving against the lookup of `rows` finds the first row of `rows`
      with the requested restaurant, dish and price. */
  lemma FirstMatchResolves(rows: seq<MenuRow>, restId: int, dishName: string, priceCents: int, k: nat)
    requires k < |rows| && HasKey(rows[k], restId, dishName) && rows[k].priceCents == priceCents
    requires forall j :: 0 <= j < k ==> !(HasKey(rows[j], restId, dishName) && rows[j].priceCents == priceCents)
    ensures Resolve(Bucket(rows, restId, dishName), Some(priceCents)) == Some(rows[k].id)
  {
    var pre, post := rows[..k], rows[k + 1..];
    assert rows == pre + [rows[k]] + post;
    BucketAppend(pre + [rows[k]], post, restId, dishName);
    BucketAppend(pre, [rows[k]], restId, dishName);
    assert Bucket([rows[k]], restId, dishName) == [rows[k]] by {
      assert [rows[k]][..0] == [];
    }
    BucketWithoutPrice(pre, restId, dishName, priceCents);
    var bpre := Bucket(pre, restId, dishName);
    PriceIndexAfter(bpre, rows[k], Bucket(post, restId, dishName));
  }

  /** In the catalog, the first row of restaurant `restId` priced
      `priceCents` is the one at position `k`, so findMenuItem resolves the
      triple to id k + 1. */
  lemma CatalogFirstMatch(rows: seq<MenuRow>, restId: int, dishName: string, priceCents: int, k: nat)
    requires IsCatalog(rows)
    requires k < 50 && DishAt(k) == CatalogDish(restId, dishName, priceCents)
    requires forall j :: 5 * (restId - 1) <= j < k ==> DishAt(j).priceCents != priceCents
    ensures Resolve(Bucket(rows, restId, dishName), Some(priceCents)) == Some(k + 1)
  {
    FirstMatchResolves(rows, restId, dishName, priceCents, k);
  }

  // One lemma per addOrders call of the seed routine: with the lookup
  // built from the catalog, the call's (restaurant, dish, price) resolves
  // to the first catalog row of that restaurant, dish and price.

  lemma ResolvesChickenBiryani1(lookup: Lookup, rows: seq<MenuRow>)
    requires IsCatalog(rows)
    requires forall r, d :: BucketOf(lookup, r, d) == Bucket(rows, r, d)
    ensures Resolve(BucketOf(lookup, 1, "Chicken Biryani"), Some(22000)) == Some(1)
  {
    CatalogFirstMatch(rows, 1, "Chicken Biryani", 22000, 0);
  }

  lemma ResolvesChickenBiryani2(lookup: Lookup, rows: seq<MenuRow>)
    requires IsCatalog(rows)
    requires forall r, d :: BucketOf(lookup, r, d) == Bucket(rows, r, d)
    ensures Resolve(BucketOf(lookup, 2, "Chicken Biryani"), Some(20000)) == Some(6)
  {
    CatalogFirstMatch(rows, 2, "Chicken Biryani", 20000, 5);
  }

  lemma ResolvesChickenBiryani3(lookup: Lookup, rows: seq<MenuRow>)
    requires IsCatalog(rows)
    requires forall r, d :: BucketOf(lookup, r, d) == Bucket(rows, r, d)
    ensures Resolve(BucketOf(lookup, 3, "Chicken Biryani"), Some(23000)) == Some(11)
  {
    CatalogFirstMatch(rows, 3, "Chicken Biryani", 23000, 10);
  }

  lemma ResolvesChickenBiryani4(lookup: Lookup, rows: seq<MenuRow>)
    requires IsCatalog(rows)
    requires forall r, d :: BucketOf(lookup, r, d) == Bucket(rows, r, d)
    ensures Resolve(BucketOf(lookup, 4, "Chicken Biryani"), Some(21000)) == Some(16)
  {
    CatalogFirstMatch(rows, 4, "Chicken Biryani", 21000, 15);
  }

  lemma ResolvesChickenBiryani5(lookup: Lookup, rows: seq<MenuRow>)
    requires IsCatalog(rows)
    requires forall r, d :: BucketOf(lookup, r, d) == Bucket(rows, r, d)
    ensures Resolve(BucketOf(lookup, 5, "Chicken Biryani"), Some(22500)) == Some(21)
  {
    CatalogFirstMatch(rows, 5, "Chicken Biryani", 22500, 20);
  }

  lemma ResolvesChickenBiryani6(lookup: Lookup, rows: seq<MenuRow>)
    requires IsCatalog(rows)
    requires forall r, d :: BucketOf(lookup, r, d) == Bucket(rows, r, d)
    ensures Resolve(BucketOf(lookup, 6, "Chicken Biryani"), Some(21500)) == Some(26)
  {
    CatalogFirstMatch(rows, 6, "Chicken Biryani", 21500, 25);
  }

  lemma ResolvesChickenBiryani7(lookup: Lookup, rows: seq<MenuRow>)
    requires IsCatalog(rows)
    requires forall r, d :: BucketOf(lookup, r, d) == Bucket(rows, r, d)
    ensures Resolve(BucketOf(lookup, 7, "Chicken Biryani"), Some(20500)) == Some(31)
  {
    CatalogFirstMatch(rows, 7, "Chicken Biryani", 20500, 30);
  }

  lemma ResolvesChickenBiryani8(lookup: Lookup, rows: seq<MenuRow>)
    requires IsCatalog(rows)
    requires forall r, d :: BucketOf(lookup, r, d) == Bucket(rows, r, d)
    ensures Resolve(BucketOf(lookup, 8, "Chicken Biryani"), Some(23500)) == Some(36)
  {
    CatalogFirstMatch(rows, 8, "Chicken Biryani", 23500, 35);
  }

  lemma ResolvesChickenBiryani9(lookup: Lookup, rows: seq<MenuRow>)
    requires IsCatalog(rows)
    requires forall r, d :: BucketOf(lookup, r, d) == Bucket(rows, r, d)
    ensures Resolve(BucketOf(lookup, 9, "Chicken Biryani"), Some(19500)) == Some(41)
  {
    CatalogFirstMatch(rows, 9, "Chicken Biryani", 19500, 40);
  }

  lemma ResolvesChickenBiryani10(lookup: Lookup, rows: seq<MenuRow>)
    requires IsCatalog(rows)
    requires forall r, d :: BucketOf(lookup, r, d) == Bucket(rows, r, d)
    ensures Resolve(BucketOf(lookup, 10, "Chicken Biryani"), Some(24000)) == Some(46)
  {
    CatalogFirstMatch(rows, 10, "Chicken Biryani", 24000, 45);
  }

  lemma ResolvesMuttonBiryani1(lookup: Lookup, rows: seq<MenuRow>)
    requires IsCatalog(rows)
    requires forall r, d :: BucketOf(lookup, r, d) == Bucket(rows, r, d)
    ensures Resolve(BucketOf(lookup, 1, "Mutton Biryani"), Some(28000)) == Some(2)
  {
    CatalogFirstMatch(rows, 1, "Mutton Biryani", 28000, 1);
  }

  lemma ResolvesMuttonBiryani5(lookup: Lookup, rows: seq<MenuRow>)
    requires IsCatalog(rows)
    requires forall r, d :: BucketOf(lookup, r, d) == Bucket(rows, r, d)
    ensures Resolve(BucketOf(lookup, 5, "Mutton Biryani"), Some(29000)) == Some(22)
  {
    CatalogFirstMatch(rows, 5, "Mutton Biryani", 29000, 21);
  }

  lemma ResolvesMuttonBiryani10(lookup: Lookup, rows: seq<MenuRow>)
    requires IsCatalog(rows)
    requires forall r, d :: BucketOf(lookup, r, d) == Bucket(rows, r, d)
    ensures Resolve(BucketOf(lookup, 10, "Mutton Biryani"), Some(30000)) == Some(47)
  {
    CatalogFirstMatch(rows, 10, "Mutton Biryani", 30000, 46);
  }

  lemma ResolvesFishBiryani3(lookup: Lookup, rows: seq<MenuRow>)
    requires IsCatalog(rows)
    requires forall r, d :: BucketOf(lookup, r, d) == Bucket(rows, r, d)
    ensures Resolve(BucketOf(lookup, 3, "Fish Biryani"), Some(26000)) == Some(12)
  {
    CatalogFirstMatch(rows, 3, "Fish Biryani", 26000, 11);
  }

  lemma ResolvesEggBiryani4(lookup: Lookup, rows: seq<MenuRow>)
    requires IsCatalog(rows)
    requires forall r, d :: BucketOf(lookup, r, d) == Bucket(rows, r, d)
    ensures Resolve(BucketOf(lookup, 4, "Egg Biryani"), Some(19000)) == Some(17)
  {
    CatalogFirstMatch(rows, 4, "Egg Biryani", 19000, 16);
  }

  lemma ResolvesVegBiryani1(lookup: Lookup, rows: seq<MenuRow>)
    requires IsCatalog(rows)
    requires forall r, d :: BucketOf(lookup, r, d) == Bucket(rows, r, d)
    ensures Resolve(BucketOf(lookup, 1, "Veg Biryani"), Some(15000)) == Some(3)
  {
    CatalogFirstMatch(rows, 1, "Veg Biryani", 15000, 2);
  }

  lemma ResolvesVegBiryani2(lookup: Lookup, rows: seq<MenuRow>)
    requires IsCatalog(rows)
    requires forall r, d :: BucketOf(lookup, r, d) == Bucket(rows, r, d)
    ensures Resolve(BucketOf(lookup, 2, "Veg Biryani"), Some(16000)) == Some(8)
  {
    CatalogFirstMatch(rows, 2, "Veg Biryani", 16000, 7);
  }

  lemma ResolvesVegBiryani5(lookup: Lookup, rows: seq<MenuRow>)
    requires IsCatalog(rows)
    requires forall r, d :: BucketOf(lookup, r, d) == Bucket(rows, r, d)
    ensures Resolve(BucketOf(lookup, 5, "Veg Biryani"), Some(15500)) == Some(23)
  {
    CatalogFirstMatch(rows, 5, "Veg Biryani", 15500, 22);
  }

  lemma ResolvesVegBiryani6(lookup: Lookup, rows: seq<MenuRow>)
    requires IsCatalog(rows)
    requires forall r, d :: BucketOf(lookup, r, d) == Bucket(rows, r, d)
    ensures Resolve(BucketOf(lookup, 6, "Veg Biryani"), Some(14500)) == Some(27)
  {
    CatalogFirstMatch(rows, 6, "Veg Biryani", 14500, 26);
  }

  lemma ResolvesButterChicken1(lookup: Lookup, rows: seq<MenuRow>)
    requires IsCatalog(rows)
    requires forall r, d :: BucketOf(lookup, r, d) == Bucket(rows, r, d)
    ensures Resolve(BucketOf(lookup, 1, "Butter Chicken"), Some(25000)) == Some(4)
  {
    CatalogFirstMatch(rows, 1, "Butter Chicken", 25000, 3);
  }

  lemma ResolvesPaneerTikka1(lookup: Lookup, rows: seq<MenuRow>)
    requires IsCatalog(rows)
    requires forall r, d :: BucketOf(lookup, r, d) == Bucket(rows, r, d)
    ensures Resolve(BucketOf(lookup, 1, "Paneer Tikka"), Some(18000)) == Some(5)
  {
    CatalogFirstMatch(rows, 1, "Paneer Tikka", 18000, 4);
  }

  lemma ResolvesDalMakhani2(lookup: Lookup, rows: seq<MenuRow>)
    requires IsCatalog(rows)
    requires forall r, d :: BucketOf(lookup, r, d) == Bucket(rows, r, d)
    ensures Resolve(BucketOf(lookup, 2, "Dal Makhani"), Some(18000)) == Some(9)
  {
    CatalogFirstMatch(rows, 2, "Dal Makhani", 18000, 8);
  }

  lemma ResolvesPavBhaji3(lookup: Lookup, rows: seq<MenuRow>)
    requires IsCatalog(rows)
    requires forall r, d :: BucketOf(lookup, r, d) == Bucket(rows, r, d)
    ensures Resolve(BucketOf(lookup, 3, "Pav Bhaji"), Some(12000)) == Some(13)
  {
    CatalogFirstMatch(rows, 3, "Pav Bhaji", 12000, 12);
  }

  // ---------------------------------------------------------------------
  // addOrders and the order list

  /** A JavaScript-truthy id: null and 0 are falsy. */
  predicate Truthy(itemId: Option<int>)
  {
    itemId.Some? && itemId.value != 0
  }

  /** The entries addOrders(itemId, numOrders) appends. */
  function Added(itemId: Option<int>, numOrders: int): (r: seq<int>)
    ensures |r| == if Truthy(itemId) && numOrders > 0 then numOrders else 0
    ensures forall k :: 0 <= k < |r| ==> r[k] == itemId.value
  {
    if Truthy(itemId) && numOrders > 0 then Repeat(itemId.value, numOrders) else []
  }

  lemma AddedTruthy(itemId: Option<int>, n: int)
    requires Truthy(itemId) && n >= 0
    ensures Added(itemId, n) == Repeat(itemId.value, n)
  {
  }

  /** The order list the seed routine accumulates before the bulk insert. */
  class OrderList {
    var entries: seq<int>

    constructor ()
      ensures entries == []
    {
      entries := [];
    }

    /** Appends `numOrders` copies of `itemId` when `itemId` is truthy. */
    method AddOrders(itemId: Option<int>, numOrders: int)
      modifies this
      ensures entries == old(entries) + Added(itemId, numOrders)
      ensures |entries| == |old(entries)| + |Added(itemId, numOrders)|
      ensures entries[..|old(entries)|] == old(entries)
    {
      if Truthy(itemId) {
        var j := 0;
        while j < numOrders
          invariant 0 <= j <= if numOrders < 0 then 0 else numOrders
          invariant entries == old(entries) + Repeat(itemId.value, j)
        {
          entries := entries + [itemId.value];
          j := j + 1;
        }
      }
    }
  }

  /** The order list the catalog yields: one block of ids per addOrders call,
      in call order (resolved ids in the comments' restaurant/dish order). */
  const SeededOrders: seq<int> :=
    Repeat(1, 96) + Repeat(6, 85) + Repeat(11, 72) + Repeat(16, 68) + Repeat(21, 91) +
    Repeat(26, 55) + Repeat(31, 63) + Repeat(36, 78) + Repeat(41, 45) + Repeat(46, 88) +
    Repeat(2, 45) + Repeat(22, 52) + Repeat(47, 60) + Repeat(12, 38) + Repeat(17, 42) +
    Repeat(3, 35) + Repeat(8, 28) + Repeat(23, 31) + Repeat(27, 22) +
    Repeat(4, 15) + Repeat(5, 12) + Repeat(9, 8) + Repeat(13, 10)

  /** The orders the Chicken Biryani block plans for each menu item id. */
  function ChickenBiryaniPlanned(itemId: int): nat
  {
    match itemId
    case 1 => 96
    case 6 => 85
    case 11 => 72
    case 16 => 68
    case 21 => 91
    case 26 => 55
    case 31 => 63
    case 36 => 78
    case 41 => 45
    case 46 => 88
    case _ => 0
  }

  /** The orders the other biryani block plans for each menu item id. */
  function OtherBiryaniPlanned(itemId: int): nat
  {
    match itemId
    case 2 => 45
    case 22 => 52
    case 47 => 60
    case 12 => 38
    case 17 => 42
    case 3 => 35
    case 8 => 28
    case 23 => 31
    case 27 => 22
    case _ => 0
  }

  /** The orders the popular dish block plans for each menu item id. */
  function PopularDishPlanned(itemId: int): nat
  {
    match itemId
    case 4 => 15
    case 5 => 12
    case 9 => 8
    case 13 => 10
    case _ => 0
  }

  /** The number of orders the seed plan gives each menu item id. */
  function Planned(itemId: int): nat
  {
    ChickenBiryaniPlanned(itemId) + OtherBiryaniPlanned(itemId) + PopularDishPlanned(itemId)
  }

  /** Appending `n` copies of `y` adds `n` orders to item `y` and none to any other. */
  lemma CountAppendRepeat(s: seq<int>, y: int, n: nat, x: int)
    ensures OrderCount(s + Repeat(y, n), x) == OrderCount(s, x) + (if y == x then n else 0)
  {
    RepeatCount(y, n, x);
    assert multiset(s + Repeat(y, n)) == multiset(s) + multiset(Repeat(y, n));
  }

  lemma ChickenBiryaniCounts(x: int)
    ensures OrderCount(Repeat(1, 96) + Repeat(6, 85) + Repeat(11, 72) + Repeat(16, 68) + Repeat(21, 91) + Repeat(26, 55) + Repeat(31, 63) + Repeat(36, 78) + Repeat(41, 45) + Repeat(46, 88), x) == ChickenBiryaniPlanned(x)
  {
    RepeatCount(1, 96, x);
    CountAppendRepeat(Repeat(1, 96), 6, 85, x);
    CountAppendRepeat(Repeat(1, 96) + Repeat(6, 85), 11, 72, x);
    CountAppendRepeat(Repeat(1, 96) + Repeat(6, 85) + Repeat(11, 72), 16, 68, x);
    CountAppendRepeat(Repeat(1, 96) + Repeat(6, 85) + Repeat(11, 72) + Repeat(16, 68), 21, 91, x);
    CountAppendRepeat(Repeat(1, 96) + Repeat(6, 85) + Repeat(11, 72) + Repeat(16, 68) + Repeat(21, 91), 26, 55, x);
    CountAppendRepeat(Repeat(1, 96) + Repeat(6, 85) + Repeat(11, 72) + Repeat(16, 68) + Repeat(21, 91) + Repeat(26, 55), 31, 63, x);
    CountAppendRepeat(Repeat(1, 96) + Repeat(6, 85) + Repeat(11, 72) + Repeat(16, 68) + Repeat(21, 91) + Repeat(26, 55) + Repeat(31, 63), 36, 78, x);
    CountAppendRepeat(Repeat(1, 96) + Repeat(6, 85) + Repeat(11, 72) + Repeat(16, 68) + Repeat(21, 91) + Repeat(26, 55) + Repeat(31, 63) + Repeat(36, 78), 41, 45, x);
    CountAppendRepeat(Repeat(1, 96) + Repeat(6, 85) + Repeat(11, 72) + Repeat(16, 68) + Repeat(21, 91) + Repeat(26, 55) + Repeat(31, 63) + Repeat(36, 78) + Repeat(41, 45), 46, 88, x);
  }

  lemma OtherBiryaniCounts(s: seq<int>, x: int)
    ensures OrderCount(s + Repeat(2, 45) + Repeat(22, 52) + Repeat(47, 60) + Repeat(12, 38) + Repeat(17, 42) + Repeat(3, 35) + Repeat(8, 28) + Repeat(23, 31) + Repeat(27, 22), x) ==
            OrderCount(s, x) + OtherBiryaniPlanned(x)
  {
    CountAppendRepeat(s, 2, 45, x);
    CountAppendRepeat(s + Repeat(2, 45), 22, 52, x);
    CountAppendRepeat(s + Repeat(2, 45) + Repeat(22, 52), 47, 60, x);
    CountAppendRepeat(s + Repeat(2, 45) + Repeat(22, 52) + Repeat(47, 60), 12, 38, x);
    CountAppendRepeat(s + Repeat(2, 45) + Repeat(22, 52) + Repeat(47, 60) + Repeat(12, 38), 17, 42, x);
    CountAppendRepeat(s + Repeat(2, 45) + Repeat(22, 52) + Repeat(47, 60) + Repeat(12, 38) + Repeat(17, 42), 3, 35, x);
    CountAppendRepeat(s + Repeat(2, 45) + Repeat(22, 52) + Repeat(47, 60) + Repeat(12, 38) + Repeat(17, 42) + Repeat(3, 35), 8, 28, x);
    CountAppendRepeat(s + Repeat(2, 45) + Repeat(22, 52) + Repeat(47, 60) + Repeat(12, 38) + Repeat(17, 42) + Repeat(3, 35) + Repeat(8, 28), 23, 31, x);
    CountAppendRepeat(s + Repeat(2, 45) + Repeat(22, 52) + Repeat(47, 60) + Repeat(12, 38) + Repeat(17, 42) + Repeat(3, 35) + Repeat(8, 28) + Repeat(23, 31), 27, 22, x);
  }

  lemma PopularDishCounts(s: seq<int>, x: int)
    ensures OrderCount(s + Repeat(4, 15) + Repeat(5, 12) + Repeat(9, 8) + Repeat(13, 10), x) ==
            OrderCount(s, x) + PopularDishPlanned(x)
  {
    CountAppendRepeat(s, 4, 15, x);
    CountAppendRepeat(s + Repeat(4, 15), 5, 12, x);
    CountAppendRepeat(s + Repeat(4, 15) + Repeat(5, 12), 9, 8, x);
    CountAppendRepeat(s + Repeat(4, 15) + Repeat(5, 12) + Repeat(9, 8), 13, 10, x);
  }

  /** The seeded orders: 1139 in all. */
  lemma SeededOrderTotal()
    ensures |SeededOrders| == 1139
  {
  }

  /** Each menu item gets exactly its planned number of orders. In
      particular the second Chicken Biryani of restaurant 2 (id 7, priced
      240.00) gets none, because the lookup resolves (2, "Chicken Biryani",
      200.00) to id 6. */
  lemma SeededOrderCounts(x: int)
    ensures OrderCount(SeededOrders, x) == Planned(x)
  {
    ChickenBiryaniCounts(x);
    var cb := Repeat(1, 96) + Repeat(6, 85) + Repeat(11, 72) + Repeat(16, 68) + Repeat(21, 91) + Repeat(26, 55) + Repeat(31, 63) + Repeat(36, 78) + Repeat(41, 45) + Repeat(46, 88);
    OtherBiryaniCounts(cb, x);
    var ob := cb + Repeat(2, 45) + Repeat(22, 52) + Repeat(47, 60) + Repeat(12, 38) + Repeat(17, 42) + Repeat(3, 35) + Repeat(8, 28) + Repeat(23, 31) + Repeat(27, 22);
    PopularDishCounts(ob, x);
  }

  /** Row 7 of the catalog, the 240.00 Chicken Biryani of restaurant 2,
      sits in the same bucket as row 6, behind it. */
  lemma PremiumRowShadowed(rows: seq<MenuRow>)
    requires IsCatalog(rows)
    ensures rows[5].id == 6 && rows[5].priceCents == 20000
    ensures rows[6].id == 7 && rows[6].priceCents == 24000
    ensures Bucket(rows, 2, "Chicken Biryani") == [rows[5], rows[6]]
  {
    var key := "Chicken Biryani";
    var before, pair, after := rows[..5], rows[5..7], rows[7..];
    assert rows == before + pair + after;
    forall k | 0 <= k < |before| ensures !HasKey(before[k], 2, key) {
      assert before[k] == RowAt(k);
    }
    forall k | 0 <= k < |after| ensures !HasKey(after[k], 2, key) {
      assert after[k] == RowAt(k + 7);
    }
    NoKeyEmptyBucket(before, 2, key);
    NoKeyEmptyBucket(after, 2, key);
    BucketAppend(before, pair, 2, key);
    BucketAppend(before + pair, after, 2, key);
    assert rows[5] == RowAt(5) && rows[6] == RowAt(6);
    assert HasKey(pair[0], 2, key) && HasKey(pair[1], 2, key);
    var first := pair[..1];
    assert first[..0] == [] && first[0] == pair[0];
    assert Bucket(first, 2, key) == [pair[0]];
    assert pair[..|pair| - 1] == first;
    assert Bucket(pair, 2, key) == [rows[5], rows[6]];
  }

  /** Rows none of which has the key (restId, dishName) leave its bucket
      empty. */
  lemma {:induction false} NoKeyEmptyBucket(rows: seq<MenuRow>, restId: int, dishName: string)
    requires forall k :: 0 <= k < |rows| ==> !HasKey(rows[k], restId, dishName)
    ensures Bucket(rows, restId, dishName) == []
  {
    if rows != [] {
      NoKeyEmptyBucket(rows[..|rows| - 1], restId, dishName);
    }
  }

  /** The seeded orders give row 7 none, since (2, "Chicken Biryani",
      200.00) resolves to row 6; the Chicken Biryani of restaurant 1 (id 1)
      gets 96. */
  lemma PremiumRowUnordered()
    ensures OrderCount(SeededOrders, 7) == 0
    ensures OrderCount(SeededOrders, 1) == 96
  {
    assert Planned(7) == 0 && Planned(1) == 96;
    SeededOrderCounts(7);
    SeededOrderCounts(1);
  }

  /** Chicken Biryani orders across restaurants. */
  method AddChickenBiryaniOrders(orderList: OrderList, lookup: Lookup, rows: seq<MenuRow>)
    requires IsCatalog(rows)
    requires forall r, d :: BucketOf(lookup, r, d) == Bucket(rows, r, d)
    modifies orderList
    ensures orderList.entries == old(orderList.entries) + Repeat(1, 96) + Repeat(6, 85) + Repeat(11, 72) + Repeat(16, 68) + Repeat(21, 91) + Repeat(26, 55) + Repeat(31, 63) + Repeat(36, 78) + Repeat(41, 45) + Repeat(46, 88)
  {
    var id;
    ResolvesChickenBiryani1(lookup, rows);
    id := FindMenuItem(lookup, 1, "Chicken Biryani", Some(22000));
    orderList.AddOrders(id, 96);
    AddedTruthy(id, 96);
    ResolvesChickenBiryani2(lookup, rows);
    id := FindMenuItem(lookup, 2, "Chicken Biryani", Some(20000));
    orderList.AddOrders(id, 85);
    AddedTruthy(id, 85);
    ResolvesChickenBiryani3(lookup, rows);
    id := FindMenuItem(lookup, 3, "Chicken Biryani", Some(23000));
    orderList.AddOrders(id, 72);
    AddedTruthy(id, 72);
    ResolvesChickenBiryani4(lookup, rows);
    id := FindMenuItem(lookup, 4, "Chicken Biryani", Some(21000));
    orderList.AddOrders(id, 68);
    AddedTruthy(id, 68);
    ResolvesChickenBiryani5(lookup, rows);
    id := FindMenuItem(lookup, 5, "Chicken Biryani", Some(22500));
    orderList.AddOrders(id, 91);
    AddedTruthy(id, 91);
    ResolvesChickenBiryani6(lookup, rows);
    id := FindMenuItem(lookup, 6, "Chicken Biryani", Some(21500));
    orderList.AddOrders(id, 55);
    AddedTruthy(id, 55);
    ResolvesChickenBiryani7(lookup, rows);
    id := FindMenuItem(lookup, 7, "Chicken Biryani", Some(20500));
    orderList.AddOrders(id, 63);
    AddedTruthy(id, 63);
    ResolvesChickenBiryani8(lookup, rows);
    id := FindMenuItem(lookup, 8, "Chicken Biryani", Some(23500));
    orderList.AddOrders(id, 78);
    AddedTruthy(id, 78);
    ResolvesChickenBiryani9(lookup, rows);
    id := FindMenuItem(lookup, 9, "Chicken Biryani", Some(19500));
    orderList.AddOrders(id, 45);
    AddedTruthy(id, 45);
    ResolvesChickenBiryani10(lookup, rows);
    id := FindMenuItem(lookup, 10, "Chicken Biryani", Some(24000));
    orderList.AddOrders(id, 88);
    AddedTruthy(id, 88);
  }

  /** Other biryani types. */
  method AddOtherBiryaniOrders(orderList: OrderList, lookup: Lookup, rows: seq<MenuRow>)
    requires IsCatalog(rows)
    requires forall r, d :: BucketOf(lookup, r, d) == Bucket(rows, r, d)
    modifies orderList
    ensures orderList.entries == old(orderList.entries) + Repeat(2, 45) + Repeat(22, 52) + Repeat(47, 60) + Repeat(12, 38) + Repeat(17, 42) + Repeat(3, 35) + Repeat(8, 28) + Repeat(23, 31) + Repeat(27, 22)
  {
    var id;
    ResolvesMuttonBiryani1(lookup, rows);
    id := FindMenuItem(lookup, 1, "Mutton Biryani", Some(28000));
    orderList.AddOrders(id, 45);
    AddedTruthy(id, 45);
    ResolvesMuttonBiryani5(lookup, rows);
    id := FindMenuItem(lookup, 5, "Mutton Biryani", Some(29000));
    orderList.AddOrders(id, 52);
    AddedTruthy(id, 52);
    ResolvesMuttonBiryani10(lookup, rows);
    id := FindMenuItem(lookup, 10, "Mutton Biryani", Some(30000));
    orderList.AddOrders(id, 60);
    AddedTruthy(id, 60);
    ResolvesFishBiryani3(lookup, rows);
    id := FindMenuItem(lookup, 3, "Fish Biryani", Some(26000));
    orderList.AddOrders(id, 38);
    AddedTruthy(id, 38);
    ResolvesEggBiryani4(lookup, rows);
    id := FindMenuItem(lookup, 4, "Egg Biryani", Some(19000));
    orderList.AddOrders(id, 42);
    AddedTruthy(id, 42);
    ResolvesVegBiryani1(lookup, rows);
    id := FindMenuItem(lookup, 1, "Veg Biryani", Some(15000));
    orderList.AddOrders(id, 35);
    AddedTruthy(id, 35);
    ResolvesVegBiryani2(lookup, rows);
    id := FindMenuItem(lookup, 2, "Veg Biryani", Some(16000));
    orderList.AddOrders(id, 28);
    AddedTruthy(id, 28);
    ResolvesVegBiryani5(lookup, rows);
    id := FindMenuItem(lookup, 5, "Veg Biryani", Some(15500));
    orderList.AddOrders(id, 31);
    AddedTruthy(id, 31);
    ResolvesVegBiryani6(lookup, rows);
    id := FindMenuItem(lookup, 6, "Veg Biryani", Some(14500));
    orderList.AddOrders(id, 22);
    AddedTruthy(id, 22);
  }

  /** A few other popular dishes. */
  method AddPopularDishOrders(orderList: OrderList, lookup: Lookup, rows: seq<MenuRow>)
    requires IsCatalog(rows)
    requires forall r, d :: BucketOf(lookup, r, d) == Bucket(rows, r, d)
    modifies orderList
    ensures orderList.entries == old(orderList.entries) + Repeat(4, 15) + Repeat(5, 12) + Repeat(9, 8) + Repeat(13, 10)
  {
    var id;
    ResolvesButterChicken1(lookup, rows);
    id := FindMenuItem(lookup, 1, "Butter Chicken", Some(25000));
    orderList.AddOrders(id, 15);
    AddedTruthy(id, 15);
    ResolvesPaneerTikka1(lookup, rows);
    id := FindMenuItem(lookup, 1, "Paneer Tikka", Some(18000));
    orderList.AddOrders(id, 12);
    AddedTruthy(id, 12);
    ResolvesDalMakhani2(lookup, rows);
    id := FindMenuItem(lookup, 2, "Dal Makhani", Some(18000));
    orderList.AddOrders(id, 8);
    AddedTruthy(id, 8);
    ResolvesPavBhaji3(lookup, rows);
    id := FindMenuItem(lookup, 3, "Pav Bhaji", Some(12000));
    orderList.AddOrders(id, 10);
    AddedTruthy(id, 10);
  }

  /** Builds the lookup from the re-read rows, places the orders and
      decides whether the orders insert is issued. */
  method SeedOrders(menuItemsList: seq<MenuRow>) returns (orders: seq<int>, insert: Option<seq<int>>)
    requires IsCatalog(menuItemsList)
    ensures orders == SeededOrders
    ensures insert.Some? <==> |orders| > 0
    ensures insert.Some? ==> insert.value == orders
  {
    var lookup := BuildLookup(menuItemsList);
    var orderList := new OrderList();
    AddChickenBiryaniOrders(orderList, lookup, menuItemsList);
    // the list started empty, so it now holds exactly the first block
    assert [] + Repeat(1, 96) == Repeat(1, 96);
    AddOtherBiryaniOrders(orderList, lookup, menuItemsList);
    AddPopularDishOrders(orderList, lookup, menuItemsList);
    orders := orderList.entries;
    if |orders| > 0 {
      insert := Some(orders);
    } else {
      insert := None;
    }
  }
}
