# Convertcart dish search, modelled in Dafny

Convertcart is a small restaurant service. It has two parts:

- A seed routine (`seed.js`) fills a MySQL database with ten restaurants, fifty menu items and a fixed plan of orders.
- An HTTP endpoint, `GET /search/dishes` (`server.js`), takes `name`, `minPrice` and `maxPrice`. It validates them, then returns up to ten menu items. Each item's name contains the search term and its price lies in the range; the items come most-ordered first.

This project models both parts over in-memory tables and proves what they promise.

- `tables.dfy` (module `Tables`) holds the rows of the three tables and the order count of a menu item. Prices are integer cents, since `menu_items.price` is `DECIMAL(10, 2)`. The orders table is represented by its `menu_item_id` column.
- `catalog.dfy` (module `Catalog`) holds the fixed catalog: ten restaurants and fifty dishes, five per restaurant. `IsCatalog(rows)` says that `rows` is the `menu_items` table as the seed routine re-reads it (`ORDER BY id`), with the ids 1..50 that the inserts received in order.
- `seed.dfy` (module `Seed`) models order synthesis:
  - the loop that groups the re-read rows into a lookup by restaurant id and dish name;
  - `findMenuItem` and `addOrders`, with the order list as a class whose field the method appends to;
  - the 23 `addOrders` calls, split into three methods that follow the source's three comment blocks;
  - the rule that the orders insert is issued only for a non-empty list.
- `search.dfy` (module `Search`) models the handler as pure functions:
  - the validation chain;
  - `String.prototype.trim`;
  - the pattern `%term%` as a case-insensitive substring match;
  - the inner join with restaurants, the left join with orders, and the grouping and count per menu item;
  - `ORDER BY orderCount DESC` and `LIMIT 10`.
- `seeded_search.dfy` (module `SeededSearch`) states the outcome of the search for Chicken Biryani between 0.00 and 1000.00 on the freshly seeded database. It derives the response from the catalog and the order plan: ten rows, one per restaurant, with restaurant 1 first.

`findMenuItem` compares prices with JavaScript `==`. The driver returns the DECIMAL column as a string such as `"220.00"`, which loose equality compares numerically with `220`. In cents the comparison is plain integer equality.

## Model

| member | source | states |
|---|---|---|
| Tables.OrderCount | server.js:68-71 | the order count of an item is at most the number of orders, and positive exactly when some order references the item |
| Tables.ByIdConsecutive | seed.js:76-92 | restaurants that received consecutive ids are found by id exactly for the ids in that range, each at its offset |
| Catalog.CatalogRestaurants | seed.js:76-92 | the ten restaurants rows have distinct ids, and looking up an id finds the id-th (name, city) pair, for exactly the ids 1..10 |
| Catalog.MenuOf | seed.js:97-148 | each of the ten restaurants lists five dishes in the catalog |
| Catalog.CatalogRows | seed.js:150-160 | the fifty re-read rows, with ids 1..50 in insertion order, satisfy `IsCatalog`; their ids are distinct, and every row names a catalog restaurant, so the inner join drops no dish |
| Catalog.CatalogJoins | seed.js:97-160 | any rows that satisfy `IsCatalog` have distinct ids, and the join pairs each row with the restaurant of the row's restaurant id |
| Catalog.CatalogWellFormed | seed.js:76-148 | there are ten restaurants; every dish names one of them and has a price between 0.00 and 300.00; the re-read ids strictly ascend |
| Seed.BuildLookup | seed.js:163-176 | for every (restaurant, dish), the lookup's bucket is exactly the subsequence of read rows with that key; only keys that occur are present; every restaurant entry comes from a read row; the bucket sizes add up to the number of rows read |
| Seed.WithRowBuckets | seed.js:169-175 | one loop step extends only the bucket of the row's key and creates only that entry |
| Seed.GroupsStep | seed.js:164-176 | one loop step keeps the invariant "the lookup groups exactly the rows read so far" |
| Seed.BucketMultiplicity | seed.js:164-176 | a bucket holds each row of its key as often as the rows do, and no row of another key |
| Seed.BucketAscending | seed.js:158-176 | rows read in ascending id order give buckets in ascending id order |
| Seed.PartitionSize | seed.js:164-176 | the buckets of the distinct keys together hold every row read, so nothing is lost or duplicated |
| Seed.KeysOfDistinct | seed.js:164-176 | the keys of the lookup are distinct, and a key is present exactly when its bucket is non-empty |
| Seed.LookupShape | seed.js:163-176 | a lookup that groups the rows has exactly their keys, and sizes summing to the row count |
| Seed.PriceIndex | seed.js:182-186 | finds the first bucket position with the requested price, or reports that none has it |
| Seed.Resolve | seed.js:179-190 | with a price: an id exactly when some bucket row has that price, and then the first such row's id; without a price: the first row's id, or null for an empty bucket |
| Seed.FindMenuItem | seed.js:179-190 | the scanning method returns exactly `Resolve` of the bucket stored under (restaurant, dish), which is empty when either key is missing |
| Seed.FirstMatchResolves | seed.js:179-190 | resolving a tuple against the lookup of `rows` gives the id of the first row of `rows` with that restaurant, dish and price |
| Seed.CatalogFirstMatch | seed.js:97-148 | in the catalog, a dish with no same-priced dish before it in its restaurant's block resolves to its own id |
| Seed.ResolvesChickenBiryani1 | seed.js:204 | (1, Chicken Biryani, 220) resolves to id 1 |
| Seed.ResolvesChickenBiryani2 | seed.js:205 | (2, Chicken Biryani, 200) resolves to id 6, not to the premium id 7 |
| Seed.ResolvesChickenBiryani3 | seed.js:206 | (3, Chicken Biryani, 230) resolves to id 11 |
| Seed.ResolvesChickenBiryani4 | seed.js:207 | (4, Chicken Biryani, 210) resolves to id 16 |
| Seed.ResolvesChickenBiryani5 | seed.js:208 | (5, Chicken Biryani, 225) resolves to id 21 |
| Seed.ResolvesChickenBiryani6 | seed.js:209 | (6, Chicken Biryani, 215) resolves to id 26 |
| Seed.ResolvesChickenBiryani7 | seed.js:210 | (7, Chicken Biryani, 205) resolves to id 31 |
| Seed.ResolvesChickenBiryani8 | seed.js:211 | (8, Chicken Biryani, 235) resolves to id 36 |
| Seed.ResolvesChickenBiryani9 | seed.js:212 | (9, Chicken Biryani, 195) resolves to id 41 |
| Seed.ResolvesChickenBiryani10 | seed.js:213 | (10, Chicken Biryani, 240) resolves to id 46 |
| Seed.ResolvesMuttonBiryani1 | seed.js:216 | (1, Mutton Biryani, 280) resolves to id 2 |
| Seed.ResolvesMuttonBiryani5 | seed.js:217 | (5, Mutton Biryani, 290) resolves to id 22 |
| Seed.ResolvesMuttonBiryani10 | seed.js:218 | (10, Mutton Biryani, 300) resolves to id 47 |
| Seed.ResolvesFishBiryani3 | seed.js:219 | (3, Fish Biryani, 260) resolves to id 12 |
| Seed.ResolvesEggBiryani4 | seed.js:220 | (4, Egg Biryani, 190) resolves to id 17 |
| Seed.ResolvesVegBiryani1 | seed.js:221 | (1, Veg Biryani, 150) resolves to id 3 |
| Seed.ResolvesVegBiryani2 | seed.js:222 | (2, Veg Biryani, 160) resolves to id 8 |
| Seed.ResolvesVegBiryani5 | seed.js:223 | (5, Veg Biryani, 155) resolves to id 23 |
| Seed.ResolvesVegBiryani6 | seed.js:224 | (6, Veg Biryani, 145) resolves to id 27 |
| Seed.ResolvesButterChicken1 | seed.js:227 | (1, Butter Chicken, 250) resolves to id 4 |
| Seed.ResolvesPaneerTikka1 | seed.js:228 | (1, Paneer Tikka, 180) resolves to id 5 |
| Seed.ResolvesDalMakhani2 | seed.js:229 | (2, Dal Makhani, 180) resolves to id 9 |
| Seed.ResolvesPavBhaji3 | seed.js:230 | (3, Pav Bhaji, 120) resolves to id 13 |
| Seed.Added | seed.js:195-201 | `addOrders` appends `numOrders` copies of the id when the id is truthy and the count positive, and nothing otherwise |
| Seed.OrderList.AddOrders | seed.js:195-201 | the list becomes the old list followed by `Added(itemId, numOrders)`; the old entries are untouched; a null or 0 id appends nothing |
| Seed.AddChickenBiryaniOrders | seed.js:203-213 | the ten Chicken Biryani calls append 96 × id 1, 85 × id 6, …, 88 × id 46, in call order |
| Seed.AddOtherBiryaniOrders | seed.js:215-224 | the nine other biryani calls append their blocks of ids in call order |
| Seed.AddPopularDishOrders | seed.js:226-230 | the four popular-dish calls append 15 × id 4, 12 × id 5, 8 × id 9, 10 × id 13 |
| Seed.SeedOrders | seed.js:158-239 | for the re-read catalog, the order list is exactly `SeededOrders`; the insert is issued exactly when the list is non-empty, and it carries the whole list |
| Seed.ChickenBiryaniCounts | seed.js:203-213 | the Chicken Biryani block gives each id exactly its planned number of orders |
| Seed.OtherBiryaniCounts | seed.js:215-224 | the other biryani block adds each id's planned orders and nothing else |
| Seed.PopularDishCounts | seed.js:226-230 | the popular-dish block adds each id's planned orders and nothing else |
| Seed.SeededOrderTotal | seed.js:204-238 | the seeded order list has 1139 entries |
| Seed.SeededOrderCounts | seed.js:204-230 | every menu item id gets exactly `Planned(id)` orders, and ids outside the plan get none |
| Seed.PremiumRowShadowed | seed.js:103-104 | rows 6 (200.00) and 7 (240.00, the premium version) make up the whole bucket (2, Chicken Biryani), in that order: 6 first, then 7 |
| Seed.PremiumRowUnordered | seed.js:204-205 | the premium row 7 gets 0 orders and id 1 gets 96 |
| Search.Validate | server.js:21-58 | an accepted request has a non-empty name and two numeric prices with 0 ≤ min ≤ max; its term is the trimmed name |
| Search.ValidateFirstFailure | server.js:26-58 | the handler rejects with exactly the earliest failing check in the order missing, not-a-number, negative, min above max, and accepts exactly when no check fails |
| Search.LeadingSpace | server.js:33 | counts the white space characters at the start, and the next character is not white space |
| Search.TrailingSpace | server.js:33 | counts the white space characters at the end, and the character before them is not white space |
| Search.Trim | server.js:33 | the trimmed name is no longer than the name and has no white space at either end |
| Search.TrimKeeps | server.js:33 | a name without white space at either end is its own trim, so trimming twice equals trimming once |
| Search.TrimIsInfix | server.js:33 | trim returns a contiguous middle part of the name, drops only white space on either side, and leaves no white space at either end |
| Search.TrimEmptyIffAllSpace | server.js:26-33 | a name trims to "" exactly when it is all white space |
| Search.Lower | server.js:72 | the result differs from the input only in ASCII case, position by position, and has no upper-case ASCII letter |
| Search.LowerSameIffCase | server.js:72 | two strings have the same lower-case form exactly when they differ only in ASCII case |
| Search.LikeInfixIsContains | server.js:72-80 | matching `%term%` succeeds exactly when the dish name contains the term somewhere |
| Search.NameMatches | server.js:72-80 | the name filter holds exactly when the lower-cased dish name contains the lower-cased term |
| Search.NameMatchesIgnoresCase | server.js:72-80 | changing the ASCII case of the dish name or of the term does not change whether it matches |
| Search.FirstLetterAbsent | server.js:72-80 | a dish name with no occurrence of the term's first letter, up to case, where the term could start does not match |
| Search.NameMatchesItself | server.js:72-80 | every term matches a dish name equal to it |
| Search.EmptyTermMatchesAll | server.js:72-80 | the pattern `%%` matches every dish name |
| Tables.RestaurantById | server.js:69-70 | the inner join finds a restaurant with the item's restaurant id, or none exists |
| Search.Matching | server.js:61-75 | every group is a menu item that passes the name and price filters and has a restaurant; each such item forms a group, including items without orders; the count is the number of orders that reference the item |
| Search.MatchingIds | server.js:68-75 | the groups carry exactly the ids of the items that pass the filters and have a restaurant, each with that item's order count |
| Search.MatchingCount | server.js:75 | with unique menu item ids, there are exactly as many groups as distinct items that pass the filters and have a restaurant |
| Search.MatchingDistinct | server.js:75 | with unique menu item ids, no item forms two groups |
| Search.InsertByCount | server.js:76 | inserting into a list in descending count order keeps it in order, and adds exactly the one group |
| Search.SortByCount | server.js:76 | the result is in non-increasing count order and is a permutation of the groups |
| Search.Ranked | server.js:76-77 | the result has min(10, number of groups) entries in non-increasing count order, and is a sub-multiset of the groups |
| Search.RankedTopN | server.js:76-77 | a group left out has no higher count than any returned group |
| Search.RankedKeepsAll | server.js:77 | with at most ten groups, all of them are returned |
| Search.SortKeepsDistinct | server.js:76 | reordering keeps item ids distinct |
| Search.Answer | server.js:61-77 | a valid query returns min(10, n) of the n groups, in non-increasing count order, each the group of a menu item that passes the filters and has a restaurant |
| Search.RowsOf | server.js:62-76 | the response has one row per group, in the groups' order, so groups sorted by count give rows whose order counts do not increase down the list |
| Search.SearchDishes | server.js:19-85 | the response is a rejection exactly when validation fails, with validation's reason; otherwise it holds exactly min(10, n) rows, where n is the number of groups |
| Search.SearchRowCount | server.js:61-85 | with unique menu item ids, an accepted search returns min(10, n) rows, where n is the number of distinct menu items that pass the filters and have a restaurant |
| Search.SearchRowsSound | server.js:61-85 | every row's price lies in [min, max] and its dish name contains the trimmed term, ignoring case; each row carries a database item's restaurant id, name and price, and that item's order count; a restaurant of the database has the row's restaurant id, name and city; counts do not increase down the list |
| Search.SearchTopN | server.js:61-81 | a matching item that is not returned has no more orders than any returned row |
| Search.SearchKeepsAllMatches | server.js:69-77 | when at most ten items match, every one is returned, and an item without orders appears with count 0 |
| Search.AnswerDistinct | server.js:75-77 | with unique menu item ids, no item is returned twice |
| SeededSearch.OnlyTermMatches | server.js:72-80 | of the catalog's dish names, only "Chicken Biryani" itself matches the term "Chicken Biryani" |
| SeededSearch.ChickenRow | seed.js:97-148 | a catalog row passes the filters of the Chicken Biryani query (0.00 to 1000.00) and finds its restaurant exactly when its id is one of the eleven Chicken Biryani ids |
| SeededSearch.ChickenJoinedIds | seed.js:97-148 | the query keeps exactly the ids 1, 6, 7, 11, 16, 21, 26, 31, 36, 41 and 46 |
| SeededSearch.ChickenPlanned | seed.js:203-213 | among the Chicken Biryani rows, id 1 alone gets the most orders (96) and id 7 alone gets none |
| SeededSearch.ChickenRestaurant | seed.js:97-148 | each Chicken Biryani row except id 7 is the first dish of its restaurant's block; restaurant 2's costs 200.00 |
| SeededSearch.ChickenValidates | server.js:26-58 | the parameters name=Chicken Biryani, minPrice=0, maxPrice=1000 pass validation unchanged |
| SeededSearch.RankedDropsUnordered | server.js:76-77 | ranking eleven distinct groups, one of them with no orders and one with strictly the most, returns the other ten, led by the one with the most |
| SeededSearch.SeededChickenAnswer | server.js:61-77 | on the seeded tables the query returns ten groups: every Chicken Biryani row except the unordered id 7, led by id 1 |
| SeededSearch.SeededChickenRows | server.js:61-85 | those groups give ten rows, one per restaurant 1..10 with distinct restaurant ids, restaurant 1 first with 96 orders, and no row for restaurant 2's 240.00 Chicken Biryani |
| SeededSearch.SeededChickenBiryaniSearch | server.js:19-85 | on the freshly seeded database, the search for Chicken Biryani between 0 and 1000 is accepted and returns those ten rows: one per restaurant, restaurant 1 first with 96 orders, and none for the 240.00 version |
| Search.BlankNameMatchesAll | server.js:26-80 | a non-empty name of white space only passes validation, trims to the empty term and selects every item in the price range |

## Left out

- The database connection, DDL, `TRUNCATE`, the row inserts, `connection.end`, console output and `process.exit` are not modelled. `config/database.js` is not part of this model. The tables are values, and the seed routine starts from the rows it re-reads.
- `IsCatalog` assumes that the re-read rows carry ids 1..50 in insertion order. `CatalogRestaurants` likewise assumes that the restaurants received ids 1..10 in insertion order, which the dish list's literal restaurant ids 1..10 rely on as well. Both hold after `TRUNCATE` resets the auto-increment counters and each insert is one batch.
- The order ids are not linked to ids assigned by the server. `SeedOrders` returns the list, and the insert is represented by `insert`.
- Express plumbing is not modelled: routing, status codes, JSON bodies, the message texts, the `/health` endpoint and the 500 path for a failing query. Rejections are the four `Rejection` values.
- A query parameter given twice arrives as an array, on which `trim` throws. That case is not modelled; `name` is a string or absent.
- `parseFloat` and `isNaN` are not modelled. A price arrives already parsed as absent, not a number, or a whole number of cents. Fractions of a cent, `Infinity` and `-0` are not represented.
- `Search.Lower` lower-cases only ASCII letters. The rest of the column collation is not modelled: accent-insensitive and other Unicode case-insensitive comparisons, and trailing-space padding rules.
- `%`, `_` and `\` inside the name are not escaped. MySQL treats `%` and `_` as wildcards and `\` as the default `LIKE` escape character. The model matches all three literally.
- `Search.SortByCount` fixes one order for equal counts. MySQL leaves that order unspecified. The lemmas state only properties that hold for any tie order: non-increasing counts, permutation and top-N. The model does not say which groups of equal count the limit keeps.
- `Tables.RestaurantById` takes the first restaurant with the id. The primary key makes that restaurant unique, so the join cannot duplicate rows.
- The lookup is a map. Dish names that collide with JavaScript object prototype keys are not modelled.
- `DECIMAL` values are returned to JavaScript as strings. The model compares and returns cents instead.
