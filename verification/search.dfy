/** The dish search endpoint: parameter validation, then one query that
    filters menu items by name and price, joins each with its restaurant,
    counts its orders, ranks the groups by that count and keeps ten.

    A price parameter is taken as already parsed: absent (the query string
    has no such key), not a number, or a whole number of cents. The handler
    changes no state; its outcome is a rejection reason or the result rows.
 */
module Search {
  import opened Tables

  // ---------------------------------------------------------------------
  // Parameters and validation

  /** A price parameter after parsing. */
  datatype PriceParam = Absent | NotANumber | Amount(cents: int)

  /** The reasons a request is refused, in the order they are checked. */
  datatype Rejection = MissingParameters | InvalidNumber | NegativePrice | MinAboveMax

  /** A validated search: the trimmed name and the inclusive price range. */
  datatype Query = Query(term: string, minCents: int, maxCents: int)

  datatype Validation = Reject(reason: Rejection) | Accept(query: Query)

  /** JavaScript falsiness of the name parameter: undefined or "". */
  predicate NameMissing(name: Option<string>)
  {
    name.None? || name.value == []
  }

  /** The handler's validation chain; the first failing check decides. */
  function Validate(name: Option<string>, minPrice: PriceParam, maxPrice: PriceParam): (v: Validation)
    ensures v.Accept? ==> !NameMissing(name) && minPrice.Amount? && maxPrice.Amount?
    ensures v.Accept? ==> v.query == Query(Trim(name.value), minPrice.cents, maxPrice.cents)
    ensures v.Accept? ==> 0 <= v.query.minCents <= v.query.maxCents
  {
    if NameMissing(name) || minPrice.Absent? || maxPrice.Absent? then Reject(MissingParameters)
    else if minPrice.NotANumber? || maxPrice.NotANumber? then Reject(InvalidNumber)
    else if minPrice.cents < 0 || maxPrice.cents < 0 then Reject(NegativePrice)
    else if minPrice.cents > maxPrice.cents then Reject(MinAboveMax)
    else Accept(Query(Trim(name.value), minPrice.cents, maxPrice.cents))
  }

  /** Each check evaluated on its own, on the raw parameters. A parameter
      that is absent is not a number either, and a comparison with a value
      that is not a number is false. */
  predicate Fails(check: Rejection, name: Option<string>, minPrice: PriceParam, maxPrice: PriceParam)
  {
    match check
    case MissingParameters => NameMissing(name) || minPrice.Absent? || maxPrice.Absent?
    case InvalidNumber => !minPrice.Amount? || !maxPrice.Amount?
    case NegativePrice => (minPrice.Amount? && minPrice.cents < 0) || (maxPrice.Amount? && maxPrice.cents < 0)
    case MinAboveMax => minPrice.Amount? && maxPrice.Amount? && minPrice.cents > maxPrice.cents
  }

  /** The position of a check in the chain. */
  function Rank(check: Rejection): nat
  {
    match check
    case MissingParameters => 0
    case InvalidNumber => 1
    case NegativePrice => 2
    case MinAboveMax => 3
  }

  /** Validation rejects with exactly the earliest failing check, and
      accepts exactly when no check fails. */
  lemma ValidateFirstFailure(name: Option<string>, minPrice: PriceParam, maxPrice: PriceParam, check: Rejection)
    ensures Validate(name, minPrice, maxPrice) == Reject(check) <==>
      Fails(check, name, minPrice, maxPrice) &&
      forall earlier: Rejection :: Rank(earlier) < Rank(check) ==> !Fails(earlier, name, minPrice, maxPrice)
    ensures Validate(name, minPrice, maxPrice).Accept? <==>
      forall c: Rejection :: !Fails(c, name, minPrice, maxPrice)
  {
    if Validate(name, minPrice, maxPrice) == Reject(check) {
      forall earlier: Rejection | Rank(earlier) < Rank(check)
        ensures !Fails(earlier, name, minPrice, maxPrice)
      {
        match earlier {
          case MissingParameters =>
          case InvalidNumber =>
          case NegativePrice =>
          case MinAboveMax =>
        }
      }
    }
    if Fails(check, name, minPrice, maxPrice) &&
       forall earlier: Rejection :: Rank(earlier) < Rank(check) ==> !Fails(earlier, name, minPrice, maxPrice)
    {
      assert Rank(MissingParameters) == 0 && Rank(InvalidNumber) == 1 && Rank(NegativePrice) == 2;
      assert Fails(MissingParameters, name, minPrice, maxPrice) ==> check == MissingParameters;
      assert Fails(InvalidNumber, name, minPrice, maxPrice) ==> Rank(check) <= 1;
      assert Fails(NegativePrice, name, minPrice, maxPrice) ==> Rank(check) <= 2;
    }
    if Validate(name, minPrice, maxPrice).Accept? {
      forall c: Rejection ensures !Fails(c, name, minPrice, maxPrice) {
        match c {
          case MissingParameters =>
          case InvalidNumber =>
          case NegativePrice =>
          case MinAboveMax =>
        }
      }
    } else {
      assert Fails(Validate(name, minPrice, maxPrice).reason, name, minPrice, maxPrice);
    }
  }

  // ---------------------------------------------------------------------
  // String.prototype.trim

  /** The characters trim removes: ECMAScript white space and line
      terminators. */
  predicate IsSpace(c: char)
  {
    c == ' ' || c == '\t' || c == '\n' || c == '\r' ||
    c as int == 0x0B || c as int == 0x0C || c as int == 0xA0 || c as int == 0x1680 ||
    (0x2000 <= c as int <= 0x200A) || c as int == 0x2028 || c as int == 0x2029 ||
    c as int == 0x202F || c as int == 0x205F || c as int == 0x3000 || c as int == 0xFEFF
  }

  predicate AllSpace(s: string)
  {
    forall k :: 0 <= k < |s| ==> IsSpace(s[k])
  }

  /** The number of white space characters `s` starts with. */
  function LeadingSpace(s: string): (n: nat)
    ensures n <= |s|
    ensures forall k :: 0 <= k < n ==> IsSpace(s[k])
    ensures n == |s| || !IsSpace(s[n])
  {
    if s != [] && IsSpace(s[0]) then 1 + LeadingSpace(s[1..]) else 0
  }

  /** The number of white space characters `s` ends with. */
  function TrailingSpace(s: string): (n: nat)
    ensures n <= |s|
    ensures forall k :: |s| - n <= k < |s| ==> IsSpace(s[k])
    ensures n == |s| || !IsSpace(s[|s| - 1 - n])
  {
    if s != [] && IsSpace(s[|s| - 1]) then 1 + TrailingSpace(s[..|s| - 1]) else 0
  }

  /** String.prototype.trim: `s` without its leading and trailing white
      space. */
  function Trim(s: string): (r: string)
    ensures |r| <= |s|
    ensures r == [] || (!IsSpace(r[0]) && !IsSpace(r[|r| - 1]))
  {
    var rest := s[LeadingSpace(s)..];
    rest[..|rest| - TrailingSpace(rest)]
  }

  /** `r` is `s[i..j]` and `s` has only white space outside that part. */
  predicate SpaceAround(s: string, r: string, i: int, j: int)
  {
    && 0 <= i <= j <= |s| && r == s[i..j]
    && (forall k :: 0 <= k < i ==> IsSpace(s[k]))
    && (forall k :: j <= k < |s| ==> IsSpace(s[k]))
  }

  /** trim keeps a contiguous middle part of `s`, drops only white space on
      either side, and leaves no white space at either end. */
  lemma TrimIsInfix(s: string)
    ensures exists i, j :: SpaceAround(s, Trim(s), i, j)
  {
    var i := LeadingSpace(s);
    var rest := s[i..];
    var j := i + |rest| - TrailingSpace(rest);
    assert Trim(s) == s[i..j];
    forall k | j <= k < |s| ensures IsSpace(s[k]) {
      assert s[k] == rest[k - i];
    }
    assert SpaceAround(s, Trim(s), i, j);
  }

  /** A string without white space at either end is its own trim; in
      particular trim is idempotent. */
  lemma TrimKeeps(s: string)
    requires s == [] || (!IsSpace(s[0]) && !IsSpace(s[|s| - 1]))
    ensures Trim(s) == s
    ensures Trim(Trim(s)) == Trim(s)
  {
    assert s[0..] == s;
    assert s[..|s|] == s;
  }

  /** A name made only of white space trims to the empty string, and only
      such a name does. */
  lemma TrimEmptyIffAllSpace(s: string)
    ensures Trim(s) == [] <==> AllSpace(s)
  {
    var rest := s[LeadingSpace(s)..];
    if rest != [] {
      assert rest[0] == s[LeadingSpace(s)];
    }
  }

  // ---------------------------------------------------------------------
  // dish_name LIKE '%term%'

  predicate IsUpper(c: char)
  {
    'A' <= c <= 'Z'
  }

  /** `c` and `d` are the same character up to ASCII case. */
  predicate CaseVariant(c: char, d: char)
  {
    c == d || (IsUpper(c) && d as int == c as int + 32) || (IsUpper(d) && c as int == d as int + 32)
  }

  /** `a` and `b` are the same string up to ASCII case. */
  predicate SameUpToCase(a: string, b: string)
  {
    |a| == |b| && forall k :: 0 <= k < |a| ==> CaseVariant(a[k], b[k])
  }

  /** ASCII upper case to lower case; every other character is kept. */
  function LowerChar(c: char): (d: char)
    ensures !IsUpper(d) && CaseVariant(c, d)
  {
    if IsUpper(c) then (c as int + 32) as char else c
  }

  /** The string with every ASCII capital replaced by its small letter. The
      result has no capital left and differs from `s` only in case, which
      determines it. */
  function Lower(s: string): (r: string)
    ensures SameUpToCase(s, r)
    ensures forall k :: 0 <= k < |r| ==> !IsUpper(r[k])
  {
    seq(|s|, k requires 0 <= k < |s| => LowerChar(s[k]))
  }

  /** Two strings have the same lower-case form exactly when they differ
      only in ASCII case. */
  lemma LowerSameIffCase(a: string, b: string)
    ensures Lower(a) == Lower(b) <==> SameUpToCase(a, b)
  {
    if SameUpToCase(a, b) {
      forall k | 0 <= k < |a| ensures Lower(a)[k] == Lower(b)[k] {
        assert LowerChar(a[k]) == Lower(a)[k] && LowerChar(b[k]) == Lower(b)[k];
      }
    }
    if Lower(a) == Lower(b) {
      forall k | 0 <= k < |a| ensures CaseVariant(a[k], b[k]) {
        assert LowerChar(a[k]) == Lower(a)[k] && LowerChar(b[k]) == Lower(b)[k];
      }
    }
  }

  /** `s` has an occurrence of `t` at position `i`. */
  predicate OccursAt(s: string, t: string, i: int)
  {
    0 <= i && i + |t| <= |s| && s[i..i + |t|] == t
  }

  /** `s` contains `t` somewhere. */
  ghost predicate Contains(s: string, t: string)
  {
    exists i :: OccursAt(s, t, i)
  }

  /** The pattern '%t%' matched against `s`: `t` at the start, or the
      pattern matched against the rest of `s`. */
  predicate LikeInfix(s: string, t: string)
  {
    (|t| <= |s| && s[..|t|] == t) || (s != [] && LikeInfix(s[1..], t))
  }

  lemma {:induction false} OccursThenLike(s: string, t: string, i: int)
    requires OccursAt(s, t, i)
    ensures LikeInfix(s, t)
  {
    if i > 0 {
      assert s[1..][i - 1..i - 1 + |t|] == s[i..i + |t|];
      OccursThenLike(s[1..], t, i - 1);
    }
  }

  lemma {:induction false} LikeThenOccurs(s: string, t: string) returns (i: int)
    requires LikeInfix(s, t)
    ensures OccursAt(s, t, i)
  {
    if |t| <= |s| && s[..|t|] == t {
      i := 0;
    } else {
      var j := LikeThenOccurs(s[1..], t);
      i := j + 1;
      assert s[i..i + |t|] == s[1..][j..j + |t|];
    }
  }

  /** The scan finds `t` exactly when `s` contains it. */
  lemma LikeInfixIsContains(s: string, t: string)
    ensures LikeInfix(s, t) <==> Contains(s, t)
  {
    if LikeInfix(s, t) {
      var i := LikeThenOccurs(s, t);
    }
    if Contains(s, t) {
      var i :| OccursAt(s, t, i);
      OccursThenLike(s, t, i);
    }
  }

  /** The name filter of the query, case-insensitive as the collation is:
      the dish name contains the term once both are lower-cased. */
  predicate NameMatches(dishName: string, term: string): (b: bool)
    ensures b <==> Contains(Lower(dishName), Lower(term))
  {
    LikeInfixIsContains(Lower(dishName), Lower(term));
    LikeInfix(Lower(dishName), Lower(term))
  }

  /** The filter cannot tell apart names, or terms, that differ only in
      ASCII case. */
  lemma NameMatchesIgnoresCase(dishName: string, dishName': string, term: string, term': string)
    requires SameUpToCase(dishName, dishName') && SameUpToCase(term, term')
    ensures NameMatches(dishName, term) == NameMatches(dishName', term')
  {
    LowerSameIffCase(dishName, dishName');
    LowerSameIffCase(term, term');
  }

  /** A dish name none of whose characters where the term could start is
      the term's first letter, up to case, does not match. */
  lemma FirstLetterAbsent(dishName: string, term: string)
    requires term != []
    requires forall i :: 0 <= i <= |dishName| - |term| ==> LowerChar(dishName[i]) != LowerChar(term[0])
    ensures !NameMatches(dishName, term)
  {
    var d, t := Lower(dishName), Lower(term);
    forall i ensures !OccursAt(d, t, i) {
      if 0 <= i && i + |t| <= |d| {
        assert d[i..i + |t|][0] == LowerChar(dishName[i]) != LowerChar(term[0]) == t[0];
      }
    }
  }

  /** Every term matches itself. */
  lemma NameMatchesItself(term: string)
    ensures NameMatches(term, term)
  {
    assert Lower(term)[..|Lower(term)|] == Lower(term);
  }

  /** The empty term matches every dish name. */
  lemma EmptyTermMatchesAll(dishName: string)
    ensures NameMatches(dishName, [])
  {
    assert Lower(dishName)[..0] == [];
  }

  // ---------------------------------------------------------------------
  // FROM restaurants r JOIN menu_items mi ... LEFT JOIN orders o
  // WHERE ... GROUP BY ... mi.id ...

  /** One group of the query: a menu item, its restaurant and its number of
      joined orders. */
  datatype Group = Group(restaurant: Restaurant, item: MenuRow, orderCount: nat)

  /** The WHERE clause on one menu item. */
  predicate Selected(item: MenuRow, q: Query)
  {
    NameMatches(item.dishName, q.term) && q.minCents <= item.priceCents <= q.maxCents
  }

  /** `item` passes the WHERE clause and has a restaurant to join with. */
  predicate Joined(restaurants: seq<Restaurant>, item: MenuRow, q: Query)
  {
    Selected(item, q) && RestaurantById(restaurants, item.restaurantId).Some?
  }

  /** The group the query forms for `item`. */
  function GroupOf(db: Database, item: MenuRow): Group
    requires RestaurantById(db.restaurants, item.restaurantId).Some?
  {
    Group(RestaurantById(db.restaurants, item.restaurantId).value, item, OrderCount(db.orders, item.id))
  }

  /** The groups of `items` that the query keeps, in the order of `items`. */
  function Matching(db: Database, q: Query, items: seq<MenuRow>): (gs: seq<Group>)
    ensures |gs| <= |items|
    ensures forall g :: g in gs ==>
      g.item in items && Joined(db.restaurants, g.item, q) && g == GroupOf(db, g.item)
    ensures forall m :: m in items && Joined(db.restaurants, m, q) ==> GroupOf(db, m) in gs
  {
    if items == [] then []
    else
      var m := items[0];
      var rest := Matching(db, q, items[1..]);
      if Joined(db.restaurants, m, q) then [GroupOf(db, m)] + rest else rest
  }

  /** The ids of the menu items of `items` the query keeps. */
  function JoinedIds(db: Database, q: Query, items: seq<MenuRow>): set<int>
  {
    set m | m in items && Joined(db.restaurants, m, q) :: m.id
  }

  predicate DistinctItems(gs: seq<Group>)
  {
    forall i, j :: 0 <= i < j < |gs| ==> gs[i].item.id != gs[j].item.id
  }

  /** Removing the first row keeps ids unique, and no later row shares
      the first row's id. */
  lemma UniqueTail(items: seq<MenuRow>)
    requires items != [] && UniqueIds(items)
    ensures UniqueIds(items[1..])
    ensures forall m :: m in items[1..] ==> m.id != items[0].id
  {
    var tail := items[1..];
    forall i, j | 0 <= i < j < |tail| ensures tail[i].id != tail[j].id {
      assert tail[i] == items[i + 1] && tail[j] == items[j + 1];
    }
    forall m | m in tail ensures m.id != items[0].id {
      var p :| 0 <= p < |tail| && tail[p] == m;
      assert items[p + 1] == m;
    }
  }

  /** The groups after the first keep distinct items, none with the first
      group's item. */
  lemma DistinctTail(gs: seq<Group>)
    requires gs != [] && DistinctItems(gs)
    ensures DistinctItems(gs[1..])
    ensures forall x :: x in gs[1..] ==> x.item.id != gs[0].item.id
  {
    var tail := gs[1..];
    forall i, j | 0 <= i < j < |tail| ensures tail[i].item.id != tail[j].item.id {
      assert tail[i] == gs[i + 1] && tail[j] == gs[j + 1];
    }
    forall x | x in tail ensures x.item.id != gs[0].item.id {
      var p :| 0 <= p < |tail| && tail[p] == x;
      assert gs[p + 1] == x;
    }
  }

  /** A group whose item no other group has can go in front. */
  lemma DistinctCons(g: Group, gs: seq<Group>)
    requires DistinctItems(gs)
    requires forall x :: x in gs ==> x.item.id != g.item.id
    ensures DistinctItems([g] + gs)
  {
    var r := [g] + gs;
    forall i, j | 0 <= i < j < |r| ensures r[i].item.id != r[j].item.id {
      assert r[j] == gs[j - 1];
      if i > 0 {
        assert r[i] == gs[i - 1];
      }
    }
  }

  /** Grouping by mi.id: with unique menu item ids, no item forms two groups. */
  lemma {:induction false} MatchingDistinct(db: Database, q: Query, items: seq<MenuRow>)
    requires UniqueIds(items)
    ensures DistinctItems(Matching(db, q, items))
  {
    if items != [] {
      UniqueTail(items);
      MatchingDistinct(db, q, items[1..]);
      if Joined(db.restaurants, items[0], q) {
        DistinctCons(GroupOf(db, items[0]), Matching(db, q, items[1..]));
      }
    }
  }

  /** With unique menu item ids, there are as many groups as menu items
      that pass the filters and the join. */
  lemma {:induction false} MatchingCount(db: Database, q: Query, items: seq<MenuRow>)
    requires UniqueIds(items)
    ensures |Matching(db, q, items)| == |JoinedIds(db, q, items)|
  {
    if items == [] {
      assert JoinedIds(db, q, items) == {};
    } else {
      var m, tail := items[0], items[1..];
      UniqueTail(items);
      MatchingCount(db, q, tail);
      assert items == [m] + tail;
      assert m.id !in JoinedIds(db, q, tail);
      if Joined(db.restaurants, m, q) {
        assert JoinedIds(db, q, items) == JoinedIds(db, q, tail) + {m.id};
      } else {
        assert JoinedIds(db, q, items) == JoinedIds(db, q, tail);
      }
    }
  }

  /** The groups carry exactly the kept ids, each with its item's order
      count. */
  lemma MatchingIds(db: Database, q: Query, items: seq<MenuRow>)
    ensures forall g :: g in Matching(db, q, items) ==>
      g.item.id in JoinedIds(db, q, items) && g.orderCount == OrderCount(db.orders, g.item.id)
    ensures forall id :: id in JoinedIds(db, q, items) ==>
      exists g :: g in Matching(db, q, items) && g.item.id == id
  {
    forall id | id in JoinedIds(db, q, items)
      ensures exists g :: g in Matching(db, q, items) && g.item.id == id
    {
      var m :| m in items && Joined(db.restaurants, m, q) && m.id == id;
      assert GroupOf(db, m) in Matching(db, q, items);
    }
  }

  /** The kept ids are `ids` when an item is kept exactly when its id is
      in `ids`, and every id in `ids` is some item's. */
  lemma JoinedIdsExactly(db: Database, q: Query, items: seq<MenuRow>, ids: set<int>)
    requires forall k :: 0 <= k < |items| ==> (Joined(db.restaurants, items[k], q) <==> items[k].id in ids)
    requires forall x :: x in ids ==> exists k :: 0 <= k < |items| && items[k].id == x
    ensures JoinedIds(db, q, items) == ids
  {
    forall x | x in ids ensures x in JoinedIds(db, q, items) {
      var k :| 0 <= k < |items| && items[k].id == x;
      assert items[k] in items;
    }
    forall x | x in JoinedIds(db, q, items) ensures x in ids {
      var m :| m in items && Joined(db.restaurants, m, q) && m.id == x;
      var k :| 0 <= k < |items| && items[k] == m;
    }
  }

  // ---------------------------------------------------------------------
  // ORDER BY orderCount DESC LIMIT 10

  const Limit: nat := 10

  predicate SortedByCount(gs: seq<Group>)
  {
    forall i, j :: 0 <= i < j < |gs| ==> gs[i].orderCount >= gs[j].orderCount
  }

  /** Putting in front a group whose count is at least every other count
      keeps the order. */
  lemma SortedCons(h: Group, gs: seq<Group>)
    requires SortedByCount(gs)
    requires forall x :: x in gs ==> h.orderCount >= x.orderCount
    ensures SortedByCount([h] + gs)
  {
    var r := [h] + gs;
    forall i, j | 0 <= i < j < |r| ensures r[i].orderCount >= r[j].orderCount {
      assert r[j] == gs[j - 1];
      if i > 0 {
        assert r[i] == gs[i - 1];
      }
    }
  }

  /** The tail of an ordered list is ordered and bounded by its head. */
  lemma SortedTail(gs: seq<Group>)
    requires gs != [] && SortedByCount(gs)
    ensures SortedByCount(gs[1..])
    ensures forall x :: x in gs[1..] ==> gs[0].orderCount >= x.orderCount
  {
    var tail := gs[1..];
    forall i, j | 0 <= i < j < |tail| ensures tail[i].orderCount >= tail[j].orderCount {
      assert tail[i] == gs[i + 1] && tail[j] == gs[j + 1];
    }
    forall x | x in tail ensures gs[0].orderCount >= x.orderCount {
      var p :| 0 <= p < |tail| && tail[p] == x;
      assert gs[p + 1] == x;
    }
  }

  /** A bound on every member of `gs` and on `g` bounds every member of a
      list with the same elements. */
  lemma BoundKept(h: Group, g: Group, gs: seq<Group>, r: seq<Group>)
    requires multiset(r) == multiset(gs) + multiset{g}
    requires h.orderCount >= g.orderCount
    requires forall x :: x in gs ==> h.orderCount >= x.orderCount
    ensures forall x :: x in r ==> h.orderCount >= x.orderCount
  {
    forall x | x in r ensures h.orderCount >= x.orderCount {
      assert x in multiset(r);
      if x != g {
        assert x in multiset(gs);
      }
    }
  }

  /** Inserts `g` into a list ordered by descending count. Among equal
      counts the database may choose any order; this model puts `g` first. */
  function InsertByCount(g: Group, gs: seq<Group>): (r: seq<Group>)
    requires SortedByCount(gs)
    ensures SortedByCount(r)
    ensures multiset(r) == multiset(gs) + multiset{g}
  {
    if gs == [] || g.orderCount >= gs[0].orderCount then
      SortedCons(g, gs);
      [g] + gs
    else
      SortedTail(gs);
      var rest := InsertByCount(g, gs[1..]);
      BoundKept(gs[0], g, gs[1..], rest);
      SortedCons(gs[0], rest);
      assert gs == [gs[0]] + gs[1..];
      [gs[0]] + rest
  }

  /** The groups in descending order of their counts. */
  function SortByCount(gs: seq<Group>): (r: seq<Group>)
    ensures SortedByCount(r)
    ensures multiset(r) == multiset(gs)
  {
    if gs == [] then []
    else
      assert gs == [gs[0]] + gs[1..];
      InsertByCount(gs[0], SortByCount(gs[1..]))
  }

  /** A prefix holds a sub-multiset of the elements. */
  lemma PrefixElements(s: seq<Group>, n: nat)
    requires n <= |s|
    ensures multiset(s[..n]) <= multiset(s)
  {
    assert s == s[..n] + s[n..];
  }

  /** The rows the query returns: the first ten groups by descending count. */
  function Ranked(gs: seq<Group>): (r: seq<Group>)
    ensures |r| == if |gs| <= Limit then |gs| else Limit
    ensures SortedByCount(r)
    ensures multiset(r) <= multiset(gs)
  {
    var s := SortByCount(gs);
    assert |s| == |multiset(s)| == |multiset(gs)| == |gs|;
    if |s| <= Limit then s
    else
      PrefixElements(s, Limit);
      s[..Limit]
  }

  /** Every returned group is one of the input groups. */
  lemma RankedFromInput(gs: seq<Group>)
    ensures forall g :: g in Ranked(gs) ==> g in gs
  {
    forall g | g in Ranked(gs) ensures g in gs {
      assert g in multiset(Ranked(gs));
    }
  }

  /** Top-N: a group left out of the ranking has no higher count than any
      ranked group. */
  lemma RankedTopN(gs: seq<Group>)
    ensures forall g, k :: g in gs && g !in Ranked(gs) && 0 <= k < |Ranked(gs)| ==>
      g.orderCount <= Ranked(gs)[k].orderCount
  {
    var s := SortByCount(gs);
    var r := Ranked(gs);
    forall g, k | g in gs && g !in r && 0 <= k < |r|
      ensures g.orderCount <= r[k].orderCount
    {
      assert g in multiset(s);
      var p :| 0 <= p < |s| && s[p] == g;
      if |s| > Limit {
        assert r == s[..Limit];
        assert s[k] == r[k];
      }
    }
  }

  /** With at most ten groups, every group is returned. */
  lemma RankedKeepsAll(gs: seq<Group>)
    requires |gs| <= Limit
    ensures multiset(Ranked(gs)) == multiset(gs)
  {
  }

  /** Reordering preserves distinct item ids. */
  lemma {:induction false} InsertKeepsDistinct(g: Group, gs: seq<Group>)
    requires SortedByCount(gs) && DistinctItems(gs)
    requires forall x :: x in gs ==> x.item.id != g.item.id
    ensures DistinctItems(InsertByCount(g, gs))
  {
    if gs == [] || g.orderCount >= gs[0].orderCount {
      DistinctCons(g, gs);
    } else {
      var tail := gs[1..];
      DistinctTail(gs);
      SortedTail(gs);
      InsertKeepsDistinct(g, tail);
      var rest := InsertByCount(g, tail);
      forall x | x in rest ensures x.item.id != gs[0].item.id {
        assert x in multiset(rest);
        if x != g {
          assert x in multiset(tail);
        }
      }
      DistinctCons(gs[0], rest);
    }
  }

  lemma {:induction false} SortKeepsDistinct(gs: seq<Group>)
    requires DistinctItems(gs)
    ensures DistinctItems(SortByCount(gs))
  {
    if gs != [] {
      var tail := gs[1..];
      DistinctTail(gs);
      SortKeepsDistinct(tail);
      var s := SortByCount(tail);
      forall x | x in s ensures x.item.id != gs[0].item.id {
        assert x in multiset(tail);
      }
      InsertKeepsDistinct(gs[0], s);
    }
  }

  // ---------------------------------------------------------------------
  // The handler

  /** One row of the response. */
  datatype ResultRow = ResultRow(restaurantId: int, restaurantName: string, city: string,
                                 dishName: string, dishPrice: int, orderCount: nat)

  datatype Response = Rejected(reason: Rejection) | Found(restaurants: seq<ResultRow>)

  function RowOf(g: Group): ResultRow
  {
    ResultRow(g.restaurant.id, g.restaurant.name, g.restaurant.city, g.item.dishName, g.item.priceCents, g.orderCount)
  }

  /** The response rows, one per group in the groups' order: a list of
      groups sorted by count gives rows in non-increasing order of
      `orderCount`. */
  function RowsOf(gs: seq<Group>): (rows: seq<ResultRow>)
    ensures |rows| == |gs| && forall k :: 0 <= k < |gs| ==> rows[k] == RowOf(gs[k])
    ensures SortedByCount(gs) ==>
      forall i, j :: 0 <= i < j < |rows| ==> rows[i].orderCount >= rows[j].orderCount
  {
    seq(|gs|, k requires 0 <= k < |gs| => RowOf(gs[k]))
  }

  /** The groups a validated query returns: min(10, n) of the n groups
      the filters and joins keep, most-ordered first. */
  function Answer(db: Database, q: Query): (gs: seq<Group>)
    ensures |gs| == if |Matching(db, q, db.menuItems)| <= Limit then |Matching(db, q, db.menuItems)| else Limit
    ensures SortedByCount(gs)
    ensures forall g :: g in gs ==>
      g.item in db.menuItems && Joined(db.restaurants, g.item, q) && g == GroupOf(db, g.item)
  {
    RankedFromInput(Matching(db, q, db.menuItems));
    Ranked(Matching(db, q, db.menuItems))
  }

  /** GET /search/dishes?name=&minPrice=&maxPrice= */
  function SearchDishes(db: Database, name: Option<string>, minPrice: PriceParam, maxPrice: PriceParam): (resp: Response)
    ensures resp.Rejected? <==> Validate(name, minPrice, maxPrice).Reject?
    ensures resp.Rejected? ==> resp.reason == Validate(name, minPrice, maxPrice).reason
    ensures resp.Found? ==>
      var n := |Matching(db, Validate(name, minPrice, maxPrice).query, db.menuItems)|;
      |resp.restaurants| == if n <= Limit then n else Limit
  {
    match Validate(name, minPrice, maxPrice)
    case Reject(reason) => Rejected(reason)
    case Accept(q) => Found(RowsOf(Answer(db, q)))
  }

  /** Every returned row comes from one menu item of the database that
      passes the name and price filters, carries that item's name and price
      and the id, name and city of a restaurant with the item's restaurant
      id, and counts exactly the orders referencing it; the rows are in
      non-increasing order of their counts. */
  lemma SearchRowsSound(db: Database, name: Option<string>, minPrice: PriceParam, maxPrice: PriceParam)
    requires SearchDishes(db, name, minPrice, maxPrice).Found?
    ensures var rows := SearchDishes(db, name, minPrice, maxPrice).restaurants;
      forall k :: 0 <= k < |rows| ==>
        minPrice.Amount? && maxPrice.Amount? &&
        0 <= minPrice.cents <= rows[k].dishPrice <= maxPrice.cents &&
        NameMatches(rows[k].dishName, Trim(name.value)) &&
        (exists m :: m in db.menuItems && m.dishName == rows[k].dishName &&
          m.priceCents == rows[k].dishPrice && m.restaurantId == rows[k].restaurantId &&
          rows[k].orderCount == OrderCount(db.orders, m.id)) &&
        exists r :: r in db.restaurants && r.id == rows[k].restaurantId &&
          r.name == rows[k].restaurantName && r.city == rows[k].city
    ensures var rows := SearchDishes(db, name, minPrice, maxPrice).restaurants;
      forall i, j :: 0 <= i < j < |rows| ==> rows[i].orderCount >= rows[j].orderCount
  {
    var q := Validate(name, minPrice, maxPrice).query;
    var gs := Answer(db, q);
    var rows := RowsOf(gs);
    forall k | 0 <= k < |rows|
      ensures minPrice.Amount? && maxPrice.Amount? &&
        0 <= minPrice.cents <= rows[k].dishPrice <= maxPrice.cents &&
        NameMatches(rows[k].dishName, Trim(name.value)) &&
        (exists m :: m in db.menuItems && m.dishName == rows[k].dishName &&
          m.priceCents == rows[k].dishPrice && m.restaurantId == rows[k].restaurantId &&
          rows[k].orderCount == OrderCount(db.orders, m.id)) &&
        exists r :: r in db.restaurants && r.id == rows[k].restaurantId &&
          r.name == rows[k].restaurantName && r.city == rows[k].city
    {
      var g := gs[k];
      assert g in gs;
      assert rows[k] == RowOf(g);
    }
  }

  /** Top-N at the handler level: a matching menu item whose group is not
      returned has no more orders than any returned row. */
  lemma SearchTopN(db: Database, q: Query, m: MenuRow)
    requires m in db.menuItems && Joined(db.restaurants, m, q)
    requires GroupOf(db, m) !in Answer(db, q)
    ensures forall k :: 0 <= k < |Answer(db, q)| ==>
      OrderCount(db.orders, m.id) <= RowsOf(Answer(db, q))[k].orderCount
  {
    RankedTopN(Matching(db, q, db.menuItems));
  }

  /** When at most ten items match, each appears in the response, including
      items without any order (the left join keeps them with count 0). */
  lemma SearchKeepsAllMatches(db: Database, q: Query, m: MenuRow)
    requires |Matching(db, q, db.menuItems)| <= Limit
    requires m in db.menuItems && Joined(db.restaurants, m, q)
    ensures RowOf(GroupOf(db, m)) in RowsOf(Answer(db, q))
    ensures OrderCount(db.orders, m.id) == 0 ==> RowOf(GroupOf(db, m)).orderCount == 0
  {
    var gs := Matching(db, q, db.menuItems);
    RankedKeepsAll(gs);
    var g := GroupOf(db, m);
    assert g in multiset(Answer(db, q));
    var p :| 0 <= p < |Answer(db, q)| && Answer(db, q)[p] == g;
    assert RowsOf(Answer(db, q))[p] == RowOf(g);
  }

  /** With unique menu item ids, a valid search returns min(10, n) rows,
      where n is the number of menu items that pass the filters and have a
      restaurant. */
  lemma SearchRowCount(db: Database, name: Option<string>, minPrice: PriceParam, maxPrice: PriceParam)
    requires UniqueIds(db.menuItems)
    ensures var resp := SearchDishes(db, name, minPrice, maxPrice);
      resp.Found? ==>
        var n := |JoinedIds(db, Validate(name, minPrice, maxPrice).query, db.menuItems)|;
        |resp.restaurants| == if n <= Limit then n else Limit
  {
    if Validate(name, minPrice, maxPrice).Accept? {
      MatchingCount(db, Validate(name, minPrice, maxPrice).query, db.menuItems);
    }
  }

  /** With unique menu item ids, no item is returned twice. */
  lemma AnswerDistinct(db: Database, q: Query)
    requires UniqueIds(db.menuItems)
    ensures DistinctItems(Answer(db, q))
  {
    var gs := Matching(db, q, db.menuItems);
    MatchingDistinct(db, q, db.menuItems);
    SortKeepsDistinct(gs);
    var s := SortByCount(gs);
    if |s| > Limit {
      assert Answer(db, q) == s[..Limit];
    }
  }

  /** A name of white space only passes the missing-parameter check, trims
      to the empty term, and then every item priced within the range is
      selected. */
  lemma BlankNameMatchesAll(s: string, minCents: int, maxCents: int, item: MenuRow)
    requires s != [] && AllSpace(s)
    requires 0 <= minCents <= maxCents
    requires minCents <= item.priceCents <= maxCents
    ensures Validate(Some(s), Amount(minCents), Amount(maxCents)) == Accept(Query([], minCents, maxCents))
    ensures Selected(item, Query([], minCents, maxCents))
  {
    TrimEmptyIffAllSpace(s);
    EmptyTermMatchesAll(item.dishName);
  }
}
