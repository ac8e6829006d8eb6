/**
 History search over all entities (internal/service/backend/history.go): each source is limited by
 its own query, the rows are laid end to end, sorted stably and cut.
 */
module History {
  import opened Strings
  import Pigeonhole

  /** A stored row; `ticks` is its time in the store's resolution. */
  datatype Row = Row(ticks: int, key: string)

  /** A history item; its time is printed and compared in whole seconds. */
  datatype Item = Item(seconds: int, key: string)

  const TICKS_PER_SECOND: int := 1_000_000

  function Seconds(ticks: int): int {
    ticks / TICKS_PER_SECOND
  }

  /** The order of the queries: newest first. */
  ghost predicate NewestFirst(rows: seq<Row>) {
    forall i, j :: 0 <= i < j < |rows| ==> rows[i].ticks >= rows[j].ticks
  }

  function Items(rows: seq<Row>): seq<Item> {
    seq(|rows|, i requires 0 <= i < |rows| => Item(Seconds(rows[i].ticks), rows[i].key))
  }

  /** LIMIT n; a source that is not limited returns everything. */
  function Fetched(rows: seq<Row>, limit: nat, unbounded: bool): seq<Row> {
    if !unbounded && limit < |rows| then rows[..limit] else rows
  }

  function NormalizeLimit(limit: int, unbounded: bool): nat {
    if unbounded then 0 else if limit <= 0 then 20 else if limit > 100 then 100 else limit
  }

  // ---------------------------------------------------------------- the stable sort

  /** a comes before b: newer, or as new with the smaller key. */
  predicate Before(a: Item, b: Item) {
    a.seconds > b.seconds || (a.seconds == b.seconds && Less(a.key, b.key))
  }

  ghost predicate Ordered(items: seq<Item>) {
    forall i, j :: 0 <= i < j < |items| ==> !Before(items[j], items[i])
  }

  /** Puts x after every item that does not have to follow it. */
  function Place(items: seq<Item>, x: Item): seq<Item> {
    if items == [] then [x]
    else if Before(x, items[|items| - 1]) then Place(items[..|items| - 1], x) + [items[|items| - 1]]
    else items + [x]
  }

  function StableSort(items: seq<Item>): seq<Item> {
    if items == [] then [] else Place(StableSort(items[..|items| - 1]), items[|items| - 1])
  }

  lemma BeforeTransitive(a: Item, b: Item, c: Item)
    requires !Before(b, a) && !Before(c, b)
    ensures !Before(c, a)
  {
    LessTotal(a.key, b.key);
    LessTotal(b.key, c.key);
    LessTotal(a.key, c.key);
    if Less(c.key, a.key) && a.seconds == b.seconds == c.seconds {
      if a.key != b.key && b.key != c.key {
        LessTransitive(a.key, b.key, c.key);
      }
    }
  }

  lemma {:induction false} PlacePermutes(items: seq<Item>, x: Item)
    ensures multiset(Place(items, x)) == multiset(items) + multiset{x}
  {
    hide Before;
    if items != [] {
      var n := |items| - 1;
      assert items == items[..n] + [items[n]];
      PlacePermutes(items[..n], x);
    }
  }

  lemma {:induction false} PlaceOrdered(items: seq<Item>, x: Item)
    requires Ordered(items)
    ensures Ordered(Place(items, x))
  {
    hide Before;
    if items != [] {
      var n := |items| - 1;
      var front, last := items[..n], items[n];
      if Before(x, last) {
        PlaceOrdered(front, x);
        PlacePermutes(front, x);
        BeforeAsymmetric(x, last);
        forall y | y in Place(front, x)
          ensures !Before(last, y)
        {
          assert y in multiset(Place(front, x));
          if y != x {
            assert y in front;
          }
        }
      } else {
        forall y | y in items
          ensures !Before(x, y)
        {
          if y != last {
            BeforeTransitive(y, last, x);
          }
        }
      }
    }
  }

  lemma BeforeAsymmetric(a: Item, b: Item)
    ensures Before(a, b) ==> !Before(b, a)
  {
    LessTotal(a.key, b.key);
  }

  lemma {:induction false} StableSortSorts(items: seq<Item>)
    ensures Ordered(StableSort(items)) && multiset(StableSort(items)) == multiset(items)
  {
    if items != [] {
      var n := |items| - 1;
      StableSortSorts(items[..n]);
      PlacePermutes(StableSort(items[..n]), items[n]);
      PlaceOrdered(StableSort(items[..n]), items[n]);
      assert items == items[..n] + [items[n]];
    }
  }

  // ---------------------------------------------------------------- the merge

  /** The query methods of the three sources and the merge of historyItems. */
  method AllItems(work: seq<Row>, receipts: seq<Row>, runs: seq<Row>, requested: int, unbounded: bool)
    returns (items: seq<Item>)
    ensures items == TopItems(work, receipts, runs, NormalizeLimit(requested, unbounded), unbounded)
  {
    var limit := NormalizeLimit(requested, unbounded);
    var workItems := ListItems(work, limit, unbounded);
    var receiptItems := ListItems(receipts, limit, unbounded);
    var runItems := ListItems(runs, limit, unbounded);
    items := workItems + receiptItems + runItems;
    items := StableSort(items);
    if !unbounded && limit > 0 && |items| > limit {
      items := items[..limit];
    }
  }

  method ListItems(rows: seq<Row>, limit: nat, unbounded: bool) returns (items: seq<Item>)
    ensures items == Items(Fetched(rows, limit, unbounded))
  {
    var fetched := Fetched(rows, limit, unbounded);
    items := [];
    for i := 0 to |fetched|
      invariant items == Items(fetched[..i])
    {
      items := items + [Item(Seconds(fetched[i].ticks), fetched[i].key)];
    }
    assert fetched[..|fetched|] == fetched;
  }

  function Limited(work: seq<Row>, receipts: seq<Row>, runs: seq<Row>, limit: nat, unbounded: bool): seq<Item> {
    Items(Fetched(work, limit, unbounded)) + Items(Fetched(receipts, limit, unbounded)) + Items(Fetched(runs, limit, unbounded))
  }

  function TopItems(work: seq<Row>, receipts: seq<Row>, runs: seq<Row>, limit: nat, unbounded: bool): seq<Item> {
    var sorted := StableSort(Limited(work, receipts, runs, limit, unbounded));
    if !unbounded && limit > 0 && |sorted| > limit then sorted[..limit] else sorted
  }

  /** The reference: every row of every source, sorted. */
  function FullSort(work: seq<Row>, receipts: seq<Row>, runs: seq<Row>): seq<Item> {
    StableSort(Items(work) + Items(receipts) + Items(runs))
  }

  // ---------------------------------------------------------------- counting what is at least as new

  /** How many items are at least as new as t. */
  function Count(items: seq<Item>, t: int): nat {
    Pigeonhole.Count(items, (x: Item) => x.seconds >= t)
  }

  lemma CountAppend(items: seq<Item>, x: Item, t: int)
    ensures Count(items + [x], t) == Count(items, t) + if x.seconds >= t then 1 else 0
  {
    assert (items + [x])[..|items|] == items;
  }

  lemma {:induction false} CountPlace(items: seq<Item>, x: Item, t: int)
    ensures Count(Place(items, x), t) == Count(items, t) + if x.seconds >= t then 1 else 0
  {
    hide Before, Count;
    if items == [] || !Before(x, items[|items| - 1]) {
      CountAppend(items, x, t);
      assert items + [x] == Place(items, x);
    } else {
      var front, last := items[..|items| - 1], items[|items| - 1];
      CountPlace(front, x, t);
      CountAppend(Place(front, x), last, t);
      CountAppend(front, last, t);
      assert items == front + [last];
    }
  }

  /** Sorting moves rows, it neither gains nor loses any. */
  lemma {:induction false} CountSort(items: seq<Item>, t: int)
    ensures Count(StableSort(items), t) == Count(items, t)
  {
    if items != [] {
      var n := |items| - 1;
      CountSort(items[..n], t);
      CountPlace(StableSort(items[..n]), items[n], t);
    }
  }

  ghost predicate Descending(items: seq<Item>) {
    forall i, j :: 0 <= i < j < |items| ==> items[i].seconds >= items[j].seconds
  }

  /** In a descending list the rows at least as new as t are the first ones. */
  lemma {:induction false} CountDescending(items: seq<Item>, t: int, i: nat)
    requires Descending(items) && i < |items|
    ensures items[i].seconds >= t <==> i < Count(items, t)
    ensures Count(items, t) <= |items|
  {
    var n := |items| - 1;
    if i < n {
      CountDescending(items[..n], t, i);
    } else {
      CountAtMost(items[..n], t);
      if items[n].seconds >= t {
        CountAll(items[..n], t);
      }
    }
    if i < n && items[n].seconds >= t {
      CountAll(items[..n], t);
    }
    CountAtMost(items, t);
  }

  lemma {:induction false} CountAtMost(items: seq<Item>, t: int)
    ensures Count(items, t) <= |items|
  {
    if items != [] {
      CountAtMost(items[..|items| - 1], t);
    }
  }

  lemma {:induction false} CountAll(items: seq<Item>, t: int)
    requires forall i :: 0 <= i < |items| ==> items[i].seconds >= t
    ensures Count(items, t) == |items|
  {
    if items != [] {
      CountAll(items[..|items| - 1], t);
    }
  }

  function Min(a: nat, b: nat): nat {
    if a < b then a else b
  }

  /** Limiting a source keeps the newest: the count is cut at the limit. */
  lemma CountLimited(rows: seq<Row>, limit: nat, t: int)
    requires NewestFirst(rows)
    ensures Count(Items(Fetched(rows, limit, false)), t) == Min(Count(Items(rows), t), limit)
  {
    var all, cut := Items(rows), Items(Fetched(rows, limit, false));
    assert Descending(all);
    CountAtMost(all, t);
    if limit < |rows| {
      assert cut == all[..limit];
      CountPrefix(all, limit, t);
    } else {
      assert Fetched(rows, limit, false) == rows;
    }
  }

  lemma {:induction false} CountPrefix(items: seq<Item>, k: nat, t: int)
    requires Descending(items) && k <= |items|
    ensures Count(items[..k], t) == Min(Count(items, t), k)
  {
    if k == |items| {
      assert items[..k] == items;
      CountAtMost(items, t);
    } else {
      var n := |items| - 1;
      assert items[..n][..k] == items[..k];
      CountPrefix(items[..n], k, t);
      if items[n].seconds >= t {
        CountAll(items[..n], t);
      }
    }
  }

  lemma OrderedDescends(items: seq<Item>)
    requires Ordered(items)
    ensures Descending(items)
  {
    forall i, j | 0 <= i < j < |items|
      ensures items[i].seconds >= items[j].seconds
    {
      assert !Before(items[j], items[i]);
    }
  }

  /** The limited rows and all rows agree on how many are at least as new as t, up to the limit. */
  lemma CountsAgree(work: seq<Row>, receipts: seq<Row>, runs: seq<Row>, limit: nat, t: int)
    requires NewestFirst(work) && NewestFirst(receipts) && NewestFirst(runs)
    ensures Min(Count(StableSort(Limited(work, receipts, runs, limit, false)), t), limit)
            == Min(Count(FullSort(work, receipts, runs), t), limit)
  {
    CountLimited(work, limit, t);
    CountLimited(receipts, limit, t);
    CountLimited(runs, limit, t);
    var a, b, c := Items(Fetched(work, limit, false)), Items(Fetched(receipts, limit, false)), Items(Fetched(runs, limit, false));
    CountSort(a + b + c, t);
    Pigeonhole.CountConcat(a + b, c, (x: Item) => x.seconds >= t);
    Pigeonhole.CountConcat(a, b, (x: Item) => x.seconds >= t);
    var u, v, w := Items(work), Items(receipts), Items(runs);
    CountSort(u + v + w, t);
    Pigeonhole.CountConcat(u + v, w, (x: Item) => x.seconds >= t);
    Pigeonhole.CountConcat(u, v, (x: Item) => x.seconds >= t);
  }

  lemma {:induction false} SortLength(items: seq<Item>)
    ensures |StableSort(items)| == |items|
  {
    StableSortSorts(items);
    assert |multiset(StableSort(items))| == |multiset(items)|;
  }

  /** How many rows are returned, and that they are in order. */
  lemma TopShape(work: seq<Row>, receipts: seq<Row>, runs: seq<Row>, limit: nat, unbounded: bool)
    requires unbounded || limit > 0
    ensures var total := |work| + |receipts| + |runs|;
            var top := TopItems(work, receipts, runs, limit, unbounded);
            Ordered(top) && |top| == if unbounded then total else Min(limit, total)
  {
    var merged := Limited(work, receipts, runs, limit, unbounded);
    StableSortSorts(merged);
    SortLength(merged);
  }

  /** The limit used: none when unbounded, 20 when none is given, and 100 at most. */
  lemma LimitExactly(requested: int, unbounded: bool)
    ensures NormalizeLimit(requested, unbounded)
            == if unbounded then 0 else if requested <= 0 then 20 else if requested <= 100 then requested else 100
  {
  }

  /** The order of the result: newest second first, keys ascending within a second. */
  lemma TopInOrder(work: seq<Row>, receipts: seq<Row>, runs: seq<Row>, limit: nat, unbounded: bool, i: nat, j: nat)
    requires unbounded || limit > 0
    requires i < j < |TopItems(work, receipts, runs, limit, unbounded)|
    ensures var top := TopItems(work, receipts, runs, limit, unbounded);
            top[i].seconds > top[j].seconds || (top[i].seconds == top[j].seconds && !Less(top[j].key, top[i].key))
  {
    hide TopItems;
    TopShape(work, receipts, runs, limit, unbounded);
    var top := TopItems(work, receipts, runs, limit, unbounded);
    assert !Before(top[j], top[i]);
  }

  /** Each returned item is a stored row: its key, and its time in whole seconds. */
  lemma TopComesFromRows(work: seq<Row>, receipts: seq<Row>, runs: seq<Row>, limit: nat, unbounded: bool, i: nat)
    requires i < |TopItems(work, receipts, runs, limit, unbounded)|
    ensures var x := TopItems(work, receipts, runs, limit, unbounded)[i];
            exists row :: (row in work || row in receipts || row in runs) && x.key == row.key
                          && x.seconds * 1_000_000 <= row.ticks < (x.seconds + 1) * 1_000_000
  {
    hide TopItems, Items;
    TopIsDrawn(work, receipts, runs, limit, unbounded);
    var x := TopItems(work, receipts, runs, limit, unbounded)[i];
    assert x in multiset(TopItems(work, receipts, runs, limit, unbounded));
    var all := Items(work) + Items(receipts) + Items(runs);
    assert x in multiset(all) && x in all;
    if x in Items(work) {
      var row := RowOf(work, x);
    } else if x in Items(receipts) {
      var row := RowOf(receipts, x);
    } else {
      assert x in Items(runs);
      var row := RowOf(runs, x);
    }
  }

  lemma RowOf(rows: seq<Row>, x: Item) returns (row: Row)
    requires x in Items(rows)
    ensures row in rows && x.key == row.key && x.seconds * 1_000_000 <= row.ticks < (x.seconds + 1) * 1_000_000
  {
    var i :| 0 <= i < |Items(rows)| && Items(rows)[i] == x;
    row := rows[i];
  }

  /** The returned rows are stored rows, none more often than it is stored. */
  lemma TopIsDrawn(work: seq<Row>, receipts: seq<Row>, runs: seq<Row>, limit: nat, unbounded: bool)
    ensures multiset(TopItems(work, receipts, runs, limit, unbounded)) <= multiset(Items(work) + Items(receipts) + Items(runs))
  {
    hide StableSort, Ordered, Items, Fetched, Limited;
    var merged := Limited(work, receipts, runs, limit, unbounded);
    var sorted := StableSort(merged);
    StableSortSorts(merged);
    if !unbounded && limit > 0 && |sorted| > limit {
      assert sorted == sorted[..limit] + sorted[limit..];
    }
    LimitedDrawn(work, receipts, runs, limit, unbounded);
  }

  lemma LimitedDrawn(work: seq<Row>, receipts: seq<Row>, runs: seq<Row>, limit: nat, unbounded: bool)
    ensures multiset(Limited(work, receipts, runs, limit, unbounded)) <= multiset(Items(work) + Items(receipts) + Items(runs))
  {
    hide Items, Fetched;
    FetchedDrawn(work, limit, unbounded);
    FetchedDrawn(receipts, limit, unbounded);
    FetchedDrawn(runs, limit, unbounded);
  }

  lemma FetchedDrawn(rows: seq<Row>, limit: nat, unbounded: bool)
    ensures multiset(Items(Fetched(rows, limit, unbounded))) <= multiset(Items(rows))
  {
    if !unbounded && limit < |rows| {
      assert Items(rows) == Items(rows[..limit]) + Items(rows[limit..]);
    }
  }

  /** Every returned row is as new as the row at its place in the full sort: cutting early loses nothing newer. */
  lemma TopIsNewest(work: seq<Row>, receipts: seq<Row>, runs: seq<Row>, limit: nat, unbounded: bool, i: nat)
    requires NewestFirst(work) && NewestFirst(receipts) && NewestFirst(runs)
    requires unbounded || limit > 0
    requires i < |TopItems(work, receipts, runs, limit, unbounded)|
    ensures var top, full := TopItems(work, receipts, runs, limit, unbounded), FullSort(work, receipts, runs);
            i < |full| && top[i].seconds == full[i].seconds
  {
    TopShape(work, receipts, runs, limit, unbounded);
    SortLength(Items(work) + Items(receipts) + Items(runs));
    if !unbounded {
      var sorted, full := StableSort(Limited(work, receipts, runs, limit, false)), FullSort(work, receipts, runs);
      StableSortSorts(Limited(work, receipts, runs, limit, false));
      StableSortSorts(Items(work) + Items(receipts) + Items(runs));
      OrderedDescends(sorted);
      OrderedDescends(full);
      AtLeastAgrees(work, receipts, runs, limit, i, sorted[i].seconds);
      AtLeastAgrees(work, receipts, runs, limit, i, full[i].seconds);
    }
  }

  lemma AtLeastAgrees(work: seq<Row>, receipts: seq<Row>, runs: seq<Row>, limit: nat, i: nat, t: int)
    requires NewestFirst(work) && NewestFirst(receipts) && NewestFirst(runs)
    requires var sorted, full := StableSort(Limited(work, receipts, runs, limit, false)), FullSort(work, receipts, runs);
             i < limit && i < |sorted| && i < |full| && Descending(sorted) && Descending(full)
    ensures StableSort(Limited(work, receipts, runs, limit, false))[i].seconds >= t
            <==> FullSort(work, receipts, runs)[i].seconds >= t
  {
    CountsAgree(work, receipts, runs, limit, t);
    CountDescending(StableSort(Limited(work, receipts, runs, limit, false)), t, i);
    CountDescending(FullSort(work, receipts, runs), t, i);
  }

  /** No row left out is strictly newer than a row returned. */
  lemma NothingNewerOmitted(work: seq<Row>, receipts: seq<Row>, runs: seq<Row>, limit: nat, unbounded: bool, i: nat)
    requires NewestFirst(work) && NewestFirst(receipts) && NewestFirst(runs)
    requires unbounded || limit > 0
    requires i < |TopItems(work, receipts, runs, limit, unbounded)|
    ensures var top := TopItems(work, receipts, runs, limit, unbounded);
            Count(Items(work) + Items(receipts) + Items(runs), top[i].seconds + 1) == Count(top, top[i].seconds + 1)
  {
    hide Count, StableSort, Ordered, Before, Items, Descending;
    var top, all := TopItems(work, receipts, runs, limit, unbounded), Items(work) + Items(receipts) + Items(runs);
    var full, t := StableSort(all), top[i].seconds + 1;
    TopShape(work, receipts, runs, limit, unbounded);
    TopIsNewest(work, receipts, runs, limit, unbounded, i);
    CountSort(all, t);
    if !unbounded {
      var sorted := StableSort(Limited(work, receipts, runs, limit, false));
      SortDescends(Limited(work, receipts, runs, limit, false));
      SortDescends(all);
      CountsAgree(work, receipts, runs, limit, t);
      assert sorted[..|top|] == top;
      CountPrefix(sorted, |top|, t);
      CountDescending(sorted, t, i);
      CountDescending(full, t, i);
    }
  }

  /** The items at least as new as t, in order. */
  function AtLeast(items: seq<Item>, t: int): seq<Item> {
    if items == [] then []
    else
      var rest := AtLeast(items[..|items| - 1], t);
      if items[|items| - 1].seconds >= t then rest + [items[|items| - 1]] else rest
  }

  lemma {:induction false} AtLeastConcat(a: seq<Item>, b: seq<Item>, t: int)
    ensures AtLeast(a + b, t) == AtLeast(a, t) + AtLeast(b, t)
  {
    if b == [] {
      assert a + b == a;
    } else {
      AtLeastConcat(a, b[..|b| - 1], t);
      assert (a + b)[..|a + b| - 1] == a + b[..|b| - 1];
    }
  }

  lemma {:induction false} AtLeastMembers(items: seq<Item>, t: int, x: Item)
    ensures multiset(AtLeast(items, t))[x] == if x.seconds >= t then multiset(items)[x] else 0
  {
    if items != [] {
      var n := |items| - 1;
      assert items == items[..n] + [items[n]];
      AtLeastMembers(items[..n], t, x);
    }
  }

  /** In a descending list they are the first ones. */
  lemma {:induction false} AtLeastIsPrefix(items: seq<Item>, t: int)
    requires Descending(items)
    ensures Count(items, t) <= |items| && AtLeast(items, t) == items[..Count(items, t)]
  {
    hide Descending;
    CountAtMost(items, t);
    if items != [] {
      var n := |items| - 1;
      var front := items[..n];
      DescendingFront(items);
      AtLeastIsPrefix(front, t);
      CountAtMost(front, t);
      assert items == front + [items[n]];
      CountAppend(front, items[n], t);
      if items[n].seconds >= t {
        AllAtLeast(items, t);
        assert front[..n] == front;
      } else {
        assert Count(items, t) == Count(front, t) <= n;
        assert front[..Count(items, t)] == items[..Count(items, t)];
      }
    }
  }

  lemma DescendingFront(items: seq<Item>)
    requires Descending(items) && items != []
    ensures Descending(items[..|items| - 1])
  {
  }

  lemma AllAtLeast(items: seq<Item>, t: int)
    requires Descending(items) && items != [] && items[|items| - 1].seconds >= t
    ensures Count(items, t) == |items| && Count(items[..|items| - 1], t) == |items| - 1
  {
    hide Count;
    CountAll(items, t);
    CountAll(items[..|items| - 1], t);
  }

  /** Two ordered lists of the same items are equal. */
  lemma {:induction false} OrderedUnique(a: seq<Item>, b: seq<Item>)
    requires Ordered(a) && Ordered(b) && multiset(a) == multiset(b)
    ensures a == b
  {
    hide Before, Ordered;
    Pigeonhole.SameLength(a, b);
    if a != [] {
      var n := |a| - 1;
      LastMember(a);
      LastMember(b);
      NoneFollows(a, b[n]);
      NoneFollows(b, a[n]);
      TiesAreEqual(a[n], b[n]);
      FrontOrdered(a);
      FrontOrdered(b);
      OrderedUnique(a[..n], b[..n]);
      SameParts(a, b);
    }
  }

  lemma SameParts(a: seq<Item>, b: seq<Item>)
    requires |a| == |b| > 0 && a[..|a| - 1] == b[..|b| - 1] && a[|a| - 1] == b[|b| - 1]
    ensures a == b
  {
    assert a == a[..|a| - 1] + [a[|a| - 1]] && b == b[..|b| - 1] + [b[|b| - 1]];
  }

  lemma LastMember(items: seq<Item>)
    requires items != []
    ensures items[|items| - 1] in multiset(items)
  {
  }

  lemma FrontOrdered(items: seq<Item>)
    requires Ordered(items) && items != []
    ensures var n := |items| - 1; Ordered(items[..n]) && multiset(items[..n]) == multiset(items) - multiset{items[n]}
  {
    hide Before;
    var n := |items| - 1;
    assert items == items[..n] + [items[n]];
  }

  lemma NoneFollows(items: seq<Item>, x: Item)
    requires Ordered(items) && items != [] && x in multiset(items)
    ensures !Before(items[|items| - 1], x)
  {
    hide Before;
    var i :| 0 <= i < |items| && items[i] == x;
    if i == |items| - 1 {
      BeforeAsymmetric(x, x);
    }
  }

  lemma TiesAreEqual(a: Item, b: Item)
    requires !Before(a, b) && !Before(b, a)
    ensures a == b
  {
    LessTotal(a.key, b.key);
  }

  /** Limiting a source loses none of its rows at least as new as t when at most `limit` of them are. */
  lemma FetchedAtLeast(rows: seq<Row>, limit: nat, t: int)
    requires NewestFirst(rows) && Count(Items(rows), t) <= limit
    ensures AtLeast(Items(Fetched(rows, limit, false)), t) == AtLeast(Items(rows), t)
  {
    var all := Items(rows);
    assert Descending(all);
    AtLeastIsPrefix(all, t);
    if limit < |rows| {
      var cut := Items(Fetched(rows, limit, false));
      assert cut == all[..limit] && Descending(cut);
      AtLeastIsPrefix(cut, t);
      CountLimited(rows, limit, t);
    }
  }

  /** Of all rows at least as new as t, when at most `limit` are, the limited sources keep every one. */
  lemma LimitedAtLeast(work: seq<Row>, receipts: seq<Row>, runs: seq<Row>, limit: nat, t: int)
    requires NewestFirst(work) && NewestFirst(receipts) && NewestFirst(runs)
    requires Count(Items(work) + Items(receipts) + Items(runs), t) <= limit
    ensures AtLeast(Limited(work, receipts, runs, limit, false), t) == AtLeast(Items(work) + Items(receipts) + Items(runs), t)
  {
    hide Fetched, Items, AtLeast, Pigeonhole.Count, NewestFirst;
    var u, v, w := Items(work), Items(receipts), Items(runs);
    Pigeonhole.CountConcat(u + v, w, (x: Item) => x.seconds >= t);
    Pigeonhole.CountConcat(u, v, (x: Item) => x.seconds >= t);
    FetchedAtLeast(work, limit, t);
    FetchedAtLeast(receipts, limit, t);
    FetchedAtLeast(runs, limit, t);
    var a, b, c := Items(Fetched(work, limit, false)), Items(Fetched(receipts, limit, false)), Items(Fetched(runs, limit, false));
    AtLeastConcat(u + v, w, t);
    AtLeastConcat(u, v, t);
    AtLeastConcat(a + b, c, t);
    AtLeastConcat(a, b, t);
  }

  lemma SameSortedPrefix(a: seq<Item>, b: seq<Item>, t: int)
    requires AtLeast(a, t) == AtLeast(b, t)
    ensures AtLeast(StableSort(a), t) == AtLeast(StableSort(b), t)
  {
    hide AtLeast, StableSort;
    StableSortSorts(a);
    StableSortSorts(b);
    OrderedDescends(StableSort(a));
    OrderedDescends(StableSort(b));
    AtLeastIsPrefix(StableSort(a), t);
    AtLeastIsPrefix(StableSort(b), t);
    forall x
      ensures multiset(AtLeast(StableSort(a), t))[x] == multiset(AtLeast(StableSort(b), t))[x]
    {
      AtLeastMembers(StableSort(a), t, x);
      AtLeastMembers(StableSort(b), t, x);
      AtLeastMembers(a, t, x);
      AtLeastMembers(b, t, x);
    }
    assert multiset(AtLeast(StableSort(a), t)) == multiset(AtLeast(StableSort(b), t));
    OrderedUnique(AtLeast(StableSort(a), t), AtLeast(StableSort(b), t));
  }

  /** Where the full sort drops by a whole second at the cut, the returned rows are its first rows, keys and all. */
  lemma TopIsFullPrefix(work: seq<Row>, receipts: seq<Row>, runs: seq<Row>, limit: nat)
    requires NewestFirst(work) && NewestFirst(receipts) && NewestFirst(runs) && limit > 0
    requires var full := FullSort(work, receipts, runs); limit < |full| ==> full[limit - 1].seconds > full[limit].seconds
    ensures var full := FullSort(work, receipts, runs);
            TopItems(work, receipts, runs, limit, false) == full[..Min(limit, |full|)]
  {
    hide Items, StableSort, AtLeast, Count, Before, Ordered;
    var all := Items(work) + Items(receipts) + Items(runs);
    var full := StableSort(all);
    SortLength(all);
    if limit < |full| {
      var t := full[limit - 1].seconds;
      SortDescends(all);
      CountDescending(full, t, limit - 1);
      CountDescending(full, t, limit);
      CountSort(all, t);
      LimitedAtLeast(work, receipts, runs, limit, t);
      var some := Limited(work, receipts, runs, limit, false);
      SameSortedPrefix(some, all, t);
      SortDescends(some);
      AtLeastIsPrefix(full, t);
      AtLeastIsPrefix(StableSort(some), t);
      TopShape(work, receipts, runs, limit, false);
      SortLength(some);
    } else {
      NothingCut(work, receipts, runs, limit);
    }
  }

  lemma NothingCut(work: seq<Row>, receipts: seq<Row>, runs: seq<Row>, limit: nat)
    requires limit >= |FullSort(work, receipts, runs)|
    ensures TopItems(work, receipts, runs, limit, false) == FullSort(work, receipts, runs)
  {
    hide StableSort;
    SortLength(Items(work) + Items(receipts) + Items(runs));
  }

  lemma SortDescends(items: seq<Item>)
    ensures Descending(StableSort(items))
  {
    StableSortSorts(items);
    OrderedDescends(StableSort(items));
  }
}
