/** What a reader of the top lists learns about the live orders, in terms of the side byte and the prices alone. */
module TopOfBook {
  import opened Itch
  import opened Ladder
  import opened MapTotals
  import OB = OrderBook

  /** Orders with side byte 0x42, the letter B, are bids; all others are asks. */
  predicate Bid(o: OB.Order) {
    o.side == 0x42
  }

  ghost function SharesAt(orders: OB.Orders, bid: bool, p: Price): nat {
    Total(orders, (o: OB.Order) => if Bid(o) == bid && o.price == p then o.qty else 0)
  }

  ghost function OrdersAt(orders: OB.Orders, bid: bool, p: Price): nat {
    Total(orders, (o: OB.Order) => if Bid(o) == bid && o.price == p then 1 else 0)
  }

  lemma TotalsAt(orders: OB.Orders, bid: bool, p: Price)
    ensures OB.Qty(orders, bid, p) == SharesAt(orders, bid, p) && OB.Count(orders, bid, p) == OrdersAt(orders, bid, p)
  {
    TotalSame(orders, OB.QtyAt(bid, p), (o: OB.Order) => if Bid(o) == bid && o.price == p then o.qty else 0);
    TotalSame(orders, OB.CountAt(bid, p), (o: OB.Order) => if Bid(o) == bid && o.price == p then 1 else 0);
  }

  /** Prices fall along the bids and rise along the asks. */
  predicate Better(bid: bool, p: Price, q: Price) {
    if bid then p > q else p < q
  }

  /** The list shows the best prices of one side: each with all its shares and orders, from the best down, and a price
      is missing only from a full list of better ones. */
  ghost predicate ShowsBest(top: seq<Level>, depth: nat, orders: OB.Orders, bid: bool) {
    && |top| <= depth
    && (forall i :: 0 <= i < |top| ==>
          && top[i].total == SharesAt(orders, bid, top[i].price) > 0
          && top[i].count == OrdersAt(orders, bid, top[i].price) > 0)
    && (forall i, j :: 0 <= i < j < |top| ==> Better(bid, top[i].price, top[j].price))
    && (forall id :: id in orders && Bid(orders[id]) == bid ==> Shown(top, depth, bid, orders[id].price))
  }

  ghost predicate Shown(top: seq<Level>, depth: nat, bid: bool, p: Price) {
    || (exists i :: 0 <= i < |top| && top[i].price == p)
    || (|top| == depth && forall i :: 0 <= i < |top| ==> Better(bid, top[i].price, p))
  }

  lemma SideShown(levels: Levels, orders: OB.Orders, bid: bool, depth: nat, p: Price)
    requires OB.Positive(orders) && OB.SideRefines(levels, orders, bid) && OrdersAt(orders, bid, p) > 0
    ensures Shown(Top(levels, bid, depth), depth, bid, p)
  {
    OB.SideSound(levels, orders, bid, depth);
    TopSound(levels, bid, depth);
    TotalsAt(orders, bid, p);
    assert OB.LevelIs(levels, p, OB.Qty(orders, bid, p), OB.Count(orders, bid, p));
    var top := Top(levels, bid, depth);
    if levels[p] in top {
      var i :| 0 <= i < |top| && top[i] == levels[p];
      assert top[i].price == p;
    } else {
      assert Beaten(top, bid, depth, p);
    }
  }

  lemma LevelShown(levels: Levels, orders: OB.Orders, bid: bool, l: Level)
    requires OB.Positive(orders) && OB.SideRefines(levels, orders, bid) && l.price in levels && levels[l.price] == l
    ensures l.total == SharesAt(orders, bid, l.price) > 0 && l.count == OrdersAt(orders, bid, l.price) > 0
  {
    var p := l.price;
    TotalsAt(orders, bid, p);
    assert OB.LevelIs(levels, p, OB.Qty(orders, bid, p), OB.Count(orders, bid, p));
    OB.CountAtMostQty(orders, bid, p);
  }

  lemma OrderCounted(orders: OB.Orders, bid: bool, id: nat)
    requires id in orders && Bid(orders[id]) == bid
    ensures OrdersAt(orders, bid, orders[id].price) > 0
  {
    var p := orders[id].price;
    TotalPositive(orders, (o: OB.Order) => if Bid(o) == bid && o.price == p then 1 else 0);
  }

  lemma SideShows(levels: Levels, orders: OB.Orders, bid: bool, depth: nat)
    requires OB.Positive(orders) && OB.SideRefines(levels, orders, bid)
    ensures ShowsBest(Top(levels, bid, depth), depth, orders, bid)
  {
    OB.SideSound(levels, orders, bid, depth);
    TopSound(levels, bid, depth);
    var top := Top(levels, bid, depth);
    forall i | 0 <= i < |top|
      ensures top[i].total == SharesAt(orders, bid, top[i].price) > 0
      ensures top[i].count == OrdersAt(orders, bid, top[i].price) > 0
    {
      LevelShown(levels, orders, bid, top[i]);
    }
    forall id | id in orders && Bid(orders[id]) == bid
      ensures Shown(top, depth, bid, orders[id].price)
    {
      OrderCounted(orders, bid, id);
      SideShown(levels, orders, bid, depth, orders[id].price);
    }
  }

  /** Every book in step shows the best bids, highest first, and the best asks, lowest first. */
  lemma TopsExact(b: OB.Book)
    requires OB.Refines(b)
    ensures ShowsBest(b.topBids, b.depth, b.orders, true) && ShowsBest(b.topAsks, b.depth, b.orders, false)
  {
    SideShows(b.bids, b.orders, true, b.depth);
    SideShows(b.asks, b.orders, false, b.depth);
  }

  /** So the first bid is at least every bid, and the first ask at most every ask. */
  lemma BestPrices(b: OB.Book, id: nat)
    requires OB.Refines(b) && b.depth > 0 && id in b.orders
    ensures b.orders[id].side == 0x42 ==> b.topBids != [] && b.topBids[0].price >= b.orders[id].price
    ensures b.orders[id].side != 0x42 ==> b.topAsks != [] && b.topAsks[0].price <= b.orders[id].price
  {
    TopsExact(b);
    FirstIsBest(if Bid(b.orders[id]) then b.topBids else b.topAsks, b.depth, b.orders, Bid(b.orders[id]), id);
  }

  lemma FirstIsBest(top: seq<Level>, depth: nat, orders: OB.Orders, bid: bool, id: nat)
    requires ShowsBest(top, depth, orders, bid) && depth > 0 && id in orders && Bid(orders[id]) == bid
    ensures top != [] && (top[0].price == orders[id].price || Better(bid, top[0].price, orders[id].price))
  {
    assert Shown(top, depth, bid, orders[id].price);
    if i :| 0 <= i < |top| && top[i].price == orders[id].price {
      assert i == 0 || Better(bid, top[0].price, top[i].price);
    }
  }
}
