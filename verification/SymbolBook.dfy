/** The mutable per-symbol book. Every method is tied to the corresponding function on book values. */
module SymbolBooks {
  import opened Bytes
  import opened Itch
  import opened Ladder
  import opened OrderBook

  class SymbolBook {
    var depth: nat
    var orders: Orders
    var bidLevels: Levels
    var askLevels: Levels
    var topBids: seq<Level>
    var topAsks: seq<Level>
    var lastTs: u64

    function View(): Book
      reads this
    {
      Book(depth, orders, bidLevels, askLevels, topBids, topAsks, lastTs)
    }

    constructor (depth: nat)
      ensures View() == Empty(depth)
    {
      this.depth := depth;
      orders, bidLevels, askLevels := map[], map[], map[];
      topBids, topAsks, lastTs := [], [], 0;
    }

    /** A copy of a stored book. */
    constructor Of(b: Book)
      ensures View() == b
    {
      depth, orders, bidLevels, askLevels := b.depth, b.orders, b.bids, b.asks;
      topBids, topAsks, lastTs := b.topBids, b.topAsks, b.lastTs;
    }

    /** Walk a ladder in order, copying at most depth levels. */
    method FirstLevels(levels: Levels, desc: bool) returns (top: seq<Level>)
      ensures top == Top(levels, desc, depth)
    {
      top := [];
      var rest := levels;
      while rest.Keys != {} && |top| < depth
        invariant Ranked(levels, desc) == top + Ranked(rest, desc)
        invariant |top| <= depth
        decreases |rest|
      {
        BestExists(rest, desc);
        var p :| p in rest && IsBest(p, rest, desc);
        TakeBest(levels, desc, top, rest, p);
        top := top + [rest[p]];
        rest := rest - {p};
      }
      TopTaken(levels, desc, top, rest, depth);
    }

    method RefreshTopBids()
      modifies this`topBids
      ensures topBids == Top(bidLevels, true, depth)
    {
      topBids := FirstLevels(bidLevels, true);
    }

    method RefreshTopAsks()
      modifies this`topAsks
      ensures topAsks == Top(askLevels, false, depth)
    {
      topAsks := FirstLevels(askLevels, false);
    }

    method ApplyLevelDelta(side: byte, price: Price, qty: int, count: int)
      modifies this`bidLevels, this`askLevels, this`topBids, this`topAsks
      ensures View() == ApplyDelta(old(View()), side, price, qty, count)
    {
      if side == BUY {
        if price !in bidLevels {
          if qty <= 0 {
            return;
          }
          bidLevels := bidLevels[price := Level(price, qty % TWO32, count % TWO32)];
        } else {
          var level := bidLevels[price];
          var nq, nc := level.total + qty, level.count + count;
          if nq <= 0 || nc <= 0 {
            bidLevels := bidLevels - {price};
          } else {
            bidLevels := bidLevels[price := level.(total := nq % TWO32, count := nc % TWO32)];
          }
        }
        RefreshTopBids();
      } else {
        if price !in askLevels {
          if qty <= 0 {
            return;
          }
          askLevels := askLevels[price := Level(price, qty % TWO32, count % TWO32)];
        } else {
          var level := askLevels[price];
          var nq, nc := level.total + qty, level.count + count;
          if nq <= 0 || nc <= 0 {
            askLevels := askLevels - {price};
          } else {
            askLevels := askLevels[price := level.(total := nq % TWO32, count := nc % TWO32)];
          }
        }
        RefreshTopAsks();
      }
    }

    method AddOrder(id: nat, side: byte, price: Price, qty: Quantity, ts: u64)
      modifies this
      ensures View() == Add(old(View()), id, side, price, qty, ts)
    {
      if qty == 0 || id in orders {
        return;
      }
      orders := orders[id := Order(side, price, qty, ts)];
      lastTs := ts;
      ApplyLevelDelta(side, price, qty, 1);
    }

    method ModifyOrder(id: nat, newQty: Quantity, ts: u64) returns (found: bool)
      modifies this
      ensures View() == Modify(old(View()), id, newQty, ts) && found == (id in old(orders))
    {
      if id !in orders {
        return false;
      }
      var o := orders[id];
      if newQty == o.qty {
        orders := orders[id := o.(ts := ts)];
      } else if newQty == 0 {
        orders := orders - {id};
        ApplyLevelDelta(o.side, o.price, 0 - o.qty, -1);
      } else {
        orders := orders[id := o.(qty := newQty, ts := ts)];
        ApplyLevelDelta(o.side, o.price, newQty - o.qty, 0);
      }
      lastTs := ts;
      return true;
    }

    method ReduceOrder(id: nat, delta: Quantity, ts: u64) returns (found: bool)
      modifies this
      ensures View() == Reduce(old(View()), id, delta, ts) && found == (id in old(orders))
    {
      if id !in orders {
        return false;
      }
      var cur := orders[id].qty;
      found := ModifyOrder(id, if delta >= cur then 0 else cur - delta, ts);
    }

    method DeleteOrder(id: nat, ts: u64) returns (found: bool)
      modifies this
      ensures View() == Remove(old(View()), id, ts) && found == (id in old(orders))
    {
      if id !in orders {
        return false;
      }
      var o := orders[id];
      orders := orders - {id};
      ApplyLevelDelta(o.side, o.price, 0 - o.qty, -1);
      lastTs := ts;
      return true;
    }

    method ReplaceOrder(oldId: nat, newId: nat, price: Price, qty: Quantity, ts: u64) returns (found: bool)
      modifies this
      ensures View() == Swap(old(View()), oldId, newId, price, qty, ts) && found == (oldId in old(orders))
    {
      if oldId !in orders {
        return false;
      }
      var side := orders[oldId].side;
      var _ := DeleteOrder(oldId, ts);
      AddOrder(newId, side, price, qty, ts);
      return true;
    }

    method SideOk(s: seq<Level>, desc: bool) returns (ok: bool)
      ensures ok <==> |s| <= depth && Stepwise(s, desc) && Nonzero(s)
    {
      if |s| > depth {
        return false;
      }
      var i := 1;
      while i < |s|
        invariant i >= 1
        invariant forall j :: 1 <= j < i && j < |s| ==> Before(desc, s[j - 1].price, s[j].price)
      {
        if !Before(desc, s[i - 1].price, s[i].price) {
          return false;
        }
        i := i + 1;
      }
      for k := 0 to |s|
        invariant forall j :: 0 <= j < k ==> s[j].count != 0 && s[j].total != 0
      {
        if s[k].count == 0 || s[k].total == 0 {
          return false;
        }
      }
      return true;
    }

    /** The book's own consistency check. It never fails on a book in step with its orders. */
    method InvariantsOk() returns (ok: bool)
      ensures ok == OrderBook.InvariantsOk(View())
      ensures Refines(View()) ==> ok
    {
      var bidsOk := SideOk(topBids, true);
      var asksOk := SideOk(topAsks, false);
      ok := bidsOk && asksOk;
      if Refines(View()) {
        TopsSound(View());
      }
    }
  }
}
