/** When a message leaves the whole state of the multi-symbol book as it was. */
module StateChange {
  import opened Bytes
  import opened Itch
  import opened Ladder
  import OB = OrderBook
  import opened Routing

  // ---- Replacing an order by itself ---------------------------------------

  function SideLevels(b: OB.Book, side: byte): Levels {
    if side == BUY then b.bids else b.asks
  }

  function SideTop(b: OB.Book, side: byte): seq<Level> {
    if side == BUY then b.topBids else b.topAsks
  }

  ghost function WithSide(b: OB.Book, side: byte, levels: Levels, top: seq<Level>): OB.Book {
    if side == BUY then b.(bids := levels, topBids := top) else b.(asks := levels, topAsks := top)
  }

  /** Taking an order off its level and putting it back. */
  function OffAndOn(levels: Levels, p: Price, qty: Quantity): Levels {
    OB.Delta(OB.Delta(levels, p, 0 - qty, -1), p, qty, 1)
  }

  /** The level either holds other orders and more shares, or nothing but this order. */
  predicate Restored(levels: Levels, p: Price, qty: Quantity) {
    p in levels && (levels[p] == Level(p, qty, 1) || (levels[p].total > qty && levels[p].count > 1))
  }

  lemma OffAndOnExact(levels: Levels, p: Price, qty: Quantity)
    requires qty > 0
    ensures OffAndOn(levels, p, qty) == levels <==> Restored(levels, p, qty)
  {
    if p in levels {
      var l := levels[p];
      if l.total > qty && l.count > 1 {
        assert OffAndOn(levels, p, qty) == levels[p := l];
      } else {
        assert OffAndOn(levels, p, qty) == levels[p := Level(p, qty, 1)];
      }
    }
  }

  /** What replacing an order by itself does to a book, in step or not. */
  lemma SwapSelf(b: OB.Book, id: nat, ts: u64)
    requires id in b.orders && b.orders[id].qty > 0 && ts == b.orders[id].ts
    ensures var o := b.orders[id];
            var levels := OffAndOn(SideLevels(b, o.side), o.price, o.qty);
            OB.Swap(b, id, id, o.price, o.qty, ts) ==
            WithSide(b, o.side, levels, Top(levels, o.side == BUY, b.depth)).(lastTs := ts)
  {
    var o := b.orders[id];
    var off := OB.Remove(b, id, ts);
    assert SideLevels(off, o.side) == OB.Delta(SideLevels(b, o.side), o.price, 0 - o.qty, -1);
    assert (b.orders - {id})[id := o] == b.orders;
  }

  /** The operation leaves a book exactly as it is. */
  ghost predicate IdleOn(b: OB.Book, op: OB.Op) {
    && !TakesEffect(b.orders, op) && (op.OpAdd? || op.id !in b.orders || op.ts == b.lastTs)
    && (op.OpReplace? && op.id in b.orders ==>
          var o := b.orders[op.id];
          && Restored(SideLevels(b, o.side), o.price, o.qty)
          && SideTop(b, o.side) == Top(SideLevels(b, o.side), o.side == BUY, b.depth))
  }

  lemma ReplaceIdleExact(b: OB.Book, op: OB.Op)
    requires OB.Positive(b.orders) && op.OpReplace? && op.id in b.orders && !TakesEffect(b.orders, op)
    ensures OB.Step(b, op) == b <==> IdleOn(b, op)
  {
    var o := b.orders[op.id];
    SwapSelf(b, op.id, op.ts);
    OffAndOnExact(SideLevels(b, o.side), o.price, o.qty);
  }

  // ---- One book -----------------------------------------------------------

  /** The timestamp of the book after an operation that does not change its orders. */
  lemma IdleStamp(b: OB.Book, op: OB.Op)
    requires !TakesEffect(b.orders, op) && OB.Positive(b.orders)
    ensures OB.Step(b, op).lastTs == if op.OpAdd? || op.id !in b.orders then b.lastTs else op.ts
    ensures OB.Step(b, op).depth == b.depth
  {
    OB.OrdersTrackNaive(b, op);
  }

  /** An operation, other than a replacement of a live order, that has no effect on the orders sets at most the
      timestamp. */
  lemma PlainIdle(b: OB.Book, op: OB.Op)
    requires OB.Positive(b.orders) && !TakesEffect(b.orders, op) && (op.OpReplace? ==> op.id !in b.orders)
    ensures OB.Step(b, op) == b.(lastTs := OB.Step(b, op).lastTs)
  {
    if op.id in b.orders {
      assert b.orders[op.id := b.orders[op.id]] == b.orders;
    }
  }

  lemma StepIdleExact(b: OB.Book, op: OB.Op)
    requires OB.Positive(b.orders)
    ensures OB.Step(b, op) == b <==> IdleOn(b, op)
  {
    OB.OrdersTrackNaive(b, op);
    EffectExact(b.orders, op);
    if !TakesEffect(b.orders, op) {
      if op.OpReplace? && op.id in b.orders {
        ReplaceIdleExact(b, op);
      } else {
        IdleStamp(b, op);
        PlainIdle(b, op);
      }
    }
  }

  // ---- The whole state ----------------------------------------------------

  /** What makes a message leave the whole state as it is: it is no book message; or an id-only message that reaches no
      order, or a reduction by nothing or a replacement by itself under the order's and the book's own timestamp, the
      latter on a level that comes back the same; or an add of a known symbol that the book ignores and whose route is
      already there. */
  ghost predicate Idle(d: Depth, m: Message)
    requires Wf(d)
  {
    match CommandOf(m)
    case Nothing => true
    case ById(op) => Reaches(d, op.id) ==> IdleOn(d.books[d.routes[op.id]], op)
    case Enter(symbol, op) =>
      var k := KeyOf(symbol);
      k in d.books && op.id in d.routes && d.routes[op.id] == k && (op.qty == 0 || op.id in d.books[k].orders)
  }

  /** apply leaves the whole state of books, index and routes as it was if and only if the message is idle; so a report
      of true that is no state change is exactly an idle message with a target. */
  lemma StateChangeExact(d: Depth, m: Message)
    requires Wf(d) && AllPositive(d)
    ensures Apply(d, m).0 == d <==> Idle(d, m)
    ensures Apply(d, m) == (d, true) <==> Idle(d, m) && Target(d, m).Some?
  {
    ApplyLocal(d, m);
    match CommandOf(m)
    case Nothing =>
    case Enter(symbol, op) => EnterIdleExact(d, symbol, op);
    case ById(op) =>
      if Reaches(d, op.id) {
        ActIdleExact(d, d.routes[op.id], op);
      }
  }

  lemma ActParts(d: Depth, k: SymbolKey, op: OB.Op, b: OB.Book)
    requires Wf(d) && k in d.books && b == OB.Step(d.books[k], op)
    ensures ActOn(d, k, op) == d.(books := d.books[k := b], routes := Reroute(d.routes, op, k, b))
  {
  }

  lemma SameRoutes(routes: map<nat, SymbolKey>, op: OB.Op, k: SymbolKey, b: OB.Book)
    requires op.id in routes && routes[op.id] == k && op.id in b.orders
    requires op.OpReduce? || (op.OpReplace? && op.newId == op.id)
    ensures Reroute(routes, op, k, b) == routes
  {
  }

  lemma ActIdleExact(d: Depth, k: SymbolKey, op: OB.Op)
    requires Wf(d) && AllPositive(d) && (op.OpReduce? || op.OpDelete? || op.OpReplace?)
    requires op.id in d.routes && d.routes[op.id] == k && op.id in d.books[k].orders
    ensures ActOn(d, k, op) == d <==> IdleOn(d.books[k], op)
  {
    var b, c := d.books[k], OB.Step(d.books[k], op);
    StepIdleExact(b, op);
    ActParts(d, k, op, c);
    if IdleOn(b, op) {
      SameRoutes(d.routes, op, k, b);
      assert d.books[k := b] == d.books;
    } else {
      assert d.books[k := c][k] != d.books[k];
    }
  }

  lemma EnterIdleExact(d: Depth, symbol: Symbol, op: OB.Op)
    requires Wf(d) && op.OpAdd?
    ensures var k := KeyOf(symbol);
            ActOn(WithBook(d, symbol), k, op) == d <==>
            k in d.books && op.id in d.routes && d.routes[op.id] == k && (op.qty == 0 || op.id in d.books[k].orders)
  {
    var k := KeyOf(symbol);
    var d' := ActOn(WithBook(d, symbol), k, op);
    if k in d.books && (op.qty == 0 || op.id in d.books[k].orders) {
      assert d.books[k := d.books[k]] == d.books;
      if op.id in d.routes && d.routes[op.id] == k {
        assert d.routes[op.id := k] == d.routes;
      }
    } else if k in d.books {
      assert op.id in d'.books[k].orders;
    }
  }

  /** A zero-share add of a new symbol is ignored by its book, reported, and still adds the symbol and a route. */
  lemma ZeroShareAddChanges(depth: nat, symbol: Symbol)
    ensures var m := Message(1, 0, 0, AddOrder(NewOrder(7, BUY, 0, symbol, 5000)));
            var k, d := KeyOf(symbol), Fresh(depth);
            && !TakesEffect(BookAt(d, k).orders, CommandOf(m).op) && Apply(d, m).1
            && Apply(d, m).0.books == map[k := OB.Empty(depth)] && Apply(d, m).0.routes == map[7 := k]
  {
    ApplyLocal(Fresh(depth), Message(1, 0, 0, AddOrder(NewOrder(7, BUY, 0, symbol, 5000))));
  }
}
