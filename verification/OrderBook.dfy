/** One symbol's order book as a value: what each operation does to the order map, the two price ladders and the
    two top-of-book lists, and why the ladders always say what the orders say. */
module OrderBook {
  import opened Bytes
  import opened Itch
  import opened Ladder
  import opened MapTotals

  datatype Order = Order(side: byte, price: Price, qty: Quantity, ts: u64)

  type Orders = map<nat, Order>

  datatype Book = Book(depth: nat, orders: Orders, bids: Levels, asks: Levels,
                       topBids: seq<Level>, topAsks: seq<Level>, lastTs: u64)

  function Empty(depth: nat): Book {
    Book(depth, map[], map[], map[], [], [], 0)
  }

  // ---- What the code does -------------------------------------------------

  /** A signed change of one price level. Totals and counts are stored in 32 bits. */
  function Delta(levels: Levels, price: Price, qty: int, count: int): Levels {
    if price !in levels then
      if qty <= 0 then levels else levels[price := Level(price, qty % TWO32, count % TWO32)]
    else
      var nq, nc := levels[price].total + qty, levels[price].count + count;
      if nq <= 0 || nc <= 0 then levels - {price}
      else levels[price := Level(levels[price].price, nq % TWO32, nc % TWO32)]
  }

  /** apply_level_delta: change the level on the order's side, then refresh that side's top list. */
  ghost function ApplyDelta(b: Book, side: byte, price: Price, qty: int, count: int): Book {
    var levels := if side == BUY then b.bids else b.asks;
    if price !in levels && qty <= 0 then b
    else
      var levels' := Delta(levels, price, qty, count);
      if side == BUY then b.(bids := levels', topBids := Top(levels', true, b.depth))
      else b.(asks := levels', topAsks := Top(levels', false, b.depth))
  }

  ghost function Add(b: Book, id: nat, side: byte, price: Price, qty: Quantity, ts: u64): Book {
    if qty == 0 || id in b.orders then b
    else
      ApplyDelta(b.(orders := b.orders[id := Order(side, price, qty, ts)], lastTs := ts), side, price, qty, 1)
  }

  ghost function Modify(b: Book, id: nat, newQty: Quantity, ts: u64): Book {
    if id !in b.orders then b
    else
      var o := b.orders[id];
      if newQty == o.qty then b.(orders := b.orders[id := o.(ts := ts)], lastTs := ts)
      else if newQty == 0 then
        ApplyDelta(b.(orders := b.orders - {id}), o.side, o.price, 0 - o.qty, -1).(lastTs := ts)
      else
        ApplyDelta(b.(orders := b.orders[id := o.(qty := newQty, ts := ts)]), o.side, o.price, newQty - o.qty, 0)
        .(lastTs := ts)
  }

  /** A reduction by more than the order holds empties it. */
  function Reduced(qty: Quantity, delta: Quantity): Quantity {
    if delta >= qty then 0 else qty - delta
  }

  ghost function Reduce(b: Book, id: nat, delta: Quantity, ts: u64): Book {
    if id !in b.orders then b else Modify(b, id, Reduced(b.orders[id].qty, delta), ts)
  }

  ghost function Remove(b: Book, id: nat, ts: u64): Book {
    if id !in b.orders then b
    else
      var o := b.orders[id];
      ApplyDelta(b.(orders := b.orders - {id}), o.side, o.price, 0 - o.qty, -1).(lastTs := ts)
  }

  ghost function Swap(b: Book, oldId: nat, newId: nat, price: Price, qty: Quantity, ts: u64): Book {
    if oldId !in b.orders then b
    else Add(Remove(b, oldId, ts), newId, b.orders[oldId].side, price, qty, ts)
  }

  datatype Op =
    | OpAdd(id: nat, side: byte, price: Price, qty: Quantity, ts: u64)
    | OpModify(id: nat, qty: Quantity, ts: u64)
    | OpReduce(id: nat, qty: Quantity, ts: u64)
    | OpDelete(id: nat, ts: u64)
    | OpReplace(id: nat, newId: nat, price: Price, qty: Quantity, ts: u64)

  ghost function Step(b: Book, op: Op): Book {
    match op
    case OpAdd(id, side, price, qty, ts) => Add(b, id, side, price, qty, ts)
    case OpModify(id, qty, ts) => Modify(b, id, qty, ts)
    case OpReduce(id, qty, ts) => Reduce(b, id, qty, ts)
    case OpDelete(id, ts) => Remove(b, id, ts)
    case OpReplace(id, newId, price, qty, ts) => Swap(b, id, newId, price, qty, ts)
  }

  ghost function Run(b: Book, ops: seq<Op>): Book {
    if ops == [] then b else Step(Run(b, ops[..|ops| - 1]), ops[|ops| - 1])
  }

  // ---- What it is meant to do: a plain map of live orders -----------------

  function NaiveAdd(orders: Orders, id: nat, o: Order): Orders {
    if o.qty == 0 || id in orders then orders else orders[id := o]
  }

  function NaiveSet(orders: Orders, id: nat, qty: Quantity, ts: u64): Orders {
    if id !in orders then orders
    else if qty == 0 then orders - {id}
    else orders[id := orders[id].(qty := qty, ts := ts)]
  }

  function NaiveStep(orders: Orders, op: Op): Orders {
    match op
    case OpAdd(id, side, price, qty, ts) => NaiveAdd(orders, id, Order(side, price, qty, ts))
    case OpModify(id, qty, ts) => NaiveSet(orders, id, qty, ts)
    case OpReduce(id, qty, ts) =>
      if id !in orders then orders else NaiveSet(orders, id, Reduced(orders[id].qty, qty), ts)
    case OpDelete(id, ts) => orders - {id}
    case OpReplace(id, newId, price, qty, ts) =>
      if id !in orders then orders else NaiveAdd(orders - {id}, newId, Order(orders[id].side, price, qty, ts))
  }

  function NaiveRun(orders: Orders, ops: seq<Op>): Orders {
    if ops == [] then orders else NaiveStep(NaiveRun(orders, ops[..|ops| - 1]), ops[|ops| - 1])
  }

  ghost function QtyAt(buy: bool, p: Price): Order -> nat {
    (o: Order) => if (o.side == BUY) == buy && o.price == p then o.qty else 0
  }

  ghost function CountAt(buy: bool, p: Price): Order -> nat {
    (o: Order) => if (o.side == BUY) == buy && o.price == p then 1 else 0
  }

  /** Shares resting at a price, and the number of orders they belong to: recomputed from scratch. */
  ghost function Qty(orders: Orders, buy: bool, p: Price): nat {
    Total(orders, QtyAt(buy, p))
  }

  ghost function Count(orders: Orders, buy: bool, p: Price): nat {
    Total(orders, CountAt(buy, p))
  }

  ghost predicate Positive(orders: Orders) {
    forall id :: id in orders ==> orders[id].qty > 0
  }

  /** No level holds 2^32 shares or more. */
  ghost predicate Fits(orders: Orders) {
    forall buy, p: Price :: Qty(orders, buy, p) < TWO32
  }

  /** The ladder has a level at p exactly when orders rest there, with their sum and number. */
  ghost predicate LevelIs(levels: Levels, p: Price, qty: nat, count: nat) {
    && (p in levels <==> count > 0)
    && (p in levels ==> levels[p].price == p && levels[p].total == qty && levels[p].count == count)
  }

  /** The ladder of one side holds exactly the prices with a live order, with their sums and counts. */
  ghost predicate SideRefines(levels: Levels, orders: Orders, buy: bool) {
    forall p: Price :: LevelIs(levels, p, Qty(orders, buy, p), Count(orders, buy, p))
  }

  /** All three representations agree. */
  ghost predicate Refines(b: Book) {
    && Positive(b.orders)
    && SideRefines(b.bids, b.orders, true) && SideRefines(b.asks, b.orders, false)
    && b.topBids == Top(b.bids, true, b.depth) && b.topAsks == Top(b.asks, false, b.depth)
  }

  // ---- Counting lemmas ----------------------------------------------------

  lemma CountAtMostQty(orders: Orders, buy: bool, p: Price)
    requires Positive(orders)
    ensures Count(orders, buy, p) <= Qty(orders, buy, p)
    ensures Count(orders, buy, p) == 0 <==> Qty(orders, buy, p) == 0
    ensures Count(orders, buy, p) > 0 <==>
            exists id :: id in orders && (orders[id].side == BUY) == buy && orders[id].price == p
  {
    TotalMono(orders, CountAt(buy, p), QtyAt(buy, p));
    TotalPositive(orders, CountAt(buy, p));
    TotalPositive(orders, QtyAt(buy, p));
    if k :| k in orders && QtyAt(buy, p)(orders[k]) > 0 {
      assert CountAt(buy, p)(orders[k]) > 0;
    }
    if k :| k in orders && CountAt(buy, p)(orders[k]) > 0 {
      assert (orders[k].side == BUY) == buy && orders[k].price == p;
    }
    if k :| k in orders && (orders[k].side == BUY) == buy && orders[k].price == p {
      assert CountAt(buy, p)(orders[k]) > 0;
    }
  }

  lemma Inserted(orders: Orders, id: nat, o: Order, buy: bool, p: Price)
    requires id !in orders
    ensures Qty(orders[id := o], buy, p) == Qty(orders, buy, p) + QtyAt(buy, p)(o)
    ensures Count(orders[id := o], buy, p) == Count(orders, buy, p) + CountAt(buy, p)(o)
  {
    TotalInsert(orders, id, o, QtyAt(buy, p));
    TotalInsert(orders, id, o, CountAt(buy, p));
  }

  lemma Removed(orders: Orders, id: nat, buy: bool, p: Price)
    requires id in orders
    ensures Qty(orders, buy, p) == Qty(orders - {id}, buy, p) + QtyAt(buy, p)(orders[id])
    ensures Count(orders, buy, p) == Count(orders - {id}, buy, p) + CountAt(buy, p)(orders[id])
  {
    TotalRemove(orders, id, QtyAt(buy, p));
    TotalRemove(orders, id, CountAt(buy, p));
  }

  lemma Updated(orders: Orders, id: nat, o: Order, buy: bool, p: Price)
    requires id in orders
    ensures Qty(orders[id := o], buy, p) + QtyAt(buy, p)(orders[id]) == Qty(orders, buy, p) + QtyAt(buy, p)(o)
    ensures Count(orders[id := o], buy, p) + CountAt(buy, p)(orders[id]) ==
            Count(orders, buy, p) + CountAt(buy, p)(o)
  {
    TotalUpdate(orders, id, o, QtyAt(buy, p));
    TotalUpdate(orders, id, o, CountAt(buy, p));
  }

  // ---- One level change keeps the ladder in step --------------------------

  lemma DeltaHere(levels: Levels, p: Price, qty: nat, count: nat, dq: int, dc: int)
    requires LevelIs(levels, p, qty, count)
    requires 0 <= count + dc <= qty + dq < TWO32 && (count + dc == 0 <==> qty + dq == 0)
    requires count == 0 ==> qty == 0
    ensures LevelIs(Delta(levels, p, dq, dc), p, qty + dq, count + dc)
  {
  }

  lemma DeltaElsewhere(levels: Levels, p: Price, q: Price, qty: nat, count: nat, dq: int, dc: int)
    requires LevelIs(levels, q, qty, count) && p != q
    ensures LevelIs(Delta(levels, p, dq, dc), q, qty, count)
  {
  }

  /** The side an order does not rest on is not touched; the other moves by the given amounts at its price. */
  ghost function SideDelta(levels: Levels, o: Order, buy: bool, dq: int, dc: int): Levels {
    if (o.side == BUY) == buy then Delta(levels, o.price, dq, dc) else levels
  }

  lemma DeltaRefines(levels: Levels, orders: Orders, orders': Orders, o: Order, buy: bool, dq: int, dc: int)
    requires Positive(orders) && Positive(orders') && SideRefines(levels, orders, buy)
    requires (o.side == BUY) == buy ==> Qty(orders', buy, o.price) < TWO32
    requires forall p: Price :: (o.side == BUY) == buy && p == o.price ==>
               Qty(orders', buy, p) == Qty(orders, buy, p) + dq && Count(orders', buy, p) == Count(orders, buy, p) + dc
    requires forall p: Price :: !((o.side == BUY) == buy && p == o.price) ==>
               Qty(orders', buy, p) == Qty(orders, buy, p) && Count(orders', buy, p) == Count(orders, buy, p)
    ensures SideRefines(SideDelta(levels, o, buy, dq, dc), orders', buy)
  {
    forall p: Price
      ensures LevelIs(SideDelta(levels, o, buy, dq, dc), p, Qty(orders', buy, p), Count(orders', buy, p))
    {
      assert LevelIs(levels, p, Qty(orders, buy, p), Count(orders, buy, p));
      CountAtMostQty(orders, buy, p);
      CountAtMostQty(orders', buy, p);
      if (o.side == BUY) == buy {
        if p == o.price {
          DeltaHere(levels, p, Qty(orders, buy, p), Count(orders, buy, p), dq, dc);
        } else {
          DeltaElsewhere(levels, o.price, p, Qty(orders, buy, p), Count(orders, buy, p), dq, dc);
        }
      }
    }
  }

  lemma InsertRefines(levels: Levels, orders: Orders, id: nat, o: Order, buy: bool)
    requires Positive(orders) && SideRefines(levels, orders, buy)
    requires id !in orders && o.qty > 0 && Qty(orders[id := o], buy, o.price) < TWO32
    ensures SideRefines(SideDelta(levels, o, buy, o.qty, 1), orders[id := o], buy)
  {
    forall p: Price
      ensures Qty(orders[id := o], buy, p) == Qty(orders, buy, p) + QtyAt(buy, p)(o)
      ensures Count(orders[id := o], buy, p) == Count(orders, buy, p) + CountAt(buy, p)(o)
    {
      Inserted(orders, id, o, buy, p);
    }
    DeltaRefines(levels, orders, orders[id := o], o, buy, o.qty, 1);
  }

  lemma RemoveRefines(levels: Levels, orders: Orders, id: nat, buy: bool)
    requires Positive(orders) && SideRefines(levels, orders, buy) && id in orders
    ensures SideRefines(SideDelta(levels, orders[id], buy, 0 - orders[id].qty, -1), orders - {id}, buy)
  {
    var o := orders[id];
    forall p: Price
      ensures Qty(orders, buy, p) == Qty(orders - {id}, buy, p) + QtyAt(buy, p)(o)
      ensures Count(orders, buy, p) == Count(orders - {id}, buy, p) + CountAt(buy, p)(o)
    {
      Removed(orders, id, buy, p);
    }
    SideFits(levels, orders, buy, o.price);
    DeltaRefines(levels, orders, orders - {id}, o, buy, 0 - o.qty, -1);
  }

  lemma SideFits(levels: Levels, orders: Orders, buy: bool, p: Price)
    requires Positive(orders) && SideRefines(levels, orders, buy)
    ensures Qty(orders, buy, p) < TWO32
  {
    assert LevelIs(levels, p, Qty(orders, buy, p), Count(orders, buy, p));
    CountAtMostQty(orders, buy, p);
  }

  lemma UpdateRefines(levels: Levels, orders: Orders, id: nat, o': Order, buy: bool)
    requires Positive(orders) && SideRefines(levels, orders, buy) && id in orders && o'.qty > 0
    requires o'.side == orders[id].side && o'.price == orders[id].price
    requires Qty(orders[id := o'], buy, o'.price) < TWO32
    ensures SideRefines(SideDelta(levels, o', buy, o'.qty - orders[id].qty, 0), orders[id := o'], buy)
  {
    var o := orders[id];
    forall p: Price
      ensures Qty(orders[id := o'], buy, p) + QtyAt(buy, p)(o) == Qty(orders, buy, p) + QtyAt(buy, p)(o')
      ensures Count(orders[id := o'], buy, p) + CountAt(buy, p)(o) == Count(orders, buy, p) + CountAt(buy, p)(o')
    {
      Updated(orders, id, o', buy, p);
    }
    DeltaRefines(levels, orders, orders[id := o'], o', buy, o'.qty - o.qty, 0);
  }

  // ---- Every operation ----------------------------------------------------

  lemma ModifyTracksNaive(b: Book, id: nat, qty: Quantity, ts: u64)
    requires Positive(b.orders)
    ensures Modify(b, id, qty, ts).orders == NaiveSet(b.orders, id, qty, ts)
    ensures Modify(b, id, qty, ts).depth == b.depth
  {
    if id in b.orders && qty == b.orders[id].qty {
      assert b.orders[id].(qty := qty, ts := ts) == b.orders[id].(ts := ts);
    }
  }

  lemma RemoveTracksNaive(b: Book, id: nat, ts: u64)
    ensures Remove(b, id, ts).orders == b.orders - {id} && Remove(b, id, ts).depth == b.depth
  {
    if id !in b.orders {
      assert b.orders - {id} == b.orders;
    }
  }

  /** The order map evolves as the plain map does, whatever the ladders hold. */
  lemma OrdersTrackNaive(b: Book, op: Op)
    requires Positive(b.orders)
    ensures Step(b, op).orders == NaiveStep(b.orders, op) && Positive(NaiveStep(b.orders, op))
    ensures Step(b, op).depth == b.depth
  {
    match op
    case OpAdd(_, _, _, _, _) =>
    case OpModify(id, qty, ts) => ModifyTracksNaive(b, id, qty, ts);
    case OpReduce(id, qty, ts) =>
      if id in b.orders {
        ModifyTracksNaive(b, id, Reduced(b.orders[id].qty, qty), ts);
      }
    case OpDelete(id, ts) => RemoveTracksNaive(b, id, ts);
    case OpReplace(id, newId, price, qty, ts) => RemoveTracksNaive(b, id, ts);
  }

  /** modify_order sets quantity and timestamp of a live order and takes it out at quantity zero; side and price
      stay. */
  lemma ModifyExact(b: Book, id: nat, qty: Quantity, ts: u64)
    requires Positive(b.orders)
    ensures var b' := Modify(b, id, qty, ts);
            if id !in b.orders then b' == b
            else
              var o := b.orders[id];
              && b'.lastTs == ts
              && b'.orders == if qty == 0 then b.orders - {id} else b.orders[id := Order(o.side, o.price, qty, ts)]
  {
    ModifyTracksNaive(b, id, qty, ts);
  }

  lemma AddRefines(b: Book, id: nat, side: byte, price: Price, qty: Quantity, ts: u64)
    requires Refines(b) && Fits(NaiveAdd(b.orders, id, Order(side, price, qty, ts)))
    ensures Refines(Add(b, id, side, price, qty, ts))
  {
    if qty != 0 && id !in b.orders {
      var o := Order(side, price, qty, ts);
      InsertRefines(b.bids, b.orders, id, o, true);
      InsertRefines(b.asks, b.orders, id, o, false);
    }
  }

  lemma RestingLevel(b: Book, id: nat)
    requires Refines(b) && id in b.orders
    ensures b.orders[id].price in if b.orders[id].side == BUY then b.bids else b.asks
  {
    var o := b.orders[id];
    var buy := o.side == BUY;
    assert LevelIs(if buy then b.bids else b.asks, o.price, Qty(b.orders, buy, o.price), Count(b.orders, buy, o.price));
    CountAtMostQty(b.orders, buy, o.price);
  }

  lemma RemoveKeepsRefines(b: Book, id: nat, ts: u64)
    requires Refines(b)
    ensures Refines(Remove(b, id, ts)) && Fits(Remove(b, id, ts).orders)
  {
    if id in b.orders {
      RemoveRefines(b.bids, b.orders, id, true);
      RemoveRefines(b.asks, b.orders, id, false);
      RestingLevel(b, id);
    }
    RefinesFits(Remove(b, id, ts));
  }

  /** Totals are stored in 32 bits, so a book in step with its orders has no level of 2^32 shares. */
  lemma RefinesFits(b: Book)
    requires Refines(b)
    ensures Fits(b.orders)
  {
    forall buy, p: Price
      ensures Qty(b.orders, buy, p) < TWO32
    {
      SideFits(if buy then b.bids else b.asks, b.orders, buy, p);
    }
  }

  lemma ModifyRefines(b: Book, id: nat, qty: Quantity, ts: u64)
    requires Refines(b) && Fits(NaiveSet(b.orders, id, qty, ts))
    ensures Refines(Modify(b, id, qty, ts))
  {
    if id in b.orders {
      var o := b.orders[id];
      var o' := o.(qty := qty, ts := ts);
      if qty == 0 {
        RemoveKeepsRefines(b, id, ts);
      } else {
        UpdateRefines(b.bids, b.orders, id, o', true);
        UpdateRefines(b.asks, b.orders, id, o', false);
        if qty == o.qty {
          RefreshRefines(b, id, o');
        }
      }
    }
  }

  /** A change of timestamp alone leaves both ladders as they are. */
  lemma RefreshRefines(b: Book, id: nat, o': Order)
    requires Refines(b) && id in b.orders && o' == b.orders[id].(ts := o'.ts)
    ensures SideRefines(b.bids, b.orders[id := o'], true) && SideRefines(b.asks, b.orders[id := o'], false)
  {
    forall buy, p: Price
      ensures Qty(b.orders[id := o'], buy, p) == Qty(b.orders, buy, p)
      ensures Count(b.orders[id := o'], buy, p) == Count(b.orders, buy, p)
    {
      Updated(b.orders, id, o', buy, p);
    }
    SameTotals(b.bids, b.orders, b.orders[id := o'], true);
    SameTotals(b.asks, b.orders, b.orders[id := o'], false);
  }

  lemma SameTotals(levels: Levels, orders: Orders, orders': Orders, buy: bool)
    requires SideRefines(levels, orders, buy)
    requires forall p: Price ::
               Qty(orders', buy, p) == Qty(orders, buy, p) && Count(orders', buy, p) == Count(orders, buy, p)
    ensures SideRefines(levels, orders', buy)
  {
    forall p: Price
      ensures LevelIs(levels, p, Qty(orders', buy, p), Count(orders', buy, p))
    {
      assert LevelIs(levels, p, Qty(orders, buy, p), Count(orders, buy, p));
    }
  }

  lemma StepRefines(b: Book, op: Op)
    requires Refines(b) && Fits(NaiveStep(b.orders, op))
    ensures Refines(Step(b, op))
  {
    match op
    case OpAdd(id, side, price, qty, ts) => AddRefines(b, id, side, price, qty, ts);
    case OpModify(id, qty, ts) => ModifyRefines(b, id, qty, ts);
    case OpReduce(id, qty, ts) =>
      if id in b.orders {
        ModifyRefines(b, id, Reduced(b.orders[id].qty, qty), ts);
      }
    case OpDelete(id, ts) => RemoveKeepsRefines(b, id, ts);
    case OpReplace(id, newId, price, qty, ts) =>
      if id in b.orders {
        RemoveKeepsRefines(b, id, ts);
        AddRefines(Remove(b, id, ts), newId, b.orders[id].side, price, qty, ts);
      }
  }

  /** The order map of every run is that of the plain map. */
  lemma {:induction false} RunTracksNaive(b: Book, ops: seq<Op>)
    requires Positive(b.orders)
    ensures Run(b, ops).orders == NaiveRun(b.orders, ops) && Positive(Run(b, ops).orders)
    ensures Run(b, ops).depth == b.depth
  {
    if ops != [] {
      RunTracksNaive(b, ops[..|ops| - 1]);
      OrdersTrackNaive(Run(b, ops[..|ops| - 1]), ops[|ops| - 1]);
    }
  }

  lemma {:induction false} RunRefines(b: Book, ops: seq<Op>)
    requires Refines(b) && forall i :: 0 <= i <= |ops| ==> Fits(NaiveRun(b.orders, ops[..i]))
    ensures Refines(Run(b, ops))
  {
    if ops != [] {
      var init := ops[..|ops| - 1];
      forall i | 0 <= i <= |init|
        ensures Fits(NaiveRun(b.orders, init[..i]))
      {
        assert init[..i] == ops[..i];
      }
      RunRefines(b, init);
      RunTracksNaive(b, init);
      assert ops[..|ops|] == ops;
      StepRefines(Run(b, init), ops[|ops| - 1]);
    }
  }

  /** The ladders and top lists agree with the live orders at every point of a run if and only if no level ever
      reaches 2^32 shares on the way. */
  lemma RefinementExact(b: Book, ops: seq<Op>)
    requires Refines(b)
    ensures (forall i :: 0 <= i <= |ops| ==> Refines(Run(b, ops[..i]))) <==>
            (forall i :: 0 <= i <= |ops| ==> Fits(NaiveRun(b.orders, ops[..i])))
  {
    if forall i :: 0 <= i <= |ops| ==> Refines(Run(b, ops[..i])) {
      forall i | 0 <= i <= |ops|
        ensures Fits(NaiveRun(b.orders, ops[..i]))
      {
        RunTracksNaive(b, ops[..i]);
        RefinesFits(Run(b, ops[..i]));
      }
    }
    if forall i :: 0 <= i <= |ops| ==> Fits(NaiveRun(b.orders, ops[..i])) {
      forall i | 0 <= i <= |ops|
        ensures Refines(Run(b, ops[..i]))
      {
        forall j | 0 <= j <= i
          ensures Fits(NaiveRun(b.orders, ops[..i][..j]))
        {
          assert ops[..i][..j] == ops[..j];
        }
        RunRefines(b, ops[..i]);
      }
    }
  }

  lemma EmptyRefines(depth: nat)
    ensures Refines(Empty(depth))
  {
    forall buy, p: Price
      ensures Qty(map[], buy, p) == 0 && Count(map[], buy, p) == 0
    {
    }
  }

  // ---- What the representations promise to a reader of the book -----------

  /** invariants_ok. */
  ghost predicate InvariantsOk(b: Book) {
    && |b.topBids| <= b.depth && |b.topAsks| <= b.depth
    && Stepwise(b.topBids, true) && Stepwise(b.topAsks, false)
    && Nonzero(b.topBids) && Nonzero(b.topAsks)
  }

  ghost predicate Stepwise(s: seq<Level>, desc: bool) {
    forall i :: 1 <= i < |s| ==> Before(desc, s[i - 1].price, s[i].price)
  }

  ghost predicate Nonzero(s: seq<Level>) {
    forall i :: 0 <= i < |s| ==> s[i].count != 0 && s[i].total != 0
  }

  /** A level a snapshot can be rebuilt from: at least one order, and at least one share per order. */
  predicate Sound(l: Level) {
    1 <= l.count <= l.total
  }

  lemma SideSound(levels: Levels, orders: Orders, buy: bool, depth: nat)
    requires Positive(orders) && SideRefines(levels, orders, buy)
    ensures Keyed(levels) && Sorted(Top(levels, buy, depth), buy) && |Top(levels, buy, depth)| <= depth
    ensures forall i :: 0 <= i < |Top(levels, buy, depth)| ==> Sound(Top(levels, buy, depth)[i])
  {
    forall p | p in levels
      ensures levels[p].price == p && Sound(levels[p])
    {
      assert LevelIs(levels, p, Qty(orders, buy, p), Count(orders, buy, p));
      CountAtMostQty(orders, buy, p);
    }
    TopSound(levels, buy, depth);
  }

  /** Every visible level of a book in step has 1 <= order count <= total, in strict price order. */
  lemma TopsSound(b: Book)
    requires Refines(b)
    ensures Sorted(b.topBids, true) && Sorted(b.topAsks, false) && |b.topBids| <= b.depth && |b.topAsks| <= b.depth
    ensures forall i :: 0 <= i < |b.topBids| ==> Sound(b.topBids[i])
    ensures forall i :: 0 <= i < |b.topAsks| ==> Sound(b.topAsks[i])
    ensures InvariantsOk(b)
  {
    SideSound(b.bids, b.orders, true, b.depth);
    SideSound(b.asks, b.orders, false, b.depth);
  }

  /** A level that reaches 2^32 shares breaks the book: two orders of 2^31 shares at one price leave a visible
      level with total 0, and the book fails its own invariant check. */
  lemma OverflowBreaks()
    ensures var half := 0x8000_0000;
            var b := Run(Empty(10), [OpAdd(1, BUY, 100, half, 0), OpAdd(2, BUY, 100, half, 0)]);
            b.topBids == [Level(100, 0, 2)] && !InvariantsOk(b) && !Refines(b)
  {
    var half: Quantity := 0x8000_0000;
    var first, second := OpAdd(1, BUY, 100, half, 0), OpAdd(2, BUY, 100, half, 0);
    var ops := [first, second];
    assert ops[..1] == [first] && ops[..1][..0] == [];
    var b1 := Step(Empty(10), first);
    assert Run(Empty(10), [first]) == b1 by {
      assert [first][..0] == [];
    }
    var b := Step(b1, second);
    assert Run(Empty(10), ops) == b;
    assert b.bids == map[100 := Level(100, 0, 2)];
    assert IsBest(100, b.bids, true);
    RankedUnfold(b.bids, true, 100);
    assert (b.bids - {100}).Keys == {};
    assert b.topBids[0].total == 0;
    if Refines(b) {
      TopsSound(b);
    }
  }
}
