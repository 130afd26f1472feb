/** Properties of every run of the multi-symbol book: routing, refinement and conservation of shares. */
module RoutingRuns {
  import opened Itch
  import opened Ladder
  import opened MapTotals
  import OB = OrderBook
  import opened Routing

  // ---- Routing over runs --------------------------------------------------

  lemma {:induction false} PositiveRun(d: Depth, ms: seq<Message>)
    requires Wf(d) && AllPositive(d)
    ensures AllPositive(Run(d, ms)) && Run(d, ms).depth == d.depth
  {
    if ms != [] {
      PositiveRun(d, ms[..|ms| - 1]);
      PositiveKept(Run(d, ms[..|ms| - 1]), ms[|ms| - 1]);
      ApplyLocal(Run(d, ms[..|ms| - 1]), ms[|ms| - 1]);
    }
  }

  ghost predicate ExclusiveRun(d: Depth, ms: seq<Message>)
    requires Wf(d)
  {
    forall i :: 0 <= i < |ms| ==> Exclusive(Run(d, ms[..i]), ms[i])
  }

  lemma {:induction false} ExclusiveKeepsRouted(d: Depth, ms: seq<Message>)
    requires Wf(d) && AllPositive(d) && Routed(d) && ExclusiveRun(d, ms)
    ensures Routed(Run(d, ms))
  {
    if ms != [] {
      var init := ms[..|ms| - 1];
      assert forall i :: 0 <= i < |init| ==> init[..i] == ms[..i];
      ExclusiveKeepsRouted(d, init);
      PositiveRun(d, init);
      RoutedExact(Run(d, init), ms[|ms| - 1]);
    }
  }

  /** Every live order stays routed to the one book that holds it, at every point of a run, if and only if no
      message brings in an id that is live under another symbol. */
  lemma RoutingExact(d: Depth, ms: seq<Message>)
    requires Wf(d) && AllPositive(d) && Routed(d)
    ensures (forall i :: 0 <= i <= |ms| ==> Routed(Run(d, ms[..i]))) <==> ExclusiveRun(d, ms)
  {
    if forall i :: 0 <= i <= |ms| ==> Routed(Run(d, ms[..i])) {
      forall i | 0 <= i < |ms|
        ensures Exclusive(Run(d, ms[..i]), ms[i])
      {
        RoutedNeedsExclusive(d, ms, i);
      }
    }
    if ExclusiveRun(d, ms) {
      forall i | 0 <= i <= |ms|
        ensures Routed(Run(d, ms[..i]))
      {
        ExclusivePrefix(d, ms, i);
        ExclusiveKeepsRouted(d, ms[..i]);
      }
    }
  }

  lemma ExclusivePrefix(d: Depth, ms: seq<Message>, i: nat)
    requires Wf(d) && ExclusiveRun(d, ms) && i <= |ms|
    ensures ExclusiveRun(d, ms[..i])
  {
    forall j | 0 <= j < i
      ensures Exclusive(Run(d, ms[..i][..j]), ms[..i][j])
    {
      assert ms[..i][..j] == ms[..j];
    }
  }

  lemma RunNext(d: Depth, ms: seq<Message>, i: nat)
    requires Wf(d) && i < |ms|
    ensures Run(d, ms[..i + 1]) == Apply(Run(d, ms[..i]), ms[i]).0
  {
    assert ms[..i + 1][..i] == ms[..i];
  }

  lemma RoutedNeedsExclusive(d: Depth, ms: seq<Message>, i: nat)
    requires Wf(d) && AllPositive(d) && i < |ms|
    requires Routed(Run(d, ms[..i])) && Routed(Run(d, ms[..i + 1]))
    ensures Exclusive(Run(d, ms[..i]), ms[i])
  {
    PositiveRun(d, ms[..i]);
    RunNext(d, ms, i);
    RoutedExact(Run(d, ms[..i]), ms[i]);
  }

  /** The order ids that messages bring in. */
  function Brought(m: Message): set<nat> {
    match CommandOf(m)
    case Enter(_, op) => {op.id}
    case ById(op) => if op.OpReplace? then {op.newId} else {}
    case Nothing => {}
  }

  function BroughtBy(ms: seq<Message>): set<nat> {
    if ms == [] then {} else BroughtBy(ms[..|ms| - 1]) + Brought(ms[|ms| - 1])
  }

  ghost predicate NeverReused(ms: seq<Message>) {
    forall i :: 0 <= i < |ms| ==> Brought(ms[i]) !! BroughtBy(ms[..i])
  }

  ghost predicate LiveWithin(d: Depth, ids: set<nat>) {
    forall k, id :: k in d.books && id in d.books[k].orders ==> id in ids
  }

  lemma {:induction false} LiveWereBrought(depth: nat, ms: seq<Message>)
    ensures LiveWithin(Run(Fresh(depth), ms), BroughtBy(ms))
  {
    if ms != [] {
      var init, m := ms[..|ms| - 1], ms[|ms| - 1];
      LiveWereBrought(depth, init);
      PositiveRun(Fresh(depth), init);
      BroughtStep(Run(Fresh(depth), init), m, BroughtBy(init));
    }
  }

  lemma BroughtStep(d: Depth, m: Message, ids: set<nat>)
    requires Wf(d) && AllPositive(d) && LiveWithin(d, ids)
    ensures LiveWithin(Apply(d, m).0, ids + Brought(m))
  {
    ApplyLocal(d, m);
    if Target(d, m).Some? {
      var k, op := Target(d, m).value, CommandOf(m).op;
      var b := OB.Step(BookAt(d, k), op);
      StepIds(BookAt(d, k), op);
      BroughtWithin(d, Apply(d, m).0, k, b, op, ids, Brought(m));
    }
  }

  lemma BroughtWithin(d: Depth, d': Depth, k: SymbolKey, b: OB.Book, op: OB.Op, ids: set<nat>, brought: set<nat>)
    requires LiveWithin(d, ids) && d'.books == d.books[k := b]
    requires IdsAfter(BookAt(d, k).orders, b.orders, op) && forall id :: Brings(op, id) ==> id in brought
    ensures LiveWithin(d', ids + brought)
  {
    forall j, id | j in d'.books && id in d'.books[j].orders
      ensures id in ids + brought
    {
      assert j == k || (j in d.books && d.books[j] == d'.books[j]);
    }
  }

  /** What an add leaves behind, new or not: its id is live in its symbol's book and routed there. */
  lemma AddEnters(d: Depth, m: Message)
    requires Wf(d) && CommandOf(m).Enter? && CommandOf(m).op.qty > 0
    ensures var d', k, id := Apply(d, m).0, KeyOf(CommandOf(m).symbol), CommandOf(m).op.id;
            && k in d'.books && id in d'.books[k].orders && d'.routes == d.routes[id := k]
            && forall j :: j in d.books && j != k ==> j in d'.books && d'.books[j] == d.books[j]
  {
    ApplyLocal(d, m);
  }

  lemma TwoMessages(d: Depth, m1: Message, m2: Message)
    requires Wf(d)
    ensures Run(d, [m1, m2]) == Apply(Apply(d, m1).0, m2).0
  {
    assert [m1, m2][..1] == [m1] && [m1][..0] == [];
    assert Run(d, [m1]) == Apply(Run(d, []), m1).0;
  }

  lemma FreshRouted(depth: nat)
    ensures AllPositive(Fresh(depth)) && Routed(Fresh(depth))
  {
  }

  /** One id added under two symbols: the first order is live and can no longer be reached. */
  lemma SharedIdUnroutes(depth: nat, a: Symbol, b: Symbol)
    requires a != b
    ensures var ms := [Message(1, 0, 0, AddOrder(NewOrder(7, BUY, 100, a, 5000))),
                       Message(2, 0, 0, AddOrder(NewOrder(7, BUY, 100, b, 5000)))];
            var d := Run(Fresh(depth), ms);
            && KeyOf(a) in d.books && 7 in d.books[KeyOf(a)].orders && 7 in d.routes && d.routes[7] == KeyOf(b)
            && !Routed(d) && !ExclusiveRun(Fresh(depth), ms)
  {
    var m1 := Message(1, 0, 0, AddOrder(NewOrder(7, BUY, 100, a, 5000)));
    var m2 := Message(2, 0, 0, AddOrder(NewOrder(7, BUY, 100, b, 5000)));
    if KeyOf(a) == KeyOf(b) {
      KeyInjective(a, b);
    }
    AddEnters(Fresh(depth), m1);
    AddEnters(Apply(Fresh(depth), m1).0, m2);
    TwoMessages(Fresh(depth), m1, m2);
    StrayUnrouted(depth, [m1, m2], KeyOf(a), 7);
  }

  lemma StrayUnrouted(depth: nat, ms: seq<Message>, k: SymbolKey, id: nat)
    requires var d := Run(Fresh(depth), ms);
             k in d.books && id in d.books[k].orders && id in d.routes && d.routes[id] != k
    ensures !Routed(Run(Fresh(depth), ms)) && !ExclusiveRun(Fresh(depth), ms)
  {
    FreshRouted(depth);
    RoutingExact(Fresh(depth), ms);
    assert ms[..|ms|] == ms;
  }

  /** With ids that are never reused, a fresh book routes every live order to the one book holding it. */
  lemma FreshIdsRoute(depth: nat, ms: seq<Message>)
    requires NeverReused(ms)
    ensures Routed(Run(Fresh(depth), ms))
  {
    forall i | 0 <= i < |ms|
      ensures Exclusive(Run(Fresh(depth), ms[..i]), ms[i])
    {
      LiveWereBrought(depth, ms[..i]);
    }
    ExclusiveKeepsRouted(Fresh(depth), ms);
  }

  // ---- Refinement over runs -----------------------------------------------

  ghost predicate AllRefine(d: Depth) {
    forall k :: k in d.books ==> OB.Refines(d.books[k])
  }

  ghost predicate AllFit(d: Depth) {
    forall k :: k in d.books ==> OB.Fits(d.books[k].orders)
  }

  /** An operation on one book keeps it in step exactly when its level sums stay below 2^32. */
  lemma BookRefineExact(b: OB.Book, op: OB.Op)
    requires OB.Refines(b)
    ensures OB.Refines(OB.Step(b, op)) <==> OB.Fits(OB.Step(b, op).orders)
  {
    OB.OrdersTrackNaive(b, op);
    if OB.Fits(OB.NaiveStep(b.orders, op)) {
      OB.StepRefines(b, op);
    }
    if OB.Refines(OB.Step(b, op)) {
      OB.RefinesFits(OB.Step(b, op));
    }
  }

  lemma RefineStep(d: Depth, m: Message)
    requires Wf(d) && AllRefine(d)
    ensures AllRefine(Apply(d, m).0) <==> AllFit(Apply(d, m).0)
  {
    ApplyLocal(d, m);
    AllRefineFits(d);
    if Target(d, m).Some? {
      var k := Target(d, m).value;
      OB.EmptyRefines(d.depth);
      BookRefineExact(BookAt(d, k), CommandOf(m).op);
      OneBookChanged(d, Apply(d, m).0, k, OB.Step(BookAt(d, k), CommandOf(m).op));
    }
  }

  lemma AllRefineFits(d: Depth)
    requires AllRefine(d)
    ensures AllFit(d)
  {
    forall k | k in d.books
      ensures OB.Fits(d.books[k].orders)
    {
      OB.RefinesFits(d.books[k]);
    }
  }

  lemma OneBookChanged(d: Depth, d': Depth, k: SymbolKey, b: OB.Book)
    requires AllRefine(d) && AllFit(d) && d'.books == d.books[k := b]
    requires OB.Refines(b) <==> OB.Fits(b.orders)
    ensures AllRefine(d') <==> AllFit(d')
  {
    assert d'.books[k] == b;
    assert forall j :: j in d'.books && j != k ==> j in d.books && d'.books[j] == d.books[j];
  }

  lemma {:induction false} RefineRun(d: Depth, ms: seq<Message>)
    requires Wf(d) && AllRefine(d)
    requires forall i :: 0 <= i <= |ms| ==> AllFit(Run(d, ms[..i]))
    ensures AllRefine(Run(d, ms))
  {
    if ms != [] {
      var init := ms[..|ms| - 1];
      assert forall i :: 0 <= i <= |init| ==> init[..i] == ms[..i];
      RefineRun(d, init);
      assert ms[..|ms|] == ms;
      RefineStep(Run(d, init), ms[|ms| - 1]);
    }
  }

  /** Every ladder and every top list of every symbol agrees with the live orders at every point of a run if and
      only if no price level ever reaches 2^32 shares. */
  lemma DepthRefinementExact(d: Depth, ms: seq<Message>)
    requires Wf(d) && AllRefine(d)
    ensures (forall i :: 0 <= i <= |ms| ==> AllRefine(Run(d, ms[..i]))) <==>
            (forall i :: 0 <= i <= |ms| ==> AllFit(Run(d, ms[..i])))
  {
    forall i | 0 <= i <= |ms| && AllRefine(Run(d, ms[..i]))
      ensures AllFit(Run(d, ms[..i]))
    {
      AllRefineFits(Run(d, ms[..i]));
    }
    if forall i :: 0 <= i <= |ms| ==> AllFit(Run(d, ms[..i])) {
      forall i | 0 <= i <= |ms|
        ensures AllRefine(Run(d, ms[..i]))
      {
        RefinePrefix(d, ms, i);
      }
    }
  }

  lemma RefinePrefix(d: Depth, ms: seq<Message>, i: nat)
    requires Wf(d) && AllRefine(d) && i <= |ms|
    requires forall j :: 0 <= j <= |ms| ==> AllFit(Run(d, ms[..j]))
    ensures AllRefine(Run(d, ms[..i]))
  {
    forall j | 0 <= j <= i
      ensures AllFit(Run(d, ms[..i][..j]))
    {
      assert ms[..i][..j] == ms[..j];
    }
    RefineRun(d, ms[..i]);
  }

  // ---- Conservation of shares ---------------------------------------------

  ghost function Shares(): OB.Order -> nat {
    (o: OB.Order) => o.qty
  }

  /** Shares resting in one book, and in all books. */
  ghost function Resting(orders: OB.Orders): nat {
    Total(orders, Shares())
  }

  ghost function InBook(): OB.Book -> nat {
    (b: OB.Book) => Resting(b.orders)
  }

  ghost function Live(d: Depth): nat {
    Total(d.books, InBook())
  }

  /** Shares an operation adds to a book: an add or replacement under a new id. */
  ghost function Accepted(orders: OB.Orders, op: OB.Op): nat {
    match op
    case OpAdd(id, _, _, qty, _) => if id in orders then 0 else qty
    case OpReplace(id, newId, _, qty, _) => if id in orders && newId !in orders - {id} then qty else 0
    case OpModify(_, _, _) => 0
    case OpReduce(_, _, _) => 0
    case OpDelete(_, _) => 0
  }

  /** Shares it takes out: executed or cancelled up to what is there, or the remainder of a deleted or replaced
      order. */
  ghost function Taken(orders: OB.Orders, op: OB.Op): nat
    requires !op.OpModify?
  {
    if op.id !in orders then 0
    else
      match op
      case OpAdd(_, _, _, _, _) => 0
      case OpReduce(id, qty, _) => if qty < orders[id].qty then qty else orders[id].qty
      case OpDelete(id, _) => orders[id].qty
      case OpReplace(id, _, _, _, _) => orders[id].qty
  }

  lemma BookConserves(orders: OB.Orders, op: OB.Op)
    requires OB.Positive(orders) && !op.OpModify?
    ensures Resting(OB.NaiveStep(orders, op)) + Taken(orders, op) == Resting(orders) + Accepted(orders, op)
  {
    match op
    case OpAdd(id, side, price, qty, ts) =>
      if qty != 0 && id !in orders {
        TotalInsert(orders, id, OB.Order(side, price, qty, ts), Shares());
      }
    case OpReduce(id, qty, ts) =>
      if id in orders {
        var left := OB.Reduced(orders[id].qty, qty);
        if left == 0 {
          TotalRemove(orders, id, Shares());
        } else {
          TotalUpdate(orders, id, orders[id].(qty := left, ts := ts), Shares());
        }
      }
    case OpDelete(id, ts) =>
      if id in orders {
        TotalRemove(orders, id, Shares());
      } else {
        assert orders - {id} == orders;
      }
    case OpReplace(id, newId, price, qty, ts) =>
      if id in orders {
        TotalRemove(orders, id, Shares());
        if qty != 0 && newId !in orders - {id} {
          TotalInsert(orders - {id}, newId, OB.Order(orders[id].side, price, qty, ts), Shares());
        }
      }
  }

  ghost function AcceptedBy(d: Depth, m: Message): nat
    requires Wf(d)
  {
    if Target(d, m).None? then 0
    else ApplyLocal(d, m); Accepted(BookAt(d, Target(d, m).value).orders, CommandOf(m).op)
  }

  ghost function TakenBy(d: Depth, m: Message): nat
    requires Wf(d)
  {
    if Target(d, m).None? then 0
    else ApplyLocal(d, m); Taken(BookAt(d, Target(d, m).value).orders, CommandOf(m).op)
  }

  /** One message: what was live and what came in equals what is live and what went out. */
  lemma ApplyConserves(d: Depth, m: Message)
    requires Wf(d) && AllPositive(d)
    ensures Live(Apply(d, m).0) + TakenBy(d, m) == Live(d) + AcceptedBy(d, m)
  {
    ApplyLocal(d, m);
    if Target(d, m).Some? {
      var k, op := Target(d, m).value, CommandOf(m).op;
      var b := BookAt(d, k);
      OB.OrdersTrackNaive(b, op);
      BookConserves(b.orders, op);
      LiveChange(d, k, OB.Step(b, op));
    }
  }

  lemma LiveChange(d: Depth, k: SymbolKey, b: OB.Book)
    ensures Total(d.books[k := b], InBook()) + Resting(BookAt(d, k).orders) == Live(d) + Resting(b.orders)
  {
    if k in d.books {
      TotalUpdate(d.books, k, b, InBook());
    } else {
      TotalInsert(d.books, k, b, InBook());
    }
  }

  ghost function AcceptedIn(d: Depth, ms: seq<Message>): nat
    requires Wf(d)
  {
    if ms == [] then 0
    else AcceptedIn(d, ms[..|ms| - 1]) + AcceptedBy(Run(d, ms[..|ms| - 1]), ms[|ms| - 1])
  }

  ghost function TakenIn(d: Depth, ms: seq<Message>): nat
    requires Wf(d)
  {
    if ms == [] then 0
    else TakenIn(d, ms[..|ms| - 1]) + TakenBy(Run(d, ms[..|ms| - 1]), ms[|ms| - 1])
  }

  /** Over any run, shares accepted equal shares still live plus shares taken out. */
  lemma {:induction false} SharesConserved(depth: nat, ms: seq<Message>)
    ensures AcceptedIn(Fresh(depth), ms) == Live(Run(Fresh(depth), ms)) + TakenIn(Fresh(depth), ms)
  {
    if ms != [] {
      SharesConserved(depth, ms[..|ms| - 1]);
      PositiveRun(Fresh(depth), ms[..|ms| - 1]);
      ApplyConserves(Run(Fresh(depth), ms[..|ms| - 1]), ms[|ms| - 1]);
    }
  }

  /** With ids that are never reused nothing offered is refused: an add, and a replacement of a live order, bring
      in exactly the shares they announce. */
  lemma FreshIdsAccepted(depth: nat, ms: seq<Message>, i: nat)
    requires NeverReused(ms) && i < |ms|
    ensures var d, c := Run(Fresh(depth), ms[..i]), CommandOf(ms[i]);
            && (c.Enter? ==> AcceptedBy(d, ms[i]) == c.op.qty)
            && (c.ById? && c.op.OpReplace? && Reaches(d, c.op.id) ==> AcceptedBy(d, ms[i]) == c.op.qty)
  {
    LiveWereBrought(depth, ms[..i]);
  }

  ghost function LevelShares(): Level -> nat {
    (l: Level) => l.total
  }

  ghost function SideShares(buy: bool): OB.Order -> nat {
    (o: OB.Order) => if (o.side == BUY) == buy then o.qty else 0
  }

  lemma DeltaTotal(levels: Levels, p: Price, qty: Quantity)
    requires p in levels && levels[p].price == p && qty <= levels[p].total
    requires levels[p].total == qty <==> levels[p].count <= 1
    ensures Total(levels, LevelShares()) == Total(OB.Delta(levels, p, 0 - qty, -1), LevelShares()) + qty
  {
    TotalRemove(levels, p, LevelShares());
    if levels[p].total > qty {
      TotalUpdate(levels, p, Level(p, levels[p].total - qty, levels[p].count - 1), LevelShares());
    }
  }

  /** Taking an order off its level takes its shares off the ladder. */
  lemma LadderDrop(levels: Levels, orders: OB.Orders, id: nat, buy: bool)
    requires OB.Positive(orders) && OB.SideRefines(levels, orders, buy) && id in orders
    ensures var o := orders[id];
            Total(levels, LevelShares()) ==
            Total(OB.SideDelta(levels, o, buy, 0 - o.qty, -1), LevelShares()) + SideShares(buy)(o)
  {
    var o := orders[id];
    if (o.side == BUY) == buy {
      LevelOfOrder(levels, orders, id, buy);
      DeltaTotal(levels, o.price, o.qty);
    }
  }

  /** The level an order rests on: at least its shares, and exactly those if and only if it rests there alone. */
  lemma LevelOfOrder(levels: Levels, orders: OB.Orders, id: nat, buy: bool)
    requires OB.Positive(orders) && OB.SideRefines(levels, orders, buy) && id in orders
    requires (orders[id].side == BUY) == buy
    ensures var p, qty := orders[id].price, orders[id].qty;
            && p in levels && levels[p].price == p && qty <= levels[p].total
            && (levels[p].total == qty <==> levels[p].count <= 1)
  {
    var p := orders[id].price;
    assert OB.LevelIs(levels, p, OB.Qty(orders, buy, p), OB.Count(orders, buy, p));
    OB.CountAtMostQty(orders - {id}, buy, p);
    OB.Removed(orders, id, buy, p);
  }

  lemma {:induction false} SideTotal(levels: Levels, orders: OB.Orders, buy: bool)
    requires OB.Positive(orders) && OB.SideRefines(levels, orders, buy)
    ensures Total(levels, LevelShares()) == Total(orders, SideShares(buy))
    decreases |orders|
  {
    if id :| id in orders {
      assert (orders - {id}).Keys == orders.Keys - {id};
      LadderDrop(levels, orders, id, buy);
      OB.RemoveRefines(levels, orders, id, buy);
      SideTotal(OB.SideDelta(levels, orders[id], buy, 0 - orders[id].qty, -1), orders - {id}, buy);
      TotalRemove(orders, id, SideShares(buy));
    } else {
      assert levels.Keys == {} by {
        forall p: Price
          ensures p !in levels
        {
          assert OB.LevelIs(levels, p, OB.Qty(orders, buy, p), OB.Count(orders, buy, p));
        }
      }
    }
  }

  ghost function OnLadders(): OB.Book -> nat {
    (b: OB.Book) => Total(b.bids, LevelShares()) + Total(b.asks, LevelShares())
  }

  /** Shares summed over every level of every ladder of every symbol. */
  ghost function LadderLive(d: Depth): nat {
    Total(d.books, OnLadders())
  }

  /** The ladders together hold exactly the live shares. */
  lemma LaddersHoldLive(d: Depth)
    requires AllRefine(d)
    ensures LadderLive(d) == Live(d)
  {
    forall k | k in d.books
      ensures OnLadders()(d.books[k]) == InBook()(d.books[k])
    {
      var b := d.books[k];
      SideTotal(b.bids, b.orders, true);
      SideTotal(b.asks, b.orders, false);
      TotalSplit(b.orders, Shares(), SideShares(true), SideShares(false));
    }
    TotalSame(d.books, OnLadders(), InBook());
  }

  /** Conservation read off the ladders: on every run whose level sums stay below 2^32, shares accepted equal the
      shares on all ladder levels plus the shares taken out. */
  lemma LadderSharesConserved(depth: nat, ms: seq<Message>)
    requires forall i :: 0 <= i <= |ms| ==> AllFit(Run(Fresh(depth), ms[..i]))
    ensures AcceptedIn(Fresh(depth), ms) == LadderLive(Run(Fresh(depth), ms)) + TakenIn(Fresh(depth), ms)
  {
    SharesConserved(depth, ms);
    RefineRun(Fresh(depth), ms);
    LaddersHoldLive(Run(Fresh(depth), ms));
  }
}
