/** What each message does to the live orders, stated on its fields: first symbol by symbol for any state of the book,
    then over whole runs against one flat market of orders by id. */
module MessageEffects {
  import opened Bytes
  import opened Itch
  import OB = OrderBook
  import opened Routing

  // ---- One message --------------------------------------------------------

  /** An add, with or without attribution. */
  predicate Adding(b: Body, o: NewOrder) {
    b == AddOrder(o) || (b.AddOrderMpid? && b.order == o)
  }

  /** An execution, priced or not, or a cancel, of n shares of an order. */
  predicate Taking(b: Body, id: nat, n: nat) {
    || ((b.Executed? || b.ExecutedWithPrice?) && b.exec.id == id && b.exec.shares == n)
    || (b.Cancel? && b.id == id && b.shares == n)
  }

  /** Everything but the book and the route of one order is as before. */
  ghost predicate OnlyBook(d: Depth, d': Depth, k: SymbolKey) {
    && d'.depth == d.depth && k in d'.books && d'.books.Keys == d.books.Keys + {k}
    && (forall j :: j in d.books && j != k ==> d'.books[j] == d.books[j])
    && (forall j :: j in d.symbols ==> j in d'.symbols && d'.symbols[j] == d.symbols[j])
    && (k in d.books ==> d'.symbols == d.symbols)
  }

  lemma Entered(d: Depth, m: Message, symbol: Symbol, op: OB.Op, k: SymbolKey)
    requires Wf(d) && CommandOf(m) == Enter(symbol, op) && k == KeyOf(symbol)
    ensures Apply(d, m).1 && OnlyBook(d, Apply(d, m).0, k)
    ensures Apply(d, m).0.books[k] == OB.Step(BookAt(d, k), op) && Apply(d, m).0.routes == d.routes[op.id := k]
    ensures k !in d.books ==> Apply(d, m).0.symbols == d.symbols[k := symbol]
  {
  }

  lemma ActedOn(d: Depth, m: Message, op: OB.Op, k: SymbolKey)
    requires Wf(d) && CommandOf(m) == ById(op) && Reaches(d, op.id) && k == d.routes[op.id]
    ensures Apply(d, m).1 && OnlyBook(d, Apply(d, m).0, k)
    ensures var b := Apply(d, m).0.books[k];
            b == OB.Step(d.books[k], op) && Apply(d, m).0.routes == Reroute(d.routes, op, k, b)
  {
  }

  lemma Unreached(d: Depth, m: Message, op: OB.Op)
    requires Wf(d) && CommandOf(m) == ById(op) && !Reaches(d, op.id)
    ensures Apply(d, m) == (d, false)
  {
  }

  lemma AddCommand(m: Message, o: NewOrder)
    requires Adding(m.body, o)
    ensures CommandOf(m) == Enter(o.symbol, OB.OpAdd(o.id, o.side, o.price, o.shares, m.ts))
  {
  }

  lemma TakeCommand(m: Message, id: nat, n: Quantity)
    requires Taking(m.body, id, n)
    ensures CommandOf(m) == ById(OB.OpReduce(id, n, m.ts))
  {
  }

  lemma Stamped(b: OB.Book, op: OB.Op)
    requires !op.OpAdd? && op.id in b.orders
    ensures OB.Step(b, op).lastTs == op.ts
  {
  }

  lemma AddedBook(b: OB.Book, id: nat, side: byte, price: Price, qty: Quantity, ts: u64)
    ensures var b' := OB.Step(b, OB.OpAdd(id, side, price, qty, ts));
            if qty > 0 && id !in b.orders
            then b'.orders == b.orders[id := OB.Order(side, price, qty, ts)] && b'.lastTs == ts
            else b' == b
  {
  }

  /** d' is d with the order entered under its symbol, unless it has no shares or the id is live there; the id is routed
      to the symbol in any case. */
  ghost predicate Added(d: Depth, d': Depth, o: NewOrder, ts: u64) {
    var k, was := KeyOf(o.symbol), BookAt(d, KeyOf(o.symbol));
    && OnlyBook(d, d', k) && d'.routes == d.routes[o.id := k]
    && (k !in d.books ==> d'.symbols == d.symbols[k := o.symbol])
    && if o.shares > 0 && o.id !in was.orders
       then d'.books[k].orders == was.orders[o.id := OB.Order(o.side, o.price, o.shares, ts)] &&
            d'.books[k].lastTs == ts
       else d'.books[k] == was
  }

  /** d' is d with n shares taken from the order, which goes when nothing is left. */
  ghost predicate Taken(d: Depth, d': Depth, id: nat, n: nat, ts: u64)
    requires Wf(d) && Reaches(d, id)
  {
    var k := d.routes[id];
    var was := d.books[k].orders;
    && OnlyBook(d, d', k) && d'.books[k].lastTs == ts
    && (if n >= was[id].qty then d'.books[k].orders == was - {id} && d'.routes == d.routes - {id}
        else d'.books[k].orders == was[id := was[id].(qty := was[id].qty - n, ts := ts)] && d'.routes == d.routes)
  }

  /** d' is d without the order. */
  ghost predicate Deleted(d: Depth, d': Depth, id: nat, ts: u64)
    requires Wf(d) && Reaches(d, id)
  {
    var k := d.routes[id];
    && OnlyBook(d, d', k) && d'.books[k].lastTs == ts
    && d'.books[k].orders == d.books[k].orders - {id} && d'.routes == d.routes - {id}
  }

  /** d' is d with the order taken out and the new one entered on the same side of the same symbol, unless it has no
      shares or the new id is live there; the new id is routed to the symbol in any case. */
  ghost predicate Replaced(d: Depth, d': Depth, id: nat, newId: nat, shares: Quantity, price: Price, ts: u64)
    requires Wf(d) && Reaches(d, id)
  {
    var k := d.routes[id];
    var was, left := d.books[k].orders, d.books[k].orders - {id};
    && OnlyBook(d, d', k) && d'.books[k].lastTs == ts && d'.routes == (d.routes - {id})[newId := k]
    && d'.books[k].orders ==
       if shares == 0 || newId in left then left else left[newId := OB.Order(was[id].side, price, shares, ts)]
  }

  ghost predicate TakenIfLive(d: Depth, d': Depth, id: nat, n: nat, ts: u64)
    requires Wf(d)
  {
    if Reaches(d, id) then Taken(d, d', id, n, ts) else d' == d
  }

  ghost predicate DeletedIfLive(d: Depth, d': Depth, id: nat, ts: u64)
    requires Wf(d)
  {
    if Reaches(d, id) then Deleted(d, d', id, ts) else d' == d
  }

  ghost predicate ReplacedIfLive(d: Depth, d': Depth, id: nat, newId: nat, shares: Quantity, price: Price, ts: u64)
    requires Wf(d)
  {
    if Reaches(d, id) then Replaced(d, d', id, newId, shares, price, ts) else d' == d
  }

  /** An add is always reported. */
  lemma AddExact(d: Depth, m: Message, o: NewOrder)
    requires Wf(d) && Adding(m.body, o)
    ensures Apply(d, m).1 && Added(d, Apply(d, m).0, o, m.ts)
  {
    AddCommand(m, o);
    AddedBook(BookAt(d, KeyOf(o.symbol)), o.id, o.side, o.price, o.shares, m.ts);
    Entered(d, m, o.symbol, OB.OpAdd(o.id, o.side, o.price, o.shares, m.ts), KeyOf(o.symbol));
  }

  /** An execution, priced or not, or a cancel of n shares leaves a reached order of q shares with q - n, or takes it
      out if n >= q. */
  lemma TakeExact(d: Depth, m: Message, id: nat, n: Quantity)
    requires Wf(d) && AllPositive(d) && Taking(m.body, id, n)
    ensures TakenIfLive(d, Apply(d, m).0, id, n, m.ts) && (Apply(d, m).1 <==> Reaches(d, id))
  {
    var op := OB.OpReduce(id, n, m.ts);
    TakeCommand(m, id, n);
    if Reaches(d, id) {
      var k := d.routes[id];
      ActedOn(d, m, op, k);
      OB.OrdersTrackNaive(d.books[k], op);
      Stamped(d.books[k], op);
    } else {
      Unreached(d, m, op);
    }
  }

  /** A delete takes the reached order out. */
  lemma DeleteExact(d: Depth, m: Message)
    requires Wf(d) && AllPositive(d) && m.body.Delete?
    ensures DeletedIfLive(d, Apply(d, m).0, m.body.id, m.ts) && (Apply(d, m).1 <==> Reaches(d, m.body.id))
  {
    var op := OB.OpDelete(m.body.id, m.ts);
    if Reaches(d, op.id) {
      var k := d.routes[op.id];
      ActedOn(d, m, op, k);
      OB.OrdersTrackNaive(d.books[k], op);
      Stamped(d.books[k], op);
    } else {
      Unreached(d, m, op);
    }
  }

  /** A replace swaps the reached order for the new one. */
  lemma ReplaceExact(d: Depth, m: Message)
    requires Wf(d) && AllPositive(d) && m.body.Replace?
    ensures var r := m.body;
            ReplacedIfLive(d, Apply(d, m).0, r.id, r.newId, r.shares, r.price, m.ts) &&
            (Apply(d, m).1 <==> Reaches(d, r.id))
  {
    var op := OB.OpReplace(m.body.id, m.body.newId, m.body.price, m.body.shares, m.ts);
    if Reaches(d, op.id) {
      var k := d.routes[op.id];
      ActedOn(d, m, op, k);
      OB.OrdersTrackNaive(d.books[k], op);
      Stamped(d.books[k], op);
    } else {
      Unreached(d, m, op);
    }
  }

  /** Trades, directories and system events do nothing. */
  lemma SilentExact(d: Depth, m: Message)
    requires Wf(d) && (m.body.Trade? || m.body.SystemEvent? || m.body.StockDirectory?)
    ensures Apply(d, m) == (d, false)
  {
  }

  // ---- A flat market of orders --------------------------------------------

  datatype Resting = Resting(key: SymbolKey, order: OB.Order)

  type Market = map<nat, Resting>

  /** The live orders of all symbols that id-only messages reach. */
  ghost function MarketOf(d: Depth): Market
    requires Wf(d)
  {
    map id | id in d.routes && Reaches(d, id) :: Resting(d.routes[id], d.books[d.routes[id]].orders[id])
  }

  function Admit(mk: Market, id: nat, r: Resting): Market {
    if r.order.qty == 0 || id in mk then mk else mk[id := r]
  }

  function Take(mk: Market, id: nat, n: nat, ts: u64): Market {
    if id !in mk then mk
    else
      var r := mk[id];
      if n >= r.order.qty then mk - {id}
      else mk[id := Resting(r.key, OB.Order(r.order.side, r.order.price, r.order.qty - n, ts))]
  }

  /** What an exchange means by its messages. */
  function Trading(mk: Market, b: Body, ts: u64): Market {
    match b
    case AddOrder(o) => Admit(mk, o.id, Resting(KeyOf(o.symbol), OB.Order(o.side, o.price, o.shares, ts)))
    case AddOrderMpid(o, _) => Admit(mk, o.id, Resting(KeyOf(o.symbol), OB.Order(o.side, o.price, o.shares, ts)))
    case Executed(e) => Take(mk, e.id, e.shares, ts)
    case ExecutedWithPrice(e, _, _) => Take(mk, e.id, e.shares, ts)
    case Cancel(id, n) => Take(mk, id, n, ts)
    case Delete(id) => mk - {id}
    case Replace(id, newId, shares, price) =>
      if id !in mk then mk
      else Admit(mk - {id}, newId, Resting(mk[id].key, OB.Order(mk[id].order.side, price, shares, ts)))
    case SystemEvent(_) => mk
    case StockDirectory(_, _, _, _) => mk
    case Trade(_, _) => mk
  }

  /** The message brings in an id that is live under another symbol. */
  predicate Clashes(mk: Market, b: Body) {
    match b
    case AddOrder(o) => o.id in mk && mk[o.id].key != KeyOf(o.symbol)
    case AddOrderMpid(o, _) => o.id in mk && mk[o.id].key != KeyOf(o.symbol)
    case Replace(id, newId, _, _) => id in mk && newId in mk && mk[newId].key != mk[id].key
    case _ => false
  }

  /** The market holds every order of every book, under the book's symbol. */
  lemma MarketComplete(d: Depth, k: SymbolKey, id: nat)
    requires Solid(d)
    ensures k in d.books && id in d.books[k].orders <==> id in MarketOf(d) && MarketOf(d)[id].key == k
    ensures k in d.books && id in d.books[k].orders ==> MarketOf(d)[id].order == d.books[k].orders[id]
  {
  }

  ghost function At(mk: Market, id: nat): Option<Resting> {
    if id in mk then Some(mk[id]) else None
  }

  /** The order under an id that its route leads to. */
  ghost function LiveAt(d: Depth, id: nat): Option<Resting>
    requires Wf(d)
  {
    if Reaches(d, id) then Some(Resting(d.routes[id], d.books[d.routes[id]].orders[id])) else None
  }

  lemma MarketIs(d: Depth, mk: Market)
    requires Wf(d) && forall id :: LiveAt(d, id) == At(mk, id)
    ensures MarketOf(d) == mk
  {
    forall id
      ensures (id in MarketOf(d) <==> id in mk) && (id in mk ==> MarketOf(d)[id] == mk[id])
    {
      assert LiveAt(d, id) == At(mk, id);
    }
  }

  lemma MarketAt(d: Depth, id: nat)
    requires Wf(d)
    ensures At(MarketOf(d), id) == LiveAt(d, id)
  {
  }

  /** An id whose route is as before, and whose order too if it is in the changed book. */
  lemma Elsewhere(d: Depth, d': Depth, k: SymbolKey, j: nat)
    requires Wf(d) && Wf(d') && OnlyBook(d, d', k)
    requires j in d.routes <==> j in d'.routes
    requires j in d.routes ==> d'.routes[j] == d.routes[j]
    requires k in d.books ==> (j in d'.books[k].orders <==> j in d.books[k].orders)
    requires k in d.books && j in d.books[k].orders ==> d'.books[k].orders[j] == d.books[k].orders[j]
    ensures LiveAt(d', j) == At(MarketOf(d), j)
  {
    MarketAt(d, j);
    if j in d.routes && d.routes[j] != k {
      assert d'.books[d.routes[j]] == d.books[d.routes[j]];
    }
  }

  /** An order in the book it is routed to. */
  lemma LiveIn(d: Depth, k: SymbolKey, id: nat)
    requires Wf(d) && id in d.routes && d.routes[id] == k
    ensures LiveAt(d, id) == if id in d.books[k].orders then Some(Resting(k, d.books[k].orders[id])) else None
  {
  }

  lemma AdmitHere(mk: Market, id: nat, r: Resting)
    ensures At(Admit(mk, id, r), id) == if id in mk then Some(mk[id]) else if r.order.qty > 0 then Some(r) else None
  {
  }

  lemma AdmitElsewhere(mk: Market, id: nat, newId: nat, r: Resting, j: nat)
    requires j != id && j != newId
    ensures At(Admit(mk - {id}, newId, r), j) == At(mk, j)
  {
  }

  lemma AddedHere(d: Depth, d': Depth, o: NewOrder, ts: u64, k: SymbolKey)
    requires Solid(d) && Wf(d') && Added(d, d', o, ts) && k == KeyOf(o.symbol)
    requires o.id in MarketOf(d) ==> MarketOf(d)[o.id].key == k
    ensures LiveAt(d', o.id) ==
            At(Admit(MarketOf(d), o.id, Resting(k, OB.Order(o.side, o.price, o.shares, ts))), o.id)
  {
    MarketComplete(d, k, o.id);
    AdmitHere(MarketOf(d), o.id, Resting(k, OB.Order(o.side, o.price, o.shares, ts)));
    LiveIn(d', k, o.id);
  }

  lemma AddedElsewhere(d: Depth, d': Depth, o: NewOrder, ts: u64, j: nat)
    requires Wf(d) && Wf(d') && Added(d, d', o, ts) && j != o.id
    ensures LiveAt(d', j) == At(MarketOf(d), j)
  {
    Elsewhere(d, d', KeyOf(o.symbol), j);
  }

  lemma AddTrades(d: Depth, d': Depth, o: NewOrder, ts: u64, k: SymbolKey)
    requires Solid(d) && Wf(d') && Added(d, d', o, ts) && k == KeyOf(o.symbol)
    requires o.id in MarketOf(d) ==> MarketOf(d)[o.id].key == k
    ensures MarketOf(d') == Admit(MarketOf(d), o.id, Resting(k, OB.Order(o.side, o.price, o.shares, ts)))
  {
    var want := Admit(MarketOf(d), o.id, Resting(k, OB.Order(o.side, o.price, o.shares, ts)));
    AddedHere(d, d', o, ts, k);
    forall j
      ensures LiveAt(d', j) == At(want, j)
    {
      if j != o.id {
        AddedElsewhere(d, d', o, ts, j);
      }
    }
    MarketIs(d', want);
  }

  lemma TakenElsewhere(d: Depth, d': Depth, id: nat, n: Quantity, ts: u64, j: nat)
    requires Wf(d) && Wf(d') && Reaches(d, id) && Taken(d, d', id, n, ts) && j != id
    ensures LiveAt(d', j) == At(MarketOf(d), j)
  {
    Elsewhere(d, d', d.routes[id], j);
  }

  lemma TakenHere(d: Depth, d': Depth, id: nat, n: Quantity, ts: u64)
    requires Wf(d) && Wf(d') && Reaches(d, id) && Taken(d, d', id, n, ts)
    ensures LiveAt(d', id) == At(Take(MarketOf(d), id, n, ts), id)
  {
    MarketAt(d, id);
  }

  lemma TakeTrades(d: Depth, d': Depth, id: nat, n: Quantity, ts: u64)
    requires Wf(d) && Wf(d') && Reaches(d, id) && Taken(d, d', id, n, ts)
    ensures MarketOf(d') == Take(MarketOf(d), id, n, ts)
  {
    var want := Take(MarketOf(d), id, n, ts);
    TakenHere(d, d', id, n, ts);
    forall j
      ensures LiveAt(d', j) == At(want, j)
    {
      if j != id {
        TakenElsewhere(d, d', id, n, ts, j);
      }
    }
    MarketIs(d', want);
  }

  lemma DeleteTrades(d: Depth, d': Depth, id: nat, ts: u64)
    requires Wf(d) && Wf(d') && Reaches(d, id) && Deleted(d, d', id, ts)
    ensures MarketOf(d') == MarketOf(d) - {id}
  {
    var want := MarketOf(d) - {id};
    forall j
      ensures LiveAt(d', j) == At(want, j)
    {
      if j != id {
        Elsewhere(d, d', d.routes[id], j);
      }
    }
    MarketIs(d', want);
  }

  lemma ReplacedHere(d: Depth, d': Depth, id: nat, newId: nat, shares: Quantity, price: Price, ts: u64)
    requires Solid(d) && Wf(d') && Reaches(d, id) && Replaced(d, d', id, newId, shares, price, ts)
    requires newId in MarketOf(d) ==> MarketOf(d)[newId].key == d.routes[id]
    ensures var mk, k: SymbolKey := MarketOf(d), d.routes[id];
            var want := Admit(mk - {id}, newId, Resting(k, OB.Order(mk[id].order.side, price, shares, ts)));
            LiveAt(d', id) == At(want, id) && LiveAt(d', newId) == At(want, newId)
  {
    MarketComplete(d, d.routes[id], newId);
  }

  lemma ReplacedElsewhere(d: Depth, d': Depth, id: nat, newId: nat, shares: Quantity, price: Price, ts: u64, j: nat)
    requires Wf(d) && Wf(d') && Reaches(d, id) && Replaced(d, d', id, newId, shares, price, ts)
    requires j != id && j != newId
    ensures LiveAt(d', j) == At(MarketOf(d), j)
  {
    Elsewhere(d, d', d.routes[id], j);
  }

  lemma ReplaceTrades(d: Depth, d': Depth, id: nat, newId: nat, shares: Quantity, price: Price, ts: u64)
    requires Solid(d) && Wf(d') && Reaches(d, id) && Replaced(d, d', id, newId, shares, price, ts)
    requires newId in MarketOf(d) ==> MarketOf(d)[newId].key == d.routes[id]
    ensures var mk := MarketOf(d);
            MarketOf(d') ==
            Admit(mk - {id}, newId, Resting(mk[id].key, OB.Order(mk[id].order.side, price, shares, ts)))
  {
    var k, mk: Market := d.routes[id], MarketOf(d);
    var r := Resting(k, OB.Order(mk[id].order.side, price, shares, ts));
    var want := Admit(mk - {id}, newId, r);
    ReplacedHere(d, d', id, newId, shares, price, ts);
    forall j
      ensures LiveAt(d', j) == At(want, j)
    {
      if j != id && j != newId {
        ReplacedElsewhere(d, d', id, newId, shares, price, ts, j);
        AdmitElsewhere(mk, id, newId, r, j);
      }
    }
    MarketIs(d', want);
  }

  // ---- Any message --------------------------------------------------------

  /** d' is d after a message with these fields. */
  ghost predicate Effect(d: Depth, d': Depth, b: Body, ts: u64)
    requires Wf(d)
  {
    match b
    case AddOrder(o) => Added(d, d', o, ts)
    case AddOrderMpid(o, _) => Added(d, d', o, ts)
    case Executed(e) => TakenIfLive(d, d', e.id, e.shares, ts)
    case ExecutedWithPrice(e, _, _) => TakenIfLive(d, d', e.id, e.shares, ts)
    case Cancel(id, n) => TakenIfLive(d, d', id, n, ts)
    case Delete(id) => DeletedIfLive(d, d', id, ts)
    case Replace(id, newId, shares, price) => ReplacedIfLive(d, d', id, newId, shares, price, ts)
    case SystemEvent(_) => d' == d
    case StockDirectory(_, _, _, _) => d' == d
    case Trade(_, _) => d' == d
  }

  /** Every message has the effect its fields announce. */
  lemma MessageExact(d: Depth, m: Message, d': Depth)
    requires Wf(d) && AllPositive(d) && d' == Apply(d, m).0
    ensures Effect(d, d', m.body, m.ts)
  {
    var b := m.body;
    if b.AddOrder? || b.AddOrderMpid? {
      AddExact(d, m, b.order);
    } else if b.Executed? || b.ExecutedWithPrice? {
      TakeExact(d, m, b.exec.id, b.exec.shares);
    } else if b.Cancel? {
      TakeExact(d, m, b.id, b.shares);
    } else if b.Delete? {
      DeleteExact(d, m);
    } else if b.Replace? {
      ReplaceExact(d, m);
    } else {
      SilentExact(d, m);
    }
  }

  // What the flat market makes of each kind of message.

  lemma AddMeans(mk: Market, b: Body, o: NewOrder, ts: u64)
    requires Adding(b, o)
    ensures Trading(mk, b, ts) == Admit(mk, o.id, Resting(KeyOf(o.symbol), OB.Order(o.side, o.price, o.shares, ts)))
    ensures Clashes(mk, b) <==> o.id in mk && mk[o.id].key != KeyOf(o.symbol)
  {
  }

  lemma TakeMeans(mk: Market, b: Body, id: nat, n: Quantity, ts: u64)
    requires Taking(b, id, n)
    ensures Trading(mk, b, ts) == Take(mk, id, n, ts)
  {
  }

  lemma DeleteMeans(mk: Market, b: Body, ts: u64)
    requires b.Delete?
    ensures Trading(mk, b, ts) == mk - {b.id} && (b.id !in mk ==> Trading(mk, b, ts) == mk)
  {
  }

  lemma ReplaceMeans(mk: Market, b: Body, ts: u64)
    requires b.Replace?
    ensures b.id !in mk ==> Trading(mk, b, ts) == mk
    ensures b.id in mk ==>
              var r := Resting(mk[b.id].key, OB.Order(mk[b.id].order.side, b.price, b.shares, ts));
              && Trading(mk, b, ts) == Admit(mk - {b.id}, b.newId, r)
              && (Clashes(mk, b) <==> b.newId in mk && mk[b.newId].key != mk[b.id].key)
  {
  }

  lemma AddChanges(d: Depth, d': Depth, o: NewOrder, b: Body, ts: u64, mk: Market, mk': Market)
    requires Solid(d) && Wf(d') && Adding(b, o) && Added(d, d', o, ts) && mk == MarketOf(d)
    requires !Clashes(mk, b) && mk' == Trading(mk, b, ts)
    ensures MarketOf(d') == mk'
  {
    AddMeans(mk, b, o, ts);
    AddTrades(d, d', o, ts, KeyOf(o.symbol));
  }

  lemma TakeChanges(d: Depth, d': Depth, id: nat, n: Quantity, b: Body, ts: u64, mk: Market, mk': Market)
    requires Wf(d) && Wf(d') && Taking(b, id, n) && TakenIfLive(d, d', id, n, ts) && mk == MarketOf(d)
    requires mk' == Trading(mk, b, ts)
    ensures MarketOf(d') == mk'
  {
    TakeMeans(mk, b, id, n, ts);
    if Reaches(d, id) {
      TakeTrades(d, d', id, n, ts);
    }
  }

  lemma DeleteChanges(d: Depth, d': Depth, b: Body, ts: u64, mk: Market, mk': Market)
    requires Wf(d) && Wf(d') && b.Delete? && DeletedIfLive(d, d', b.id, ts) && mk == MarketOf(d)
    requires mk' == Trading(mk, b, ts)
    ensures MarketOf(d') == mk'
  {
    DeleteMeans(mk, b, ts);
    if Reaches(d, b.id) {
      DeleteTrades(d, d', b.id, ts);
    }
  }

  lemma ReplaceChanges(d: Depth, d': Depth, b: Body, ts: u64, mk: Market, mk': Market)
    requires Solid(d) && Wf(d') && b.Replace? && mk == MarketOf(d)
    requires ReplacedIfLive(d, d', b.id, b.newId, b.shares, b.price, ts)
    requires !Clashes(mk, b) && mk' == Trading(mk, b, ts)
    ensures MarketOf(d') == mk'
  {
    ReplaceMeans(mk, b, ts);
    if Reaches(d, b.id) {
      ReplaceTrades(d, d', b.id, b.newId, b.shares, b.price, ts);
    }
  }

  lemma AddMessage(d: Depth, m: Message, o: NewOrder, d': Depth, mk: Market, mk': Market)
    requires Solid(d) && d' == Apply(d, m).0 && mk == MarketOf(d) && mk' == Trading(mk, m.body, m.ts)
    requires Adding(m.body, o) && !Clashes(mk, m.body)
    ensures MarketOf(d') == mk'
  {
    AddExact(d, m, o);
    AddChanges(d, d', o, m.body, m.ts, mk, mk');
  }

  lemma TakeMessage(d: Depth, m: Message, id: nat, n: Quantity, d': Depth, mk: Market, mk': Market)
    requires Solid(d) && d' == Apply(d, m).0 && mk == MarketOf(d) && mk' == Trading(mk, m.body, m.ts)
    requires Taking(m.body, id, n)
    ensures MarketOf(d') == mk'
  {
    TakeExact(d, m, id, n);
    TakeChanges(d, d', id, n, m.body, m.ts, mk, mk');
  }

  lemma DeleteMessage(d: Depth, m: Message, d': Depth, mk: Market, mk': Market)
    requires Solid(d) && d' == Apply(d, m).0 && mk == MarketOf(d) && mk' == Trading(mk, m.body, m.ts)
    requires m.body.Delete?
    ensures MarketOf(d') == mk'
  {
    DeleteExact(d, m);
    DeleteChanges(d, d', m.body, m.ts, mk, mk');
  }

  lemma ReplaceMessage(d: Depth, m: Message, d': Depth, mk: Market, mk': Market)
    requires Solid(d) && d' == Apply(d, m).0 && mk == MarketOf(d) && mk' == Trading(mk, m.body, m.ts)
    requires m.body.Replace? && !Clashes(mk, m.body)
    ensures MarketOf(d') == mk'
  {
    ReplaceExact(d, m);
    ReplaceChanges(d, d', m.body, m.ts, mk, mk');
  }

  lemma SilentMeans(mk: Market, b: Body, ts: u64)
    requires b.Trade? || b.SystemEvent? || b.StockDirectory?
    ensures Trading(mk, b, ts) == mk
  {
  }

  lemma SilentMessage(d: Depth, m: Message, d': Depth, mk: Market, mk': Market)
    requires Solid(d) && d' == Apply(d, m).0 && mk == MarketOf(d) && mk' == Trading(mk, m.body, m.ts)
    requires m.body.Trade? || m.body.SystemEvent? || m.body.StockDirectory?
    ensures MarketOf(d') == mk'
  {
    SilentMeans(mk, m.body, m.ts);
    SilentExact(d, m);
  }

  /** And the flat market changes as the fields say, unless the message brings in an id that is live under another
      symbol. */
  lemma MessageTrades(d: Depth, m: Message, d': Depth, mk: Market, mk': Market)
    requires Solid(d) && d' == Apply(d, m).0 && mk == MarketOf(d) && mk' == Trading(mk, m.body, m.ts)
    requires !Clashes(mk, m.body)
    ensures MarketOf(d') == mk'
  {
    match m.body
    case AddOrder(o) => AddMessage(d, m, o, d', mk, mk');
    case AddOrderMpid(o, _) => AddMessage(d, m, o, d', mk, mk');
    case Executed(e) => TakeMessage(d, m, e.id, e.shares, d', mk, mk');
    case ExecutedWithPrice(e, _, _) => TakeMessage(d, m, e.id, e.shares, d', mk, mk');
    case Cancel(id, n) => TakeMessage(d, m, id, n, d', mk, mk');
    case Delete(_) => DeleteMessage(d, m, d', mk, mk');
    case Replace(_, _, _, _) => ReplaceMessage(d, m, d', mk, mk');
    case _ => SilentMessage(d, m, d', mk, mk');
  }
}
