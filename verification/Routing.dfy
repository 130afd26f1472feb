/** The multi-symbol book as a value: routing of id-only messages, and the invariants of every run. */
module Routing {
  import opened Bytes
  import opened Itch
  import opened OrderBook

  datatype Depth = Depth(depth: nat, books: map<SymbolKey, Book>, symbols: map<SymbolKey, Symbol>,
                         routes: map<nat, SymbolKey>)

  function Fresh(depth: nat): Depth {
    Depth(depth, map[], map[], map[])
  }

  /** Books and symbols have the same keys, every symbol is filed under its own key, and every route leads to an
      existing book: this is what makes the unchecked book look-ups of the apply path safe. */
  ghost predicate Wf(d: Depth) {
    && d.books.Keys == d.symbols.Keys
    && (forall k :: k in d.symbols ==> KeyOf(d.symbols[k]) == k)
    && (forall id :: id in d.routes ==> d.routes[id] in d.books)
  }

  /** book_for: the symbol's book, created on first use. */
  ghost function WithBook(d: Depth, sym: Symbol): (r: Depth)
    requires Wf(d)
    ensures Wf(r) && KeyOf(sym) in r.books
  {
    var k := KeyOf(sym);
    if k in d.books then d
    else d.(books := d.books[k := Empty(d.depth)], symbols := d.symbols[k := sym])
  }

  /** What a message asks of the book: enter an order under a symbol, act on an order by id, or nothing. */
  datatype Command = Enter(symbol: Symbol, op: Op) | ById(op: Op) | Nothing

  function CommandOf(m: Message): (c: Command)
    ensures c.Enter? ==> c.op.OpAdd?
    ensures c.ById? ==> c.op.OpReduce? || c.op.OpDelete? || c.op.OpReplace?
  {
    match m.body
    case AddOrder(o) => Enter(o.symbol, OpAdd(o.id, o.side, o.price, o.shares, m.ts))
    case AddOrderMpid(o, _) => Enter(o.symbol, OpAdd(o.id, o.side, o.price, o.shares, m.ts))
    case Executed(e) => ById(OpReduce(e.id, e.shares, m.ts))
    case ExecutedWithPrice(e, _, _) => ById(OpReduce(e.id, e.shares, m.ts))
    case Cancel(id, shares) => ById(OpReduce(id, shares, m.ts))
    case Delete(id) => ById(OpDelete(id, m.ts))
    case Replace(id, newId, shares, price) => ById(OpReplace(id, newId, price, shares, m.ts))
    case SystemEvent(_) => Nothing
    case StockDirectory(_, _, _, _) => Nothing
    case Trade(_, _) => Nothing
  }

  /** The order that an id-only message reaches: routed, and live in the book it is routed to. */
  ghost predicate Reaches(d: Depth, id: nat)
    requires Wf(d)
  {
    id in d.routes && id in d.books[d.routes[id]].orders
  }

  /** The routing entry after op acted on book k and left it as b. */
  ghost function Reroute(routes: map<nat, SymbolKey>, op: Op, k: SymbolKey, b: Book): map<nat, SymbolKey> {
    match op
    case OpAdd(id, _, _, _, _) => routes[id := k]
    case OpReplace(id, newId, _, _, _) => (routes - {id})[newId := k]
    case OpDelete(id, _) => routes - {id}
    case OpReduce(id, _, _) => if id in b.orders then routes else routes - {id}
    case OpModify(_, _, _) => routes
  }

  /** The book a message is about, if any. */
  ghost function Target(d: Depth, m: Message): Option<SymbolKey>
    requires Wf(d)
  {
    match CommandOf(m)
    case Enter(symbol, _) => Some(KeyOf(symbol))
    case ById(op) => if Reaches(d, op.id) then Some(d.routes[op.id]) else None
    case Nothing => None
  }

  ghost function ActOn(d: Depth, k: SymbolKey, op: Op): (r: Depth)
    requires Wf(d) && k in d.books
    ensures Wf(r) && r.depth == d.depth
  {
    var b := Step(d.books[k], op);
    d.(books := d.books[k := b], routes := Reroute(d.routes, op, k, b))
  }

  /** DepthBook::apply: the new state, and whether it reports a change. */
  ghost function Apply(d: Depth, m: Message): (r: (Depth, bool))
    requires Wf(d)
    ensures Wf(r.0)
  {
    match CommandOf(m)
    case Enter(symbol, op) => (ActOn(WithBook(d, symbol), KeyOf(symbol), op), true)
    case ById(op) => if Reaches(d, op.id) then (ActOn(d, d.routes[op.id], op), true) else (d, false)
    case Nothing => (d, false)
  }

  /** A list of the symbols in some order, each once: what a walk over an unordered map gives. */
  ghost predicate Enumerates(list: seq<Symbol>, symbols: map<SymbolKey, Symbol>) {
    && (forall i :: 0 <= i < |list| ==> KeyOf(list[i]) in symbols)
    && (forall k :: k in symbols ==> symbols[k] in list)
    && (forall i, j :: 0 <= i < j < |list| ==> list[i] != list[j])
  }

  lemma EnumerateOneMore(list: seq<Symbol>, symbols: map<SymbolKey, Symbol>, left: set<SymbolKey>, k: SymbolKey)
    requires forall j :: j in symbols ==> KeyOf(symbols[j]) == j
    requires k in left && left <= symbols.Keys && Enumerates(list, symbols - left)
    ensures Enumerates(list + [symbols[k]], symbols - (left - {k}))
  {
    var list', seen := list + [symbols[k]], symbols - (left - {k});
    forall j | j in seen
      ensures seen[j] in list'
    {
      if j != k {
        assert j in symbols - left;
        assert seen[j] in list;
      }
    }
  }

  // ---- One message touches one book ---------------------------------------

  /** The book at a key, or the empty book that would be created there. */
  ghost function BookAt(d: Depth, k: SymbolKey): Book {
    if k in d.books then d.books[k] else Empty(d.depth)
  }

  /** A message performs its operation on its target book and leaves every other symbol's book alone; without a
      target nothing changes at all. */
  lemma ApplyLocal(d: Depth, m: Message)
    requires Wf(d)
    ensures Apply(d, m).1 == Target(d, m).Some?
    ensures Target(d, m).None? ==> Apply(d, m).0 == d
    ensures Target(d, m).Some? ==>
              CommandOf(m) != Nothing &&
              var k, op := Target(d, m).value, CommandOf(m).op;
              var b := Step(BookAt(d, k), op);
              && Apply(d, m).0.books == d.books[k := b]
              && Apply(d, m).0.routes == Reroute(d.routes, op, k, b)
              && (CommandOf(m).ById? ==> k in d.books && op.id in d.books[k].orders)
    ensures d.symbols.Keys <= Apply(d, m).0.symbols.Keys && Apply(d, m).0.depth == d.depth
  {
  }

  ghost function Run(d: Depth, ms: seq<Message>): (r: Depth)
    requires Wf(d)
    ensures Wf(r)
  {
    if ms == [] then d else Apply(Run(d, ms[..|ms| - 1]), ms[|ms| - 1]).0
  }

  // ---- Routing ------------------------------------------------------------

  /** Every live order is routed to the book that holds it; so at most one book holds it. */
  ghost predicate Routed(d: Depth) {
    RoutedIn(d.books, d.routes)
  }

  ghost predicate RoutedIn(books: map<SymbolKey, Book>, routes: map<nat, SymbolKey>) {
    forall k, id :: k in books && id in books[k].orders ==> id in routes && routes[id] == k
  }

  /** The id a message brings in is not live under another symbol. */
  ghost predicate Exclusive(d: Depth, m: Message)
    requires Wf(d)
  {
    Target(d, m).Some? ==>
      forall id :: Brings(CommandOf(m).op, id) ==> LiveOnlyAt(d.books, id, Target(d, m).value)
  }

  /** The order id an operation can introduce. */
  predicate Brings(op: Op, id: nat) {
    (op.OpAdd? && id == op.id) || (op.OpReplace? && id == op.newId)
  }

  ghost predicate LiveOnlyAt(books: map<SymbolKey, Book>, id: nat, k: SymbolKey) {
    forall j :: j in books && j != k ==> id !in books[j].orders
  }

  /** Which ids an operation can leave in a book. */
  ghost predicate IdsAfter(before: Orders, after: Orders, op: Op) {
    && (forall id :: id in after ==> id in before || Brings(op, id))
    && (op.OpDelete? || (op.OpReplace? && op.newId != op.id) ==> op.id !in after)
  }

  lemma StepIds(b: Book, op: Op)
    requires Positive(b.orders)
    ensures IdsAfter(b.orders, Step(b, op).orders, op)
  {
    OrdersTrackNaive(b, op);
  }

  ghost predicate AllPositive(d: Depth) {
    forall k :: k in d.books ==> Positive(d.books[k].orders)
  }

  /** What messages without id clashes keep. */
  ghost predicate Solid(d: Depth) {
    Wf(d) && AllPositive(d) && Routed(d)
  }

  lemma PositiveKept(d: Depth, m: Message)
    requires Wf(d) && AllPositive(d)
    ensures AllPositive(Apply(d, m).0)
  {
    ApplyLocal(d, m);
    if Target(d, m).Some? {
      OrdersTrackNaive(BookAt(d, Target(d, m).value), CommandOf(m).op);
    }
  }

  // ---- What the result of apply tells -------------------------------------

  /** The operation changes a book with these orders. */
  ghost predicate TakesEffect(orders: Orders, op: Op) {
    match op
    case OpAdd(id, _, _, qty, _) => qty > 0 && id !in orders
    case OpModify(id, qty, ts) => id in orders && (qty != orders[id].qty || ts != orders[id].ts)
    case OpReduce(id, qty, ts) => id in orders && (qty > 0 || ts != orders[id].ts)
    case OpDelete(id, _) => id in orders
    case OpReplace(id, newId, price, qty, ts) =>
      id in orders && !(newId == id && orders[id] == Order(orders[id].side, price, qty, ts))
  }

  lemma EffectExact(orders: Orders, op: Op)
    requires Positive(orders)
    ensures NaiveStep(orders, op) != orders <==> TakesEffect(orders, op)
  {
    if !op.OpAdd? && op.id !in orders {
      assert orders - {op.id} == orders;
    } else if op.OpReplace? {
      ReplaceEffect(orders, op);
    }
  }

  lemma ReplaceEffect(orders: Orders, op: Op)
    requires Positive(orders) && op.OpReplace? && op.id in orders
    ensures NaiveStep(orders, op) != orders <==> TakesEffect(orders, op)
  {
    var next := NaiveStep(orders, op);
    if op.newId != op.id {
      assert op.id !in next;
    } else if op.qty > 0 {
      assert next == orders[op.id := Order(orders[op.id].side, op.price, op.qty, op.ts)];
    }
  }

  /** apply reports true for every add, and for an id-only message that reaches an order; the target book's orders then
      change if and only if the operation takes effect, so that an add is reported but ignored exactly when it has no
      shares or its id is live in that book. A false report means that nothing changed at all. */
  lemma ReportExact(d: Depth, m: Message)
    requires Wf(d) && AllPositive(d)
    ensures CommandOf(m).Enter? ==> Apply(d, m).1
    ensures !Apply(d, m).1 ==> Apply(d, m).0 == d
    ensures Apply(d, m).1 ==>
              Target(d, m).Some? && CommandOf(m) != Nothing &&
              var k, op := Target(d, m).value, CommandOf(m).op;
              (BookAt(Apply(d, m).0, k).orders != BookAt(d, k).orders <==> TakesEffect(BookAt(d, k).orders, op))
  {
    ApplyLocal(d, m);
    if Target(d, m).Some? {
      var k, op := Target(d, m).value, CommandOf(m).op;
      OrdersTrackNaive(BookAt(d, k), op);
      EffectExact(BookAt(d, k).orders, op);
    }
  }

  /** The same add twice: the second is reported as a change and changes nothing. */
  lemma IgnoredAddReported(depth: nat, symbol: Symbol)
    ensures var m := Message(1, 0, 0, AddOrder(NewOrder(7, BUY, 100, symbol, 5000)));
            var d := Apply(Fresh(depth), m).0;
            Apply(d, m) == (d, true)
  {
    var m := Message(1, 0, 0, AddOrder(NewOrder(7, BUY, 100, symbol, 5000)));
    var d := Apply(Fresh(depth), m).0;
    var k := KeyOf(symbol);
    assert CommandOf(m) == Enter(symbol, OpAdd(7, BUY, 5000, 100, 0));
    assert 7 in d.books[k].orders && d.routes[7] == k;
    assert d.books[k := d.books[k]] == d.books && d.routes[7 := k] == d.routes;
  }

  // ---- Routes follow the orders -------------------------------------------

  /** Routes keep following the orders when one book changes. */
  lemma RoutesFollow(books: map<SymbolKey, Book>, routes: map<nat, SymbolKey>, k: SymbolKey, b: Book, op: Op)
    requires RoutedIn(books, routes) && !op.OpModify?
    requires IdsAfter(if k in books then books[k].orders else map[], b.orders, op)
    requires !op.OpAdd? ==> k in books && op.id in books[k].orders
    requires forall id :: Brings(op, id) ==> LiveOnlyAt(books, id, k)
    ensures RoutedIn(books[k := b], Reroute(routes, op, k, b))
  {
    var books', routes' := books[k := b], Reroute(routes, op, k, b);
    forall j, id | j in books' && id in books'[j].orders
      ensures id in routes' && routes'[id] == j
    {
      if j != k {
        assert !Brings(op, id);
        assert j in books && id in books[j].orders;
        if !op.OpAdd? {
          assert routes[op.id] == k;
        }
      } else if !Brings(op, id) {
        assert k in books && id in books[k].orders;
      }
    }
  }

  /** A duplicate brought in under another symbol leaves one of the two orders unroutable. */
  lemma RoutesBroken(books: map<SymbolKey, Book>, routes: map<nat, SymbolKey>, k: SymbolKey, b: Book, op: Op, id: nat)
    requires Brings(op, id) && !LiveOnlyAt(books, id, k)
    ensures !RoutedIn(books[k := b], Reroute(routes, op, k, b))
  {
    var books', routes' := books[k := b], Reroute(routes, op, k, b);
    var j :| j in books && j != k && id in books[j].orders;
    assert j in books' && id in books'[j].orders && routes'[id] == k;
  }

  /** Routing survives a message if and only if the id it brings in is not live under another symbol. */
  lemma RoutedExact(d: Depth, m: Message)
    requires Wf(d) && AllPositive(d) && Routed(d)
    ensures Routed(Apply(d, m).0) <==> Exclusive(d, m)
  {
    ApplyLocal(d, m);
    if Target(d, m).Some? {
      var k, op := Target(d, m).value, CommandOf(m).op;
      var b := Step(BookAt(d, k), op);
      StepIds(BookAt(d, k), op);
      if Exclusive(d, m) {
        RoutesFollow(d.books, d.routes, k, b, op);
      } else {
        var id :| Brings(op, id) && !LiveOnlyAt(d.books, id, k);
        RoutesBroken(d.books, d.routes, k, b, op, id);
      }
    }
  }
}
