/** The mutable multi-symbol book. */
module DepthBooks {
  import opened Bytes
  import opened Itch
  import OB = OrderBook
  import opened Routing
  import opened SymbolBooks

  /** books_ holds SymbolBook objects by value, so an operation on one of them reads the stored value, runs the
      SymbolBook method on it, and stores the outcome back under the same key. */
  class DepthBook {
    const depth: nat
    var books: map<SymbolKey, OB.Book>
    var symbols: map<SymbolKey, Symbol>
    var routes: map<nat, SymbolKey>

    function View(): Depth
      reads this
    {
      Depth(depth, books, symbols, routes)
    }

    constructor (depth: nat)
      ensures View() == Fresh(depth) && Wf(View())
    {
      this.depth := depth;
      books, symbols, routes := map[], map[], map[];
    }

    method BookFor(sym: Symbol) returns (key: SymbolKey)
      requires Wf(View())
      modifies this
      ensures View() == WithBook(old(View()), sym) && key == KeyOf(sym)
    {
      key := KeyOf(sym);
      if key !in books {
        var empty := new SymbolBook(depth);
        books := books[key := empty.View()];
        symbols := symbols[key := sym];
      }
    }

    /** Overwrite a symbol's book. */
    method Overwrite(symbol: Symbol, b: OB.Book)
      requires Wf(View())
      modifies this
      ensures Wf(View())
      ensures var e := WithBook(old(View()), symbol); View() == e.(books := e.books[KeyOf(symbol) := b])
    {
      var key := BookFor(symbol);
      books := books[key := b];
    }

    method Enter(symbol: Symbol, op: OB.Op)
      requires Wf(View()) && op.OpAdd?
      modifies this
      ensures View() == ActOn(WithBook(old(View()), symbol), KeyOf(symbol), op)
    {
      var key := BookFor(symbol);
      var b := new SymbolBook.Of(books[key]);
      b.AddOrder(op.id, op.side, op.price, op.qty, op.ts);
      books := books[key := b.View()];
      routes := routes[op.id := key];
    }

    method ReduceById(id: nat, shares: Quantity, ts: u64) returns (changed: bool)
      requires Wf(View())
      modifies this
      ensures changed == Reaches(old(View()), id)
      ensures View() == if changed then ActOn(old(View()), old(routes)[id], OB.OpReduce(id, shares, ts))
                        else old(View())
    {
      if id !in routes {
        return false;
      }
      var key := routes[id];
      var b := new SymbolBook.Of(books[key]);
      changed := b.ReduceOrder(id, shares, ts);
      if changed {
        books := books[key := b.View()];
        if id !in b.orders {
          routes := routes - {id};
        }
      }
    }

    method DeleteById(id: nat, ts: u64) returns (changed: bool)
      requires Wf(View())
      modifies this
      ensures changed == Reaches(old(View()), id)
      ensures View() == if changed then ActOn(old(View()), old(routes)[id], OB.OpDelete(id, ts)) else old(View())
    {
      if id !in routes {
        return false;
      }
      var key := routes[id];
      var b := new SymbolBook.Of(books[key]);
      changed := b.DeleteOrder(id, ts);
      if changed {
        books := books[key := b.View()];
        routes := routes - {id};
      }
    }

    method ReplaceById(id: nat, newId: nat, shares: Quantity, price: Price, ts: u64) returns (changed: bool)
      requires Wf(View())
      modifies this
      ensures changed == Reaches(old(View()), id)
      ensures View() == if changed then ActOn(old(View()), old(routes)[id], OB.OpReplace(id, newId, price, shares, ts))
                        else old(View())
    {
      if id !in routes {
        return false;
      }
      var key := routes[id];
      var b := new SymbolBook.Of(books[key]);
      if id !in b.orders {
        return false;
      }
      var side := b.orders[id].side;
      var _ := b.DeleteOrder(id, ts);
      routes := routes - {id};
      b.AddOrder(newId, side, price, shares, ts);
      routes := routes[newId := key];
      books := books[key := b.View()];
      return true;
    }

    /** An id-only operation, routed to the book that holds the order. */
    method ActById(op: OB.Op) returns (changed: bool)
      requires Wf(View()) && (op.OpReduce? || op.OpDelete? || op.OpReplace?)
      modifies this
      ensures changed == Reaches(old(View()), op.id)
      ensures View() == if changed then ActOn(old(View()), old(routes)[op.id], op) else old(View())
    {
      match op
      case OpReduce(id, shares, ts) => changed := ReduceById(id, shares, ts);
      case OpDelete(id, ts) => changed := DeleteById(id, ts);
      case OpReplace(id, newId, price, shares, ts) => changed := ReplaceById(id, newId, shares, price, ts);
    }

    /** Apply one ITCH message; the result says whether it addressed a book entry. */
    method ApplyMessage(m: Message) returns (changed: bool)
      requires Wf(View())
      modifies this
      ensures (View(), changed) == Apply(old(View()), m) && Wf(View())
    {
      match CommandOf(m)
      case Enter(symbol, op) =>
        Enter(symbol, op);
        changed := true;
      case ById(op) => changed := ActById(op);
      case Nothing => changed := false;
    }

    /** The symbol an order id is routed to. */
    method SymbolForOrder(id: nat) returns (sym: Option<Symbol>)
      requires Wf(View())
      ensures sym.Some? <==> id in routes
      ensures sym.Some? ==> KeyOf(sym.value) == routes[id]
    {
      if id !in routes || routes[id] !in symbols {
        return None;
      }
      return Some(symbols[routes[id]]);
    }

    /** The symbols seen so far, in whatever order the map is walked. */
    method AllSymbols() returns (list: seq<Symbol>)
      requires Wf(View())
      ensures Enumerates(list, symbols)
    {
      var keys := symbols.Keys;
      list := [];
      while keys != {}
        invariant keys <= symbols.Keys
        invariant Enumerates(list, symbols - keys)
        decreases |keys|
      {
        var k :| k in keys;
        EnumerateOneMore(list, symbols, keys, k);
        keys := keys - {k};
        list := list + [symbols[k]];
      }
      assert symbols - keys == symbols;
    }
  }
}
