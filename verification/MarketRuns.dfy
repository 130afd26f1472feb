/** Runs of the multi-symbol book against the flat market of orders: they agree at every point as long as no id is
    brought in while it is live under another symbol. */
module MarketRuns {
  import opened Itch
  import OB = OrderBook
  import opened Routing
  import opened RoutingRuns
  import opened MessageEffects

  /** The market after a list of messages, by their fields alone. */
  function TradingRun(mk: Market, ms: seq<Message>): Market {
    if ms == [] then mk
    else
      var m := ms[|ms| - 1];
      Trading(TradingRun(mk, ms[..|ms| - 1]), m.body, m.ts)
  }

  /** No message brings in an id that is live under another symbol at that point. */
  ghost predicate ClashFree(mk: Market, ms: seq<Message>) {
    ms == [] || (var init := ms[..|ms| - 1];
                 ClashFree(mk, init) && !Clashes(TradingRun(mk, init), ms[|ms| - 1].body))
  }

  lemma LiveOnlyExact(d: Depth, k: SymbolKey, id: nat)
    requires Solid(d)
    ensures LiveOnlyAt(d.books, id, k) <==> (id in MarketOf(d) ==> MarketOf(d)[id].key == k)
  {
    if id in MarketOf(d) {
      MarketComplete(d, MarketOf(d)[id].key, id);
    }
    forall j | j in d.books && id in d.books[j].orders
      ensures id in MarketOf(d) && MarketOf(d)[id].key == j
    {
      MarketComplete(d, j, id);
    }
  }

  /** The operation a message with these fields brings an id in by, and the book it is for. */
  lemma BroughtIn(d: Depth, m: Message)
    requires Solid(d)
    ensures m.body.AddOrder? || m.body.AddOrderMpid? ==>
              (Exclusive(d, m) <==> LiveOnlyAt(d.books, m.body.order.id, KeyOf(m.body.order.symbol)))
    ensures m.body.Replace? ==>
              (Exclusive(d, m) <==> Reaches(d, m.body.id) ==> LiveOnlyAt(d.books, m.body.newId, d.routes[m.body.id]))
    ensures !m.body.AddOrder? && !m.body.AddOrderMpid? && !m.body.Replace? ==> Exclusive(d, m)
  {
    var c := CommandOf(m);
    if c.Enter? {
      assert Brings(c.op, m.body.order.id);
    } else if m.body.Replace? {
      assert Brings(c.op, m.body.newId);
    }
  }

  lemma ClashExact(d: Depth, m: Message)
    requires Solid(d)
    ensures Exclusive(d, m) <==> !Clashes(MarketOf(d), m.body)
  {
    BroughtIn(d, m);
    var b := m.body;
    if b.AddOrder? || b.AddOrderMpid? {
      LiveOnlyExact(d, KeyOf(b.order.symbol), b.order.id);
    } else if b.Replace? && Reaches(d, b.id) {
      LiveOnlyExact(d, d.routes[b.id], b.newId);
    }
  }

  lemma SolidStep(d: Depth, m: Message)
    requires Solid(d) && !Clashes(MarketOf(d), m.body)
    ensures Solid(Apply(d, m).0)
  {
    ClashExact(d, m);
    PositiveKept(d, m);
    RoutedExact(d, m);
  }

  lemma MarketStep(d: Depth, m: Message, d': Depth, mk: Market)
    requires Solid(d) && MarketOf(d) == mk && !Clashes(mk, m.body) && d' == Apply(d, m).0
    ensures Solid(d') && MarketOf(d') == Trading(mk, m.body, m.ts)
  {
    SolidStep(d, m);
    MessageTrades(d, m, d', mk, Trading(mk, m.body, m.ts));
  }

  /** For every run without a clash, the live orders of all books together are what the messages' fields say. */
  lemma {:induction false} MarketRun(d: Depth, mk: Market, ms: seq<Message>)
    requires Solid(d) && mk == MarketOf(d) && ClashFree(mk, ms)
    ensures Solid(Run(d, ms)) && MarketOf(Run(d, ms)) == TradingRun(mk, ms)
    decreases |ms|
  {
    if ms != [] {
      var init, m := ms[..|ms| - 1], ms[|ms| - 1];
      MarketRun(d, mk, init);
      MarketStep(Run(d, init), m, Run(d, ms), TradingRun(mk, init));
    }
  }

  lemma ExclusiveLast(d: Depth, ms: seq<Message>, init: seq<Message>, m: Message)
    requires Wf(d) && ms == init + [m] && ExclusiveRun(d, ms)
    ensures ExclusiveRun(d, init) && Exclusive(Run(d, init), m)
  {
    ExclusivePrefix(d, ms, |init|);
    assert ms[..|init|] == init && ms[|init|] == m;
  }

  lemma ExclusiveMore(d: Depth, ms: seq<Message>, init: seq<Message>, m: Message)
    requires Wf(d) && ms == init + [m] && ExclusiveRun(d, init) && Exclusive(Run(d, init), m)
    ensures ExclusiveRun(d, ms)
  {
    forall i | 0 <= i < |ms|
      ensures Exclusive(Run(d, ms[..i]), ms[i])
    {
      ExclusiveAt(d, ms, init, m, i);
    }
  }

  lemma ExclusiveAt(d: Depth, ms: seq<Message>, init: seq<Message>, m: Message, i: nat)
    requires Wf(d) && ms == init + [m] && ExclusiveRun(d, init) && Exclusive(Run(d, init), m) && i <= |init|
    ensures Exclusive(Run(d, ms[..i]), ms[i])
  {
    if i < |init| {
      assert ms[..i] == init[..i];
    } else {
      assert ms[..i] == init;
    }
  }

  lemma {:induction false} ClashFreeRuns(d: Depth, ms: seq<Message>)
    requires Solid(d)
    ensures ClashFree(MarketOf(d), ms) <==> ExclusiveRun(d, ms)
    decreases |ms|
  {
    if ms != [] {
      var init, m := ms[..|ms| - 1], ms[|ms| - 1];
      assert ms == init + [m];
      ClashFreeRuns(d, init);
      if ClashFree(MarketOf(d), init) {
        MarketRun(d, MarketOf(d), init);
        ClashExact(Run(d, init), m);
        if !Clashes(TradingRun(MarketOf(d), init), m.body) {
          ExclusiveMore(d, ms, init, m);
        }
      }
      if ExclusiveRun(d, ms) {
        ExclusiveLast(d, ms, init, m);
      }
    }
  }

  /** And clashes are the only thing that breaks it: every live order stays within reach at every point of a run if and
      only if no clash occurs. */
  lemma ClashFreeExact(d: Depth, ms: seq<Message>)
    requires Solid(d)
    ensures ClashFree(MarketOf(d), ms) <==> forall i :: 0 <= i <= |ms| ==> Routed(Run(d, ms[..i]))
  {
    ClashFreeRuns(d, ms);
    RoutingExact(d, ms);
  }

  lemma DepthKept(d: Depth, m: Message, depth: nat)
    requires Wf(d) && AllPositive(d) && d.depth == depth && forall k :: k in d.books ==> d.books[k].depth == depth
    ensures forall k :: k in Apply(d, m).0.books ==> Apply(d, m).0.books[k].depth == depth
  {
    ApplyLocal(d, m);
    if Target(d, m).Some? {
      OB.OrdersTrackNaive(BookAt(d, Target(d, m).value), CommandOf(m).op);
    }
  }

  /** Every book that messages bring about is as deep as the whole. */
  lemma {:induction false} AllAsDeep(depth: nat, ms: seq<Message>)
    ensures var d := Run(Fresh(depth), ms);
            d.depth == depth && AllPositive(d) && forall k :: k in d.books ==> d.books[k].depth == depth
    decreases |ms|
  {
    PositiveRun(Fresh(depth), ms);
    if ms != [] {
      var init := ms[..|ms| - 1];
      PositiveRun(Fresh(depth), init);
      AllAsDeep(depth, init);
      DepthKept(Run(Fresh(depth), init), ms[|ms| - 1], depth);
    }
  }
}
