/** Runs of the feed handler that apply messages and install snapshots: when its books stay in step with their orders,
    and what an empty answer of the recovery server does. */
module FeedRuns {
  import opened Bytes
  import opened Itch
  import opened Ladder
  import OB = OrderBook
  import opened Routing
  import opened RoutingRuns
  import opened GapDetectors
  import opened Rebuild
  import opened Feed
  import Parser

  // ---- Books in step ------------------------------------------------------

  /** The book after the gap check of a datagram, before its message is applied. */
  ghost function AfterGate(f: Feed, mode: Mode, dg: Datagram): (d: Depth)
    requires Wf(f.book)
    ensures Wf(d)
  {
    if |dg.data| < HEADER + 2 || NumberOf(dg.data) == 0 then f.book
    else Gated(f, mode, Arrival(LocateOf(dg.data), NumberOf(dg.data), dg.reply)).book
  }

  /** Every ladder agrees with its orders at every point of a run: before it, and after each gap check and each
      message. */
  ghost predicate InStepAlong(f: Feed, mode: Mode, dgs: seq<Datagram>)
    requires Wf(f.book)
  {
    AllRefine(FeedRun(f, mode, dgs).book) &&
    (dgs == [] || var init := dgs[..|dgs| - 1];
                  InStepAlong(f, mode, init) && AllRefine(AfterGate(FeedRun(f, mode, init), mode, dgs[|dgs| - 1])))
  }

  /** No price level holds 2^32 shares or more at any of these points. */
  ghost predicate FitsAlong(f: Feed, mode: Mode, dgs: seq<Datagram>)
    requires Wf(f.book)
  {
    AllFit(FeedRun(f, mode, dgs).book) &&
    (dgs == [] || var init := dgs[..|dgs| - 1];
                  FitsAlong(f, mode, init) && AllFit(AfterGate(FeedRun(f, mode, init), mode, dgs[|dgs| - 1])))
  }

  /** Installing a snapshot keeps all books in step if and only if the level sums fit. */
  lemma ReinstateStep(d: Depth, r: Response)
    requires Wf(d) && AllRefine(d)
    ensures AllRefine(Reinstate(d, r)) <==> AllFit(Reinstate(d, r))
  {
    ReinstateLocal(d, r);
    RebuiltInStep(r.bids, r.asks);
    AllRefineFits(d);
    OneBookChanged(d, Reinstate(d, r), KeyOf(r.symbol), Rebuilt(r.bids, r.asks));
  }

  lemma GateInStep(f: Feed, mode: Mode, dg: Datagram)
    requires Wf(f.book) && AllRefine(f.book)
    ensures AllRefine(AfterGate(f, mode, dg)) <==> AllFit(AfterGate(f, mode, dg))
  {
    AllRefineFits(f.book);
    if |dg.data| >= HEADER + 2 && NumberOf(dg.data) != 0 {
      var a := Arrival(LocateOf(dg.data), NumberOf(dg.data), dg.reply);
      var installed := Gate(f.expected, mode, a).installed;
      if installed.Some? {
        ReinstateStep(f.book, installed.value);
      }
    }
  }

  /** The message of a datagram, if it gets as far as the book. */
  ghost predicate Applied(before: Depth, after: Depth) {
    Wf(before) && (after == before || exists m :: after == Apply(before, m).0)
  }

  lemma ConcludedApplies(f: Feed, p: Parser.ParseResult)
    requires Wf(f.book) && (p.message.Some? <==> p.status == Parser.Ok)
    ensures Applied(f.book, Concluded(f, p).0.book)
  {
    if p.status == Parser.Ok {
      assert Concluded(f, p).0.book == Apply(f.book, p.message.value).0;
    }
  }

  lemma DatagramApplies(f: Feed, mode: Mode, dg: Datagram)
    requires Wf(f.book)
    ensures Applied(AfterGate(f, mode, dg), OnDatagram(f, mode, dg).0.book)
  {
    if |dg.data| >= HEADER + 2 {
      var f0 := Counted(f, dg.data);
      var body := dg.data[HEADER..];
      if NumberOf(dg.data) == 0 {
        ConcludedApplies(f0, Parser.Decode(body));
      } else {
        var a := Arrival(LocateOf(dg.data), NumberOf(dg.data), dg.reply);
        ConcludedApplies(Gated(f0, mode, a), Parser.Decode(body));
      }
    }
  }

  lemma AppliedInStep(before: Depth, after: Depth)
    requires Applied(before, after) && AllRefine(before)
    ensures AllRefine(after) <==> AllFit(after)
  {
    AllRefineFits(before);
    if after != before {
      var m :| after == Apply(before, m).0;
      RefineStep(before, m);
    }
  }

  /** Over every run of the handler, in every mode, with arbitrary datagrams and arbitrary answers installed: all
      ladders and top lists agree with the live orders at every point if and only if no price level ever reaches 2^32
      shares. */
  lemma {:induction false} FeedRefinementExact(f: Feed, mode: Mode, dgs: seq<Datagram>)
    requires Wf(f.book) && AllRefine(f.book)
    ensures InStepAlong(f, mode, dgs) <==> FitsAlong(f, mode, dgs)
    decreases |dgs|
  {
    if dgs == [] {
      AllRefineFits(f.book);
    } else {
      var init, dg := dgs[..|dgs| - 1], dgs[|dgs| - 1];
      var f1 := FeedRun(f, mode, init);
      FeedRefinementExact(f, mode, init);
      if AllRefine(f1.book) {
        GateInStep(f1, mode, dg);
        if AllRefine(AfterGate(f1, mode, dg)) {
          DatagramApplies(f1, mode, dg);
          AppliedInStep(AfterGate(f1, mode, dg), FeedRun(f, mode, dgs).book);
        }
      } else {
        assert !InStepAlong(f, mode, init);
      }
    }
  }

  // ---- Empty answers ------------------------------------------------------

  lemma EmptyRebuilds()
    ensures Rebuilt([], []) == OB.Empty(0)
  {
  }

  /** An empty answer leaves the books as they were if and only if the symbol it names already has a blank book without
      depth, such as an earlier empty answer leaves; otherwise it puts such a book in place. */
  lemma EmptyAnswerExact(d: Depth, r: Response)
    requires Wf(d) && r.bids == [] && r.asks == []
    ensures Reinstate(d, r).books == d.books[KeyOf(r.symbol) := OB.Empty(0)]
    ensures Reinstate(d, r).books == d.books <==> KeyOf(r.symbol) in d.books && d.books[KeyOf(r.symbol)] == OB.Empty(0)
  {
    EmptyRebuilds();
    ReinstateLocal(d, r);
    var k := KeyOf(r.symbol);
    if k in d.books && d.books[k] == OB.Empty(0) {
      assert d.books[k := OB.Empty(0)] == d.books;
    }
  }

  /** The answer of a server that does not know the locate: locate 0, number 0, no symbol and no levels. */
  function BlankAnswer(): Response {
    Response(0, 0, [0, 0, 0, 0, 0, 0, 0, 0], [], [])
  }

  /** At a gap of another locate the blank answer adds a book for the blank symbol to a handler without any, makes it
      expect number 1 of locate 0, and lets the datagram pass: the missing numbers are not asked for again. */
  lemma BlankAnswerPasses(f: Feed, loc: u16, num: u64)
    requires f.book == Fresh(f.book.depth) && loc != 0 && loc in f.expected && f.expected[loc] < num < MAX_SEQ
    ensures var a := Arrival(loc, num, Some(BlankAnswer()));
            && Wf(f.book) && Gate(f.expected, Recover, a).verdict == Pass
            && Gated(f, Recover, a).book.books == map[KeyOf(BlankAnswer().symbol) := OB.Empty(0)]
            && Gated(f, Recover, a).expected == f.expected[0 := 1][loc := num + 1]
  {
    BlankGate(f.expected, loc, num);
    EmptyAnswerExact(f.book, BlankAnswer());
  }

  lemma BlankGate(e: Expected, loc: u16, num: u64)
    requires loc != 0 && loc in e && e[loc] < num < MAX_SEQ
    ensures Gate(e, Recover, Arrival(loc, num, Some(BlankAnswer()))) ==
            GateResult(e[0 := 1][loc := num + 1], Pass, Some(e[loc]), Some(BlankAnswer()))
  {
  }

  // ---- Orders from before a snapshot --------------------------------------

  /** After a snapshot, an id-only message about an order routed to its symbol reaches an order if and only if its id is
      one of the synthetic ids; otherwise it changes nothing. */
  lemma AfterSnapshotExact(d: Depth, r: Response, m: Message)
    requires Wf(d) && CommandOf(m).ById?
    requires CommandOf(m).op.id in d.routes && d.routes[CommandOf(m).op.id] == KeyOf(r.symbol)
    ensures Apply(Reinstate(d, r), m).1 <==> FIRST_SYNTHETIC <= CommandOf(m).op.id < EndOfIds(r.bids, r.asks)
    ensures !Apply(Reinstate(d, r), m).1 ==> Apply(Reinstate(d, r), m).0 == Reinstate(d, r)
  {
    ReinstateLocal(d, r);
    RebuiltIds(r.bids, r.asks, CommandOf(m).op.id);
  }

  /** A delete of a synthetic id takes the snapshot's order out. */
  lemma SyntheticDeleted(d: Depth, r: Response, m: Message, k: SymbolKey)
    requires Wf(d) && m.body.Delete? && k == KeyOf(r.symbol) && m.body.id in d.routes && d.routes[m.body.id] == k
    requires FIRST_SYNTHETIC <= m.body.id < EndOfIds(r.bids, r.asks)
    ensures var d', gone := Reinstate(d, r), Apply(Reinstate(d, r), m);
            && k in d'.books && m.body.id in d'.books[k].orders && gone.1
            && k in gone.0.books && m.body.id !in gone.0.books[k].orders
  {
    RebuiltIds(r.bids, r.asks, m.body.id);
    ReinstateLocal(d, r);
    AfterSnapshotExact(d, r, m);
    DeleteRemoves(Reinstate(d, r), m, k);
  }

  /** An order with id 2^60, then a snapshot of its symbol with one order of 40 shares, then a delete of that id: the
      delete is reported, and removes the snapshot's order. */
  lemma SyntheticIdReached(depth: nat, symbol: Symbol)
    ensures var add := Message(1, 0, 0, AddOrder(NewOrder(FIRST_SYNTHETIC, BUY, 100, symbol, 5000)));
            var r := Response(1, 9, symbol, [Level(5000, 40, 1)], []);
            var d := Reinstate(Apply(Fresh(depth), add).0, r);
            var k, gone := KeyOf(symbol), Apply(d, Message(1, 0, 0, Delete(FIRST_SYNTHETIC)));
            && k in d.books && FIRST_SYNTHETIC in d.books[k].orders && gone.1
            && k in gone.0.books && FIRST_SYNTHETIC !in gone.0.books[k].orders
  {
    var add := Message(1, 0, 0, AddOrder(NewOrder(FIRST_SYNTHETIC, BUY, 100, symbol, 5000)));
    var r := Response(1, 9, symbol, [Level(5000, 40, 1)], []);
    AddEnters(Fresh(depth), add);
    OneSlice(Level(5000, 40, 1));
    SyntheticDeleted(Apply(Fresh(depth), add).0, r, Message(1, 0, 0, Delete(FIRST_SYNTHETIC)), KeyOf(symbol));
  }

  lemma OneSlice(l: Level)
    requires l.total > 0 && l.count == 1
    ensures EndOfIds([l], []) == FIRST_SYNTHETIC + 1
  {
    assert [l][..0] == [] && SplitAll([]) == 0;
    assert SplitAll([l]) == SplitAll([l][..0]) + Split(l);
  }

  lemma DeleteRemoves(d: Depth, m: Message, k: SymbolKey)
    requires Wf(d) && m.body.Delete? && Apply(d, m).1 && m.body.id in d.routes && d.routes[m.body.id] == k
    ensures k in Apply(d, m).0.books && m.body.id !in Apply(d, m).0.books[k].orders
  {
    ApplyLocal(d, m);
  }
}
