/** The feed handler as a state machine: one datagram at a time, in any mode. */
module Feed {
  import opened Bytes
  import opened Itch
  import OB = OrderBook
  import opened Routing
  import opened GapDetectors
  import opened GateRuns
  import opened Rebuild
  import Parser
  import RecoveryWire

  const HEADER: nat := 10  // transport header: [u16 locate][u64 sequence]

  datatype Counters = Counters(add: nat, execute: nat, cancel: nat, delete: nat, replace: nat, other: nat)

  datatype Stats = Stats(bytesIn: nat, datagrams: nat, applied: nat, parseErrors: nat, gaps: nat, requested: nat,
                         snapshots: nat, stale: nat, byType: Counters)

  datatype Feed = Feed(book: Depth, expected: Expected, stats: Stats)

  function NoStats(): Stats {
    Stats(0, 0, 0, 0, 0, 0, 0, 0, Counters(0, 0, 0, 0, 0, 0))
  }

  function Start(depth: nat): Feed {
    Feed(Fresh(depth), map[], NoStats())
  }

  function Tally(c: Counters, b: Body): Counters {
    match b
    case AddOrder(_) => c.(add := c.add + 1)
    case AddOrderMpid(_, _) => c.(add := c.add + 1)
    case Executed(_) => c.(execute := c.execute + 1)
    case ExecutedWithPrice(_, _, _) => c.(execute := c.execute + 1)
    case Cancel(_, _) => c.(cancel := c.cancel + 1)
    case Delete(_) => c.(delete := c.delete + 1)
    case Replace(_, _, _, _) => c.(replace := c.replace + 1)
    case SystemEvent(_) => c.(other := c.other + 1)
    case StockDirectory(_, _, _, _) => c.(other := c.other + 1)
    case Trade(_, _) => c.(other := c.other + 1)
  }

  /** Put the rebuilt book of a snapshot in place of the symbol's book; routes are left as they are. */
  ghost function Reinstate(d: Depth, r: Response): (d': Depth)
    requires Wf(d)
    ensures Wf(d')
  {
    var e := WithBook(d, r.symbol);
    e.(books := e.books[KeyOf(r.symbol) := Rebuilt(r.bids, r.asks)])
  }

  /** apply_snapshot. */
  ghost function ApplySnapshot(f: Feed, r: Response): Feed
    requires Wf(f.book)
  {
    Feed(Reinstate(f.book, r), f.expected[r.loc := Next(r.lastSeq)], f.stats.(snapshots := f.stats.snapshots + 1))
  }

  /** Apply a parsed message, or count a frame that did not parse. */
  ghost function Concluded(f: Feed, p: Parser.ParseResult): (r: (Feed, bool))
    requires Wf(f.book) && (p.message.Some? <==> p.status == Parser.Ok)
    ensures Wf(r.0.book) && r.0.expected == f.expected
  {
    if p.status != Parser.Ok then (f.(stats := f.stats.(parseErrors := f.stats.parseErrors + 1)), false)
    else
      var m := p.message.value;
      var (d, changed) := Apply(f.book, m);
      var s := f.stats;
      (f.(book := d, stats := if changed then s.(applied := s.applied + 1, byType := Tally(s.byType, m.body)) else s),
       true)
  }

  /** The decoding half of on_datagram. */
  ghost function DecodeAndApply(f: Feed, body: seq<byte>): (r: (Feed, bool))
    requires Wf(f.book)
    ensures Wf(r.0.book) && r.0.expected == f.expected
  {
    Concluded(f, Parser.Decode(body))
  }

  /** What the gate does to the handler before decoding. */
  ghost function Gated(f: Feed, mode: Mode, a: Arrival): (r: Feed)
    requires Wf(f.book)
    ensures Wf(r.book) && r.expected == Gate(f.expected, mode, a).expected
  {
    var g := Gate(f.expected, mode, a);
    var s := f.stats;
    Feed(if g.installed.Some? then Reinstate(f.book, g.installed.value) else f.book,
         g.expected,
         s.(stale := s.stale + (if g.verdict == TooOld then 1 else 0),
            gaps := s.gaps + (if g.gap.Some? then 1 else 0),
            requested := s.requested + (if g.gap.Some? && mode == Recover then 1 else 0),
            snapshots := s.snapshots + (if g.installed.Some? then 1 else 0)))
  }

  /** What the gate does at a gap, mode by mode. */
  lemma GatedAtGap(f: Feed, mode: Mode, a: Arrival)
    requires Wf(f.book) && a.loc in f.expected && f.expected[a.loc] < a.num
    ensures var g, f', s := Gate(f.expected, mode, a), Gated(f, mode, a), f.stats.(gaps := f.stats.gaps + 1);
            && (mode == Stall ==> g.verdict == Blocked && f' == f.(stats := s))
            && (mode == Skip ==> g.verdict == Pass && f'.book == f.book && f'.stats == s &&
                                 f'.expected == Advance(f.expected[a.loc := a.num], a.loc, a.num))
            && (mode == Recover ==>
                  var s1 := s.(requested := s.requested + 1);
                  if a.reply.None? then g.verdict == Blocked && f' == f.(stats := s1)
                  else
                    var r := a.reply.value;
                    var e := f.expected[r.loc := Next(r.lastSeq)];
                    && g.verdict == (if a.num < Lookup(e, a.loc) then CoveredBySnapshot else Pass)
                    && f'.book == Reinstate(f.book, r) && f'.stats == s1.(snapshots := s1.snapshots + 1)
                    && f'.expected == if g.verdict == Pass then Advance(e, a.loc, a.num) else e)
  {
  }

  /** A received datagram, with what the recovery server would answer if it exposed a gap. */
  datatype Datagram = Datagram(data: seq<byte>, reply: Option<Response>)

  function LocateOf(data: seq<byte>): u16
    requires |data| >= HEADER
  {
    Take16(data[..2])
  }

  function NumberOf(data: seq<byte>): u64
    requires |data| >= HEADER
  {
    Take64(data[2..][..8])
  }

  function Counted(f: Feed, data: seq<byte>): Feed {
    f.(stats := f.stats.(bytesIn := f.stats.bytesIn + |data|, datagrams := f.stats.datagrams + 1))
  }

  /** on_datagram: the new state, and whether the payload was applied or found covered by a snapshot. */
  ghost function OnDatagram(f: Feed, mode: Mode, dg: Datagram): (r: (Feed, bool))
    requires Wf(f.book)
    ensures Wf(r.0.book)
  {
    var f0 := Counted(f, dg.data);
    if |dg.data| < HEADER + 2 then (f0.(stats := f0.stats.(parseErrors := f0.stats.parseErrors + 1)), false)
    else if NumberOf(dg.data) == 0 then DecodeAndApply(f0, dg.data[HEADER..])
    else
      var a := Arrival(LocateOf(dg.data), NumberOf(dg.data), dg.reply);
      var f1 := Gated(f0, mode, a);
      match Gate(f.expected, mode, a).verdict
      case TooOld => (f1, false)
      case Blocked => (f1, false)
      case CoveredBySnapshot => (f1, true)
      case Pass => DecodeAndApply(f1, dg.data[HEADER..])
  }

  ghost function FeedRun(f: Feed, mode: Mode, dgs: seq<Datagram>): (r: Feed)
    requires Wf(f.book)
    ensures Wf(r.book)
  {
    if dgs == [] then f else OnDatagram(FeedRun(f, mode, dgs[..|dgs| - 1]), mode, dgs[|dgs| - 1]).0
  }

  /** The numbered arrival a datagram stands for, if any. */
  function ArrivalOf(dg: Datagram): seq<Arrival> {
    if |dg.data| >= HEADER + 2 && NumberOf(dg.data) != 0
    then [Arrival(LocateOf(dg.data), NumberOf(dg.data), dg.reply)] else []
  }

  function ArrivalsOf(dgs: seq<Datagram>): seq<Arrival> {
    if dgs == [] then [] else ArrivalsOf(dgs[..|dgs| - 1]) + ArrivalOf(dgs[|dgs| - 1])
  }

  lemma StepFollowsGate(f: Feed, mode: Mode, dg: Datagram)
    requires Wf(f.book)
    ensures var a := ArrivalOf(dg);
            OnDatagram(f, mode, dg).0.expected == if a == [] then f.expected else Gate(f.expected, mode, a[0]).expected
  {
  }

  lemma GateRunAppend(e: Expected, mode: Mode, arrivals: seq<Arrival>, more: seq<Arrival>)
    requires |more| <= 1
    ensures GateRun(e, mode, arrivals + more) ==
            var e1 := GateRun(e, mode, arrivals);
            if more == [] then e1 else Gate(e1, mode, more[0]).expected
  {
    if more == [] {
      assert arrivals + more == arrivals;
    } else {
      assert (arrivals + more)[..|arrivals|] == arrivals;
    }
  }

  /** The handler's sequence tracking is the gate's, so everything proved about runs of the gate holds of runs of
      the handler on arbitrary datagrams. */
  lemma {:induction false} FeedFollowsGate(f: Feed, mode: Mode, dgs: seq<Datagram>)
    requires Wf(f.book)
    ensures FeedRun(f, mode, dgs).expected == GateRun(f.expected, mode, ArrivalsOf(dgs))
  {
    if dgs != [] {
      var init, dg := dgs[..|dgs| - 1], dgs[|dgs| - 1];
      FeedFollowsGate(f, mode, init);
      StepFollowsGate(FeedRun(f, mode, init), mode, dg);
      GateRunAppend(f.expected, mode, ArrivalsOf(init), ArrivalOf(dg));
    }
  }

  /** Whatever datagrams arrive, in whatever order, the handler knows the fate of every number of every locate from
      the first one seen, or the one the locate was started with, to the one it expects next. */
  lemma FeedSettles(f: Feed, mode: Mode, dgs: seq<Datagram>, loc: u16)
    requires Wf(f.book) && Sane(mode, ArrivalsOf(dgs), loc)
    ensures Settles(f.expected, FeedRun(f, mode, dgs).expected, History(f.expected, mode, ArrivalsOf(dgs), loc), loc)
  {
    FeedFollowsGate(f, mode, dgs);
    Tiling(f.expected, mode, ArrivalsOf(dgs), loc);
  }

  // ---- Recovery round trip ------------------------------------------------

  /** The snapshot a server holding book b sends for a locate. */
  function SnapshotOf(b: OB.Book, loc: u16, lastSeq: u64, symbol: Symbol): Response {
    Response(loc, lastSeq, symbol, b.topBids, b.topAsks)
  }

  /** Only the symbol's book is put in place; routes stay, and an unknown symbol is entered in the index. */
  lemma ReinstateLocal(d: Depth, r: Response)
    requires Wf(d)
    ensures Reinstate(d, r).books == d.books[KeyOf(r.symbol) := Rebuilt(r.bids, r.asks)]
    ensures Reinstate(d, r).routes == d.routes && Reinstate(d, r).depth == d.depth
    ensures Reinstate(d, r).symbols ==
            if KeyOf(r.symbol) in d.books then d.symbols else d.symbols[KeyOf(r.symbol) := r.symbol]
  {
  }

  lemma TopsRebuild(b: OB.Book)
    requires OB.Refines(b)
    ensures var got := Rebuilt(b.topBids, b.topAsks);
            got.topBids == b.topBids && got.topAsks == b.topAsks && OB.Refines(got)
  {
    OB.TopsSound(b);
    RebuildExact(b.topBids, b.topAsks);
    RebuiltRefines(b.topBids, b.topAsks);
    SortedFit(b.topBids, true);
    SortedFit(b.topAsks, false);
  }

  lemma SnapshotWire(r: Response)
    requires RecoveryWire.Fits(r)
    ensures var frame := RecoveryWire.ReplyFrame(r);
            RecoveryWire.Announced(frame) && RecoveryWire.Decode(frame) == (RecoveryWire.Reply(r), |frame|)
  {
    RecoveryWire.FramesRoundTrip(r, []);
    assert RecoveryWire.ReplyFrame(r) + [] == RecoveryWire.ReplyFrame(r);
  }

  /** What a requester hands to the handler for a frame received from the server. */
  function Received(frame: seq<byte>): Option<Response>
    requires RecoveryWire.Announced(frame)
  {
    var f := RecoveryWire.Decode(frame).0;
    if f.Reply? then Some(f.r) else None
  }

  /** For every book in step with its orders: encoding its top levels as a snapshot, decoding them from the wire
      and installing them gives the receiver exactly the same levels, price, total and count, on both sides, in a
      book that is again in step; all other symbols keep their books. */
  lemma RecoveryRoundTrip(f: Feed, b: OB.Book, loc: u16, lastSeq: u64, symbol: Symbol)
    requires Wf(f.book) && OB.Refines(b) && RecoveryWire.Fits(SnapshotOf(b, loc, lastSeq, symbol))
    ensures var frame := RecoveryWire.ReplyFrame(SnapshotOf(b, loc, lastSeq, symbol));
            && RecoveryWire.Announced(frame) && Received(frame).Some?
            && var f' := ApplySnapshot(f, Received(frame).value);
               && f'.expected == f.expected[loc := Next(lastSeq)]
               && exists got :: f'.book.books == f.book.books[KeyOf(symbol) := got] &&
                    got.topBids == b.topBids && got.topAsks == b.topAsks && OB.Refines(got)
  {
    var r := SnapshotOf(b, loc, lastSeq, symbol);
    SnapshotWire(r);
    ReinstateLocal(f.book, r);
    TopsRebuild(b);
  }
}
