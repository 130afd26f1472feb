/** The result and the counters of the feed handler, for one datagram and over whole runs. */
module FeedCounters {
  import opened Bytes
  import opened Itch
  import opened Routing
  import opened GapDetectors
  import opened Feed
  import opened FeedEvents

  /** The numbered datagram is behind, or ahead of, the number its locate expects. */
  predicate Behind(e: Expected, dg: Datagram) {
    |dg.data| >= 12 && NumberOf(dg.data) != 0 && LocateOf(dg.data) in e && NumberOf(dg.data) < e[LocateOf(dg.data)]
  }

  predicate Ahead(e: Expected, dg: Datagram) {
    |dg.data| >= 12 && NumberOf(dg.data) != 0 && LocateOf(dg.data) in e && NumberOf(dg.data) > e[LocateOf(dg.data)]
  }

  /** The payload gets to the decoder. */
  predicate Decodes(e: Expected, mode: Mode, dg: Datagram) {
    && |dg.data| >= 12
    && (NumberOf(dg.data) == 0 || Passing(e, mode, Arrival(LocateOf(dg.data), NumberOf(dg.data), dg.reply)))
  }

  /** The datagram is answered for by the snapshot it caused to be installed. */
  predicate Spared(e: Expected, mode: Mode, dg: Datagram) {
    && |dg.data| >= 12 && NumberOf(dg.data) != 0
    && Shielded(e, mode, Arrival(LocateOf(dg.data), NumberOf(dg.data), dg.reply))
  }

  /** The message counters: all applied messages, and six kinds of them. */
  datatype Kind = Any | Adds | Executions | Cancels | Deletes | Replaces | Others

  predicate Of(kind: Kind, b: Body) {
    match kind
    case Any => true
    case Adds => b.AddOrder? || b.AddOrderMpid?
    case Executions => b.Executed? || b.ExecutedWithPrice?
    case Cancels => b.Cancel?
    case Deletes => b.Delete?
    case Replaces => b.Replace?
    case Others => b.SystemEvent? || b.StockDirectory? || b.Trade?
  }

  function CountOf(s: Stats, kind: Kind): nat {
    match kind
    case Any => s.applied
    case Adds => s.byType.add
    case Executions => s.byType.execute
    case Cancels => s.byType.cancel
    case Deletes => s.byType.delete
    case Replaces => s.byType.replace
    case Others => s.byType.other
  }

  /** How many messages of a kind the book reports as changes. */
  ghost function Reported(d: Depth, events: seq<Event>, kind: Kind): nat
    requires Wf(d)
  {
    if events == [] then 0
    else
      var init, last := events[..|events| - 1], events[|events| - 1];
      Reported(d, init, kind) + One(last.Told? && Apply(Replay(d, init), last.m).1 && Of(kind, last.m.body))
  }

  function One(b: bool): nat {
    if b then 1 else 0
  }

  lemma ReportedNext(d: Depth, events: seq<Event>, ev: Event, kind: Kind)
    requires Wf(d)
    ensures Reported(d, events + [ev], kind) ==
            Reported(d, events, kind) + One(ev.Told? && Apply(Replay(d, events), ev.m).1 && Of(kind, ev.m.body))
  {
    assert (events + [ev])[..|events|] == events;
  }

  lemma ReportedJoin(d: Depth, x: seq<Event>, e: Depth, y: seq<Event>, ev: Event, kind: Kind)
    requires Wf(d) && Wf(e) && Replay(d, x) == Replay(e, y)
    ensures Reported(d, x + [ev], kind) - Reported(d, x, kind) == Reported(e, y + [ev], kind) - Reported(e, y, kind)
  {
    ReportedNext(d, x, ev, kind);
    ReportedNext(e, y, ev, kind);
  }

  lemma {:induction false} ReportedAppend(d: Depth, a: seq<Event>, b: seq<Event>, kind: Kind, e: Depth)
    requires Wf(d) && e == Replay(d, a)
    ensures Reported(d, a + b, kind) == Reported(d, a, kind) + Reported(e, b, kind)
    decreases |b|
  {
    if b == [] {
      assert a + b == a;
    } else {
      var init, last := b[..|b| - 1], b[|b| - 1];
      assert a + b == (a + init) + [last] && b == init + [last];
      ReportedAppend(d, a, init, kind, e);
      ReplayAppend(d, a, init);
      ReportedJoin(d, a + init, e, init, last, kind);
    }
  }

  lemma ReportedOne(d: Depth, ev: Event, kind: Kind)
    requires Wf(d)
    ensures Reported(d, [ev], kind) == One(ev.Told? && Apply(d, ev.m).1 && Of(kind, ev.m.body))
  {
    assert [ev][..0] == [];
  }

  lemma DecodingStats(f: Feed, body: seq<byte>)
    requires Wf(f.book)
    ensures var (f', ok) := DecodeAndApply(f, body);
            && ok == (MessageIn(body) != [])
            && f'.stats == f.stats.(applied := f'.stats.applied, byType := f'.stats.byType,
                                    parseErrors := f.stats.parseErrors + One(MessageIn(body) == []))
  {
  }

  lemma TallyKind(s: Stats, b: Body, kind: Kind)
    ensures CountOf(s.(applied := s.applied + 1, byType := Tally(s.byType, b)), kind) ==
            CountOf(s, kind) + One(Of(kind, b))
  {
  }

  lemma DecodingKind(f: Feed, loc: u16, num: u64, body: seq<byte>, kind: Kind)
    requires Wf(f.book)
    ensures CountOf(DecodeAndApply(f, body).0.stats, kind) ==
            CountOf(f.stats, kind) + Reported(f.book, Tell(loc, num, body), kind)
  {
    var ms := MessageIn(body);
    if ms != [] {
      ReportedOne(f.book, Told(loc, num, ms[0]), kind);
      TallyKind(f.stats, ms[0].body, kind);
    }
  }

  lemma GatingCounts(f: Feed, mode: Mode, a: Arrival)
    requires Wf(f.book)
    ensures var s, e := f.stats, f.expected;
            Gated(f, mode, a).stats ==
            s.(stale := s.stale + One(a.loc in e && a.num < e[a.loc]),
               gaps := s.gaps + One(a.loc in e && a.num > e[a.loc]),
               requested := s.requested + One(a.loc in e && a.num > e[a.loc] && mode == Recover),
               snapshots := s.snapshots + One(Answered(e, mode, a)))
  {
    VerdictExact(f.expected, mode, a);
  }

  /** What on_datagram counts before it decodes, on the datagram and the expected numbers. */
  predicate ArrivalCounts(e: Expected, mode: Mode, dg: Datagram, s: Stats, s': Stats) {
    && s'.bytesIn == s.bytesIn + |dg.data| && s'.datagrams == s.datagrams + 1
    && s'.stale == s.stale + One(Behind(e, dg)) && s'.gaps == s.gaps + One(Ahead(e, dg))
    && s'.requested == s.requested + One(Ahead(e, dg) && mode == Recover)
    && s'.snapshots == s.snapshots + One(Ahead(e, dg) && mode == Recover && dg.reply.Some?)
  }

  /** What it counts after that, and returns. */
  predicate PayloadCounts(e: Expected, mode: Mode, dg: Datagram, s: Stats, s': Stats, ok: bool) {
    && s'.parseErrors ==
       s.parseErrors + One(|dg.data| < 12 || (Decodes(e, mode, dg) && MessageIn(dg.data[10..]) == []))
    && ok == (Spared(e, mode, dg) || (Decodes(e, mode, dg) && MessageIn(dg.data[10..]) != []))
  }

  lemma NumberedReported(f: Feed, mode: Mode, a: Arrival, body: seq<byte>, kind: Kind)
    requires Wf(f.book)
    ensures var install := if Answered(f.expected, mode, a) then [Installed(a.reply.value)] else [];
            var tell := if Passing(f.expected, mode, a) then Tell(a.loc, a.num, body) else [];
            Reported(f.book, install + tell, kind) == Reported(Gated(f, mode, a).book, tell, kind)
  {
    var install := if Answered(f.expected, mode, a) then [Installed(a.reply.value)] else [];
    Gating(f, mode, a);
    if install != [] {
      ReportedOne(f.book, install[0], kind);
    }
    ReportedAppend(f.book, install, if Passing(f.expected, mode, a) then Tell(a.loc, a.num, body) else [],
                   kind, Gated(f, mode, a).book);
  }

  lemma NumberedArrival(f: Feed, mode: Mode, dg: Datagram, a: Arrival)
    requires Wf(f.book) && ArrivalOf(dg) == [a]
    ensures ArrivalCounts(f.expected, mode, dg, f.stats, OnDatagram(f, mode, dg).0.stats)
  {
    var f0 := Counted(f, dg.data);
    Halves(f, mode, dg, a);
    GatingCounts(f0, mode, a);
    DecodingStats(Gated(f0, mode, a), dg.data[10..]);
  }

  lemma NumberedPayload(f: Feed, mode: Mode, dg: Datagram, a: Arrival)
    requires Wf(f.book) && ArrivalOf(dg) == [a]
    ensures PayloadCounts(f.expected, mode, dg, f.stats, OnDatagram(f, mode, dg).0.stats, OnDatagram(f, mode, dg).1)
  {
    var f0 := Counted(f, dg.data);
    Halves(f, mode, dg, a);
    GatingCounts(f0, mode, a);
    DecodingStats(Gated(f0, mode, a), dg.data[10..]);
  }

  lemma NumberedKind(f: Feed, mode: Mode, dg: Datagram, a: Arrival, kind: Kind)
    requires Wf(f.book) && ArrivalOf(dg) == [a]
    ensures CountOf(OnDatagram(f, mode, dg).0.stats, kind) ==
            CountOf(f.stats, kind) + Reported(f.book, EventsOf(f.expected, mode, dg), kind)
  {
    var f0, body := Counted(f, dg.data), dg.data[10..];
    var f1 := Gated(f0, mode, a);
    Halves(f, mode, dg, a);
    NumberedEvents(f.expected, mode, dg, a);
    NumberedReported(f0, mode, a, body, kind);
    GatingKind(f, mode, dg, a, kind);
    DecodingKind(f1, a.loc, a.num, body, kind);
    assert Reported(f1.book, [], kind) == 0;
  }

  lemma GatingKind(f: Feed, mode: Mode, dg: Datagram, a: Arrival, kind: Kind)
    requires Wf(f.book)
    ensures CountOf(Gated(Counted(f, dg.data), mode, a).stats, kind) == CountOf(f.stats, kind)
  {
  }

  /** Every counter and the result of on_datagram, in every mode and for any bytes. */
  lemma CountersExact(f: Feed, mode: Mode, dg: Datagram)
    requires Wf(f.book)
    ensures var (f', ok) := OnDatagram(f, mode, dg);
            && ArrivalCounts(f.expected, mode, dg, f.stats, f'.stats)
            && PayloadCounts(f.expected, mode, dg, f.stats, f'.stats, ok)
  {
    var arrived := ArrivalOf(dg);
    if arrived != [] {
      NumberedArrival(f, mode, dg, arrived[0]);
      NumberedPayload(f, mode, dg, arrived[0]);
    } else if |dg.data| >= 12 {
      DecodingStats(Counted(f, dg.data), dg.data[10..]);
    }
  }

  lemma KindExact(f: Feed, mode: Mode, dg: Datagram, kind: Kind)
    requires Wf(f.book)
    ensures CountOf(OnDatagram(f, mode, dg).0.stats, kind) ==
            CountOf(f.stats, kind) + Reported(f.book, EventsOf(f.expected, mode, dg), kind)
  {
    var arrived := ArrivalOf(dg);
    if arrived != [] {
      NumberedKind(f, mode, dg, arrived[0], kind);
    } else if |dg.data| >= 12 {
      DecodingKind(Counted(f, dg.data), LocateOf(dg.data), 0, dg.data[10..], kind);
    }
  }

  // ---- Whole runs ---------------------------------------------------------

  /** Each message counter has gone up by the number of messages of its kind that reached the book and were reported as
      changes: for every run in every mode, snapshots in between included. */
  lemma {:induction false} CountersRun(f: Feed, mode: Mode, dgs: seq<Datagram>, kind: Kind)
    requires Wf(f.book)
    ensures CountOf(FeedRun(f, mode, dgs).stats, kind) ==
            CountOf(f.stats, kind) + Reported(f.book, Events(f.expected, mode, dgs), kind)
    decreases |dgs|
  {
    if dgs != [] {
      var init, dg := dgs[..|dgs| - 1], dgs[|dgs| - 1];
      var f1 := FeedRun(f, mode, init);
      CountersRun(f, mode, init, kind);
      KindExact(f1, mode, dg, kind);
      FeedFollowsGate(f, mode, init);
      BookIsReplay(f, mode, init);
      ReportedAppend(f.book, Events(f.expected, mode, init), EventsOf(f1.expected, mode, dg), kind, f1.book);
    }
  }

  lemma QuietKinds(d: Depth, m: Message)
    requires Wf(d) && Apply(d, m).1
    ensures !Of(Others, m.body)
  {
  }

  lemma OneKind(b: Body)
    requires !Of(Others, b)
    ensures One(Of(Adds, b)) + One(Of(Executions, b)) + One(Of(Cancels, b)) + One(Of(Deletes, b)) +
            One(Of(Replaces, b)) == 1
  {
  }

  /** Every reported message is of one of five kinds; trades, directories and system events never are. */
  lemma {:induction false} KindsAddUp(d: Depth, events: seq<Event>)
    requires Wf(d)
    ensures Reported(d, events, Others) == 0
    ensures Reported(d, events, Any) ==
            Reported(d, events, Adds) + Reported(d, events, Executions) + Reported(d, events, Cancels) +
            Reported(d, events, Deletes) + Reported(d, events, Replaces)
    decreases |events|
  {
    if events != [] {
      var init, last := events[..|events| - 1], events[|events| - 1];
      KindsAddUp(d, init);
      if last.Told? && Apply(Replay(d, init), last.m).1 {
        QuietKinds(Replay(d, init), last.m);
        OneKind(last.m.body);
      }
    }
  }

  /** How many datagrams of a run on_datagram returned true for. */
  ghost function Accepted(f: Feed, mode: Mode, dgs: seq<Datagram>): nat
    requires Wf(f.book)
  {
    if dgs == [] then 0
    else
      var init := dgs[..|dgs| - 1];
      Accepted(f, mode, init) + One(OnDatagram(FeedRun(f, mode, init), mode, dgs[|dgs| - 1]).1)
  }

  function Refused(s: Stats, mode: Mode): int {
    s.parseErrors + s.stale + if mode == Skip then 0 else s.gaps - s.snapshots
  }

  lemma OneFate(f: Feed, mode: Mode, dg: Datagram)
    requires Wf(f.book)
    ensures Refused(OnDatagram(f, mode, dg).0.stats, mode) + One(OnDatagram(f, mode, dg).1) ==
            Refused(f.stats, mode) + 1
  {
    CountersExact(f, mode, dg);
  }

  /** Every datagram of a run is accounted for exactly once: accepted, not parsed, stale, or stuck behind a gap that was
      neither stepped over nor answered. */
  lemma {:induction false} DatagramsConserved(f: Feed, mode: Mode, dgs: seq<Datagram>)
    requires Wf(f.book)
    ensures FeedRun(f, mode, dgs).stats.datagrams == f.stats.datagrams + |dgs|
    ensures Accepted(f, mode, dgs) + Refused(FeedRun(f, mode, dgs).stats, mode) == Refused(f.stats, mode) + |dgs|
    decreases |dgs|
  {
    if dgs != [] {
      var init, dg := dgs[..|dgs| - 1], dgs[|dgs| - 1];
      DatagramsConserved(f, mode, init);
      OneFate(FeedRun(f, mode, init), mode, dg);
      CountersExact(FeedRun(f, mode, init), mode, dg);
    }
  }
}
