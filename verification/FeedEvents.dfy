/** What reaches the book over a run of the feed handler, in every mode: installed snapshots and the messages of the
    datagrams that pass, in order. The book is the replay of this list. */
module FeedEvents {
  import opened Bytes
  import opened Itch
  import opened Routing
  import opened GapDetectors
  import opened GateRuns
  import opened Feed
  import Parser

  /** A snapshot put in place, or a message from the datagram with this locate and number (0 if unnumbered). */
  datatype Event = Installed(r: Response) | Told(loc: u16, num: u64, m: Message)

  ghost function Happen(d: Depth, ev: Event): (d': Depth)
    requires Wf(d)
    ensures Wf(d')
  {
    match ev
    case Installed(r) => Reinstate(d, r)
    case Told(_, _, m) => Apply(d, m).0
  }

  ghost function Replay(d: Depth, events: seq<Event>): (d': Depth)
    requires Wf(d)
    ensures Wf(d')
  {
    if events == [] then d else Happen(Replay(d, events[..|events| - 1]), events[|events| - 1])
  }

  /** The message in a payload, if it is one. */
  function MessageIn(body: seq<byte>): seq<Message> {
    var p := Parser.Decode(body);
    if p.message.Some? then [p.message.value] else []
  }

  function Tell(loc: u16, num: u64, body: seq<byte>): (events: seq<Event>)
    ensures |events| <= 1
  {
    var ms := MessageIn(body);
    if ms == [] then [] else [Told(loc, num, ms[0])]
  }

  // ---- When a datagram passes, on what a caller sees ----------------------

  /** The datagram exposes a gap, and the recovery server answers. */
  predicate Answered(e: Expected, mode: Mode, a: Arrival) {
    mode == Recover && a.loc in e && a.num > e[a.loc] && a.reply.Some?
  }

  /** The installed answer is about the datagram's locate and leaves it waiting for a later number. */
  predicate Shielded(e: Expected, mode: Mode, a: Arrival) {
    Answered(e, mode, a) && a.reply.value.loc == a.loc && a.num < Next(a.reply.value.lastSeq)
  }

  /** The first number of its locate, the expected one, or one behind a gap that is stepped over, or answered by a
      snapshot that does not cover it. */
  predicate Passing(e: Expected, mode: Mode, a: Arrival) {
    || a.loc !in e || a.num == e[a.loc]
    || (a.num > e[a.loc] && mode == Skip)
    || (Answered(e, mode, a) && !Shielded(e, mode, a))
  }

  lemma VerdictExact(e: Expected, mode: Mode, a: Arrival)
    ensures var g := Gate(e, mode, a);
            && (g.verdict == Pass <==> Passing(e, mode, a))
            && (g.verdict == CoveredBySnapshot <==> Shielded(e, mode, a))
            && (g.verdict == TooOld <==> a.loc in e && a.num < e[a.loc])
            && g.installed == (if Answered(e, mode, a) then a.reply else None)
            && (g.gap.Some? <==> a.loc in e && a.num > e[a.loc])
  {
  }

  /** The transport header: two bytes of locate, eight bytes of sequence number. */
  lemma TransportHeader(data: seq<byte>)
    requires |data| >= 12
    ensures LocateOf(data) == Big16(data[0], data[1]) && NumberOf(data) == Take64(data[2..10])
  {
    BigEndian16(data[..2]);
    assert data[2..][..8] == data[2..10];
  }

  /** The events of one datagram: first the answer to the gap it exposes, then its own message. */
  function EventsOf(e: Expected, mode: Mode, dg: Datagram): seq<Event> {
    if |dg.data| < 12 then []
    else
      var loc, num, body := LocateOf(dg.data), NumberOf(dg.data), dg.data[10..];
      var a := Arrival(loc, num, dg.reply);
      if num == 0 then Tell(loc, num, body)
      else (if Answered(e, mode, a) then [Installed(a.reply.value)] else []) +
           (if Passing(e, mode, a) then Tell(loc, num, body) else [])
  }

  /** The events of a run: each datagram meets the numbers expected after those before it. */
  function Events(e: Expected, mode: Mode, dgs: seq<Datagram>): seq<Event> {
    if dgs == [] then []
    else
      var init := dgs[..|dgs| - 1];
      Events(e, mode, init) + EventsOf(GateRun(e, mode, ArrivalsOf(init)), mode, dgs[|dgs| - 1])
  }

  // ---- The book is the replay of the events -------------------------------

  lemma {:induction false} ReplayAppend(d: Depth, a: seq<Event>, b: seq<Event>)
    requires Wf(d)
    ensures Replay(d, a + b) == Replay(Replay(d, a), b)
    decreases |b|
  {
    if b == [] {
      assert a + b == a;
    } else {
      ReplayAppend(d, a, b[..|b| - 1]);
      assert (a + b)[..|a + b| - 1] == a + b[..|b| - 1];
    }
  }

  lemma ReplayOne(d: Depth, ev: Event)
    requires Wf(d)
    ensures Replay(d, [ev]) == Happen(d, ev)
  {
    assert [ev][..0] == [];
  }

  lemma Decoding(f: Feed, loc: u16, num: u64, body: seq<byte>)
    requires Wf(f.book)
    ensures DecodeAndApply(f, body).0.book == Replay(f.book, Tell(loc, num, body))
  {
    var ms := MessageIn(body);
    if ms != [] {
      ReplayOne(f.book, Told(loc, num, ms[0]));
    }
  }

  lemma Gating(f: Feed, mode: Mode, a: Arrival)
    requires Wf(f.book)
    ensures Gated(f, mode, a).book ==
            Replay(f.book, if Answered(f.expected, mode, a) then [Installed(a.reply.value)] else [])
  {
    VerdictExact(f.expected, mode, a);
    if Answered(f.expected, mode, a) {
      ReplayOne(f.book, Installed(a.reply.value));
    }
  }

  lemma NumberedReplay(f: Feed, mode: Mode, a: Arrival, body: seq<byte>)
    requires Wf(f.book)
    ensures var install := if Answered(f.expected, mode, a) then [Installed(a.reply.value)] else [];
            var tell := if Passing(f.expected, mode, a) then Tell(a.loc, a.num, body) else [];
            var f1 := Gated(f, mode, a);
            Replay(f.book, install + tell) ==
            if Passing(f.expected, mode, a) then DecodeAndApply(f1, body).0.book else f1.book
  {
    var install := if Answered(f.expected, mode, a) then [Installed(a.reply.value)] else [];
    Gating(f, mode, a);
    Decoding(Gated(f, mode, a), a.loc, a.num, body);
    ReplayAppend(f.book, install, if Passing(f.expected, mode, a) then Tell(a.loc, a.num, body) else []);
  }

  /** The numbered datagram in terms of its two halves. */
  lemma Halves(f: Feed, mode: Mode, dg: Datagram, a: Arrival)
    requires Wf(f.book) && ArrivalOf(dg) == [a]
    ensures var f1 := Gated(Counted(f, dg.data), mode, a);
            OnDatagram(f, mode, dg) ==
            if Passing(f.expected, mode, a) then DecodeAndApply(f1, dg.data[10..])
            else (f1, Shielded(f.expected, mode, a))
  {
    VerdictExact(f.expected, mode, a);
  }

  lemma NumberedEvents(e: Expected, mode: Mode, dg: Datagram, a: Arrival)
    requires ArrivalOf(dg) == [a]
    ensures EventsOf(e, mode, dg) ==
            (if Answered(e, mode, a) then [Installed(a.reply.value)] else []) +
            (if Passing(e, mode, a) then Tell(a.loc, a.num, dg.data[10..]) else [])
  {
  }

  lemma NumberedDatagram(f: Feed, mode: Mode, dg: Datagram, a: Arrival)
    requires Wf(f.book) && ArrivalOf(dg) == [a]
    ensures OnDatagram(f, mode, dg).0.book == Replay(f.book, EventsOf(f.expected, mode, dg))
  {
    Halves(f, mode, dg, a);
    NumberedEvents(f.expected, mode, dg, a);
    NumberedReplay(Counted(f, dg.data), mode, a, dg.data[10..]);
  }

  /** One datagram: its answer is installed before its message is applied, and both reach the book. */
  lemma DatagramReplay(f: Feed, mode: Mode, dg: Datagram)
    requires Wf(f.book)
    ensures OnDatagram(f, mode, dg).0.book == Replay(f.book, EventsOf(f.expected, mode, dg))
  {
    if |dg.data| >= 12 {
      var loc, num := LocateOf(dg.data), NumberOf(dg.data);
      if num == 0 {
        Decoding(Counted(f, dg.data), loc, num, dg.data[10..]);
      } else {
        NumberedDatagram(f, mode, dg, Arrival(loc, num, dg.reply));
      }
    }
  }

  /** In every mode, over every run with arbitrary datagrams and answers, the book is the replay of the installed
      snapshots and the messages of the datagrams that pass, in their order. */
  lemma {:induction false} BookIsReplay(f: Feed, mode: Mode, dgs: seq<Datagram>)
    requires Wf(f.book)
    ensures FeedRun(f, mode, dgs).book == Replay(f.book, Events(f.expected, mode, dgs))
    decreases |dgs|
  {
    if dgs != [] {
      var init, dg := dgs[..|dgs| - 1], dgs[|dgs| - 1];
      var f1 := FeedRun(f, mode, init);
      BookIsReplay(f, mode, init);
      FeedFollowsGate(f, mode, init);
      DatagramReplay(f1, mode, dg);
      ReplayAppend(f.book, Events(f.expected, mode, init), EventsOf(f1.expected, mode, dg));
    }
  }

  // ---- Which messages these are -------------------------------------------

  /** A numbered datagram carries what its sender sends under its locate and number. */
  ghost predicate Carries(dg: Datagram, payload: (u16, nat) -> seq<byte>) {
    |dg.data| >= 12 && NumberOf(dg.data) != 0 ==>
      dg.data[10..] == payload(LocateOf(dg.data), NumberOf(dg.data))
  }

  ghost predicate AllCarry(dgs: seq<Datagram>, payload: (u16, nat) -> seq<byte>) {
    forall i :: 0 <= i < |dgs| ==> Carries(dgs[i], payload)
  }

  /** The messages sent for a locate under a list of numbers. */
  function SentUnder(ns: seq<nat>, loc: u16, payload: (u16, nat) -> seq<byte>): seq<Message> {
    if ns == [] then []
    else SentUnder(ns[..|ns| - 1], loc, payload) + MessageIn(payload(loc, ns[|ns| - 1]))
  }

  /** The messages that numbered datagrams of a locate told the book. */
  function ToldBy(events: seq<Event>, loc: u16): seq<Message> {
    if events == [] then []
    else
      var last := events[|events| - 1];
      ToldBy(events[..|events| - 1], loc) +
      if last.Told? && last.num != 0 && last.loc == loc then [last.m] else []
  }

  lemma {:induction false} ToldAppend(a: seq<Event>, b: seq<Event>, loc: u16)
    ensures ToldBy(a + b, loc) == ToldBy(a, loc) + ToldBy(b, loc)
    decreases |b|
  {
    if b == [] {
      assert a + b == a;
    } else {
      ToldAppend(a, b[..|b| - 1], loc);
      assert (a + b)[..|a + b| - 1] == a + b[..|b| - 1];
    }
  }

  lemma ToldOne(ev: Event, loc: u16)
    ensures ToldBy([ev], loc) == if ev.Told? && ev.num != 0 && ev.loc == loc then [ev.m] else []
  {
    assert [ev][..0] == [];
  }

  /** The messages of one locate that a datagram adds. */
  function AddedBy(e: Expected, mode: Mode, dg: Datagram, loc: u16): seq<Message> {
    var arrived := ArrivalOf(dg);
    if arrived != [] && arrived[0].loc == loc && Passing(e, mode, arrived[0]) then MessageIn(dg.data[10..]) else []
  }

  lemma ToldTell(at: u16, num: u64, body: seq<byte>, loc: u16)
    ensures ToldBy(Tell(at, num, body), loc) == if num != 0 && at == loc then MessageIn(body) else []
  {
    var ms := MessageIn(body);
    if ms != [] {
      ToldOne(Told(at, num, ms[0]), loc);
    }
  }

  lemma ToldEvents(e: Expected, mode: Mode, dg: Datagram, loc: u16)
    ensures ToldBy(EventsOf(e, mode, dg), loc) == AddedBy(e, mode, dg, loc)
  {
    if |dg.data| >= 12 {
      var at, num, body := LocateOf(dg.data), NumberOf(dg.data), dg.data[10..];
      var a := Arrival(at, num, dg.reply);
      ToldTell(at, num, body, loc);
      if num != 0 {
        var install := if Answered(e, mode, a) then [Installed(a.reply.value)] else [];
        if install != [] {
          ToldOne(install[0], loc);
        }
        ToldAppend(install, if Passing(e, mode, a) then Tell(at, num, body) else [], loc);
      }
    }
  }

  lemma SentMore(ns: seq<nat>, n: nat, loc: u16, payload: (u16, nat) -> seq<byte>)
    ensures SentUnder(ns + [n], loc, payload) == SentUnder(ns, loc, payload) + MessageIn(payload(loc, n))
  {
    assert (ns + [n])[..|ns|] == ns;
  }

  lemma SentNext(ns: seq<nat>, passes: bool, n: nat, all: seq<nat>, loc: u16, payload: (u16, nat) -> seq<byte>)
    requires all == ns + if passes then [n] else []
    ensures SentUnder(all, loc, payload) ==
            SentUnder(ns, loc, payload) + if passes then MessageIn(payload(loc, n)) else []
  {
    if passes {
      SentMore(ns, n, loc, payload);
    } else {
      assert all == ns;
    }
  }

  /** One more arrival, with the payload that belongs to it. */
  lemma PassedNext(start: Expected, mode: Mode, init: seq<Arrival>, a: Arrival, loc: u16,
                   payload: (u16, nat) -> seq<byte>, all: seq<nat>)
    requires all == Passed(start, mode, init + [a], loc)
    ensures SentUnder(all, loc, payload) ==
            SentUnder(Passed(start, mode, init, loc), loc, payload) +
            if a.loc == loc && Passing(GateRun(start, mode, init), mode, a) then MessageIn(payload(loc, a.num)) else []
  {
    var passes := a.loc == loc && Passing(GateRun(start, mode, init), mode, a);
    StreamsNext(start, mode, init, a, loc);
    VerdictExact(GateRun(start, mode, init), mode, a);
    SentNext(Passed(start, mode, init, loc), passes, a.num, all, loc, payload);
  }

  /** What the numbers that pass add, datagram by datagram. */
  lemma PassedMore(start: Expected, mode: Mode, init: seq<Arrival>, dg: Datagram, loc: u16,
                   payload: (u16, nat) -> seq<byte>)
    requires Carries(dg, payload)
    ensures SentUnder(Passed(start, mode, init + ArrivalOf(dg), loc), loc, payload) ==
            SentUnder(Passed(start, mode, init, loc), loc, payload) +
            AddedBy(GateRun(start, mode, init), mode, dg, loc)
  {
    var arrived := ArrivalOf(dg);
    if arrived == [] {
      assert init + arrived == init;
    } else {
      assert arrived == [arrived[0]];
      PassedNext(start, mode, init, arrived[0], loc, payload, Passed(start, mode, init + arrived, loc));
    }
  }

  /** In every mode and for every locate, what the book is told is what was sent under the numbers that passed, each
      of them, in order and nothing else. */
  lemma {:induction false} ToldIsSent(e: Expected, mode: Mode, dgs: seq<Datagram>, loc: u16,
                                      payload: (u16, nat) -> seq<byte>)
    requires AllCarry(dgs, payload)
    ensures ToldBy(Events(e, mode, dgs), loc) == SentUnder(Passed(e, mode, ArrivalsOf(dgs), loc), loc, payload)
    decreases |dgs|
  {
    if dgs != [] {
      var init, dg := dgs[..|dgs| - 1], dgs[|dgs| - 1];
      ToldIsSent(e, mode, init, loc, payload);
      var e1 := GateRun(e, mode, ArrivalsOf(init));
      ToldAppend(Events(e, mode, init), EventsOf(e1, mode, dg), loc);
      ToldEvents(e1, mode, dg, loc);
      PassedMore(e, mode, ArrivalsOf(init), dg, loc, payload);
    }
  }

  // ---- Without recovery ---------------------------------------------------

  /** All messages of the list. */
  function Messages(events: seq<Event>): seq<Message> {
    if events == [] then []
    else
      var last := events[|events| - 1];
      Messages(events[..|events| - 1]) + if last.Told? then [last.m] else []
  }

  lemma RunMore(d: Depth, ms: seq<Message>, m: Message)
    requires Wf(d)
    ensures Run(d, ms + [m]) == Apply(Run(d, ms), m).0
  {
    assert (ms + [m])[..|ms|] == ms;
  }

  ghost predicate AllTold(events: seq<Event>) {
    forall i :: 0 <= i < |events| ==> events[i].Told?
  }

  lemma {:induction false} ReplayIsRun(d: Depth, events: seq<Event>)
    requires Wf(d) && AllTold(events)
    ensures Replay(d, events) == Run(d, Messages(events))
    decreases |events|
  {
    if events != [] {
      var init := events[..|events| - 1];
      ReplayIsRun(d, init);
      RunMore(d, Messages(init), events[|events| - 1].m);
    }
  }

  lemma NoAnswer(e: Expected, mode: Mode, dg: Datagram)
    requires mode != Recover
    ensures AllTold(EventsOf(e, mode, dg))
  {
  }

  lemma {:induction false} OnlyTold(e: Expected, mode: Mode, dgs: seq<Datagram>)
    requires mode != Recover
    ensures AllTold(Events(e, mode, dgs))
    decreases |dgs|
  {
    if dgs != [] {
      var init := dgs[..|dgs| - 1];
      OnlyTold(e, mode, init);
      NoAnswer(GateRun(e, mode, ArrivalsOf(init)), mode, dgs[|dgs| - 1]);
    }
  }

  /** In stall and skip mode the book is the run of the messages that got through, in their order. */
  lemma BookIsRun(f: Feed, mode: Mode, dgs: seq<Datagram>)
    requires Wf(f.book) && mode != Recover
    ensures FeedRun(f, mode, dgs).book == Run(f.book, Messages(Events(f.expected, mode, dgs)))
  {
    BookIsReplay(f, mode, dgs);
    OnlyTold(f.expected, mode, dgs);
    ReplayIsRun(f.book, Events(f.expected, mode, dgs));
  }

  // ---- One locate: duplicates and reordering do not matter ----------------

  /** All datagrams are numbered ones of the locate. */
  ghost predicate AllAbout(dgs: seq<Datagram>, loc: u16) {
    forall i :: 0 <= i < |dgs| ==> |dgs[i].data| >= 12 && LocateOf(dgs[i].data) == loc && NumberOf(dgs[i].data) != 0
  }

  ghost predicate ToldOnlyBy(events: seq<Event>, loc: u16) {
    forall i :: 0 <= i < |events| ==> events[i].Told? ==> events[i].loc == loc && events[i].num != 0
  }

  lemma {:induction false} AllToldBy(events: seq<Event>, loc: u16)
    requires ToldOnlyBy(events, loc)
    ensures Messages(events) == ToldBy(events, loc)
    decreases |events|
  {
    if events != [] {
      AllToldBy(events[..|events| - 1], loc);
    }
  }

  lemma EventAbout(e: Expected, mode: Mode, dg: Datagram, loc: u16)
    requires |dg.data| >= 12 && LocateOf(dg.data) == loc && NumberOf(dg.data) != 0
    ensures ToldOnlyBy(EventsOf(e, mode, dg), loc)
  {
  }

  lemma {:induction false} EventsAbout(e: Expected, mode: Mode, dgs: seq<Datagram>, loc: u16)
    requires AllAbout(dgs, loc)
    ensures ToldOnlyBy(Events(e, mode, dgs), loc)
    decreases |dgs|
  {
    if dgs != [] {
      var init := dgs[..|dgs| - 1];
      EventsAbout(e, mode, init, loc);
      EventAbout(GateRun(e, mode, ArrivalsOf(init)), mode, dgs[|dgs| - 1], loc);
    }
  }

  /** Stall mode, one locate, a fixed payload for every number: whatever is duplicated, reordered or lost, the book is
      the run of the messages sent under first, first+1, ..., expected-1. */
  lemma StallBookExact(f: Feed, dgs: seq<Datagram>, loc: u16, payload: (u16, nat) -> seq<byte>)
    requires Wf(f.book) && AllAbout(dgs, loc) && AllCarry(dgs, payload) && Sane(Stall, ArrivalsOf(dgs), loc)
    ensures var f', first := FeedRun(f, Stall, dgs), First(f.expected, Stall, ArrivalsOf(dgs), loc);
            && (loc !in f'.expected ==> f'.book == f.book)
            && (loc in f'.expected ==>
                  && first <= f'.expected[loc]
                  && f'.book == Run(f.book, SentUnder(From(first, f'.expected[loc]), loc, payload)))
  {
    FeedFollowsGate(f, Stall, dgs);
    BookIsRun(f, Stall, dgs);
    EventsAbout(f.expected, Stall, dgs, loc);
    AllToldBy(Events(f.expected, Stall, dgs), loc);
    ToldIsSent(f.expected, Stall, dgs, loc, payload);
    StallContiguous(f.expected, ArrivalsOf(dgs), loc);
  }

  /** So two deliveries of the same stream that begin and end at the same numbers leave the same book. */
  lemma DeliveryOrderIrrelevant(f: Feed, one: seq<Datagram>, two: seq<Datagram>, loc: u16,
                                payload: (u16, nat) -> seq<byte>)
    requires Wf(f.book) && AllAbout(one, loc) && AllAbout(two, loc) && AllCarry(one, payload) && AllCarry(two, payload)
    requires Sane(Stall, ArrivalsOf(one), loc) && Sane(Stall, ArrivalsOf(two), loc)
    requires First(f.expected, Stall, ArrivalsOf(one), loc) == First(f.expected, Stall, ArrivalsOf(two), loc)
    requires FeedRun(f, Stall, one).expected == FeedRun(f, Stall, two).expected
    ensures FeedRun(f, Stall, one).book == FeedRun(f, Stall, two).book
  {
    StallBookExact(f, one, loc, payload);
    StallBookExact(f, two, loc, payload);
  }
}
