/** Per-locate sequence tracking, and what on_datagram decides about a numbered datagram before decoding it. */
module GapDetectors {
  import opened Bytes
  import opened Itch
  import opened Ladder

  type Expected = map<u16, u64>

  const MAX_SEQ: u64 := 0xFFFF_FFFF_FFFF_FFFF

  /** 64-bit increment; it wraps at MAX_SEQ. */
  function Next(num: u64): u64 {
    (num + 1) % TWO64
  }

  datatype Observation = InOrder | Stale | Gap(expected: u64)

  function Lookup(e: Expected, loc: u16): u64 {
    if loc in e then e[loc] else 0
  }

  /** GapDetector::observe. The first number seen for a locate is taken as in order. */
  function Observed(e: Expected, loc: u16, num: u64): (Expected, Observation) {
    if loc !in e || num == e[loc] then (e[loc := Next(num)], InOrder)
    else if num < e[loc] then (e, Stale)
    else (e, Gap(e[loc]))
  }

  class GapDetector {
    var expected: Expected

    constructor ()
      ensures expected == map[]
    {
      expected := map[];
    }

    method Start(loc: u16, first: u64)
      modifies this
      ensures expected == old(expected)[loc := first]
    {
      expected := expected[loc := first];
    }

    method Observe(loc: u16, num: u64) returns (o: Observation)
      modifies this
      ensures (expected, o) == Observed(old(expected), loc, num)
    {
      if loc !in expected {
        expected := expected[loc := Next(num)];
        return InOrder;
      }
      var e := expected[loc];
      if num == e {
        expected := expected[loc := Next(e)];
        return InOrder;
      }
      if num < e {
        return Stale;
      }
      return Gap(e);
    }

    function ExpectedFor(loc: u16): u64
      reads this
    {
      Lookup(expected, loc)
    }

    method SetExpected(loc: u16, next: u64)
      modifies this
      ensures expected == old(expected)[loc := next]
    {
      expected := expected[loc := next];
    }
  }

  // ---- The gate in front of the decoder -----------------------------------

  /** What happens at a gap: wait, step over it, or ask the recovery server. */
  datatype Mode = Stall | Skip | Recover

  datatype Response = Response(loc: u16, lastSeq: u64, symbol: Symbol, bids: seq<Level>, asks: seq<Level>)

  /** A numbered datagram, with what the recovery server would answer if asked. */
  datatype Arrival = Arrival(loc: u16, num: u64, reply: Option<Response>)

  /** Too old; stuck behind a gap; already covered by the snapshot just installed; goes to the decoder. */
  datatype Verdict = TooOld | Blocked | CoveredBySnapshot | Pass

  /** The detector after the datagram, the verdict, the gap reported, and the snapshot installed. */
  datatype GateResult = GateResult(expected: Expected, verdict: Verdict, gap: Option<u64>, installed: Option<Response>)

  /** Passing a datagram moves the expected number past it. */
  function Advance(e: Expected, loc: u16, num: u64): Expected {
    if Lookup(e, loc) <= num then e[loc := Next(num)] else e
  }

  function Gate(e: Expected, mode: Mode, a: Arrival): GateResult {
    var (e1, o) := Observed(e, a.loc, a.num);
    match o
    case Stale => GateResult(e1, TooOld, None, None)
    case InOrder => GateResult(Advance(e1, a.loc, a.num), Pass, None, None)
    case Gap(first) =>
      match mode
      case Stall => GateResult(e1, Blocked, Some(first), None)
      case Skip => GateResult(Advance(e1[a.loc := a.num], a.loc, a.num), Pass, Some(first), None)
      case Recover =>
        if a.reply.None? then GateResult(e1, Blocked, Some(first), None)
        else
          var r := a.reply.value;
          var e2 := e1[r.loc := Next(r.lastSeq)];
          if a.num >= Lookup(e2, a.loc) then GateResult(Advance(e2, a.loc, a.num), Pass, Some(first), Some(r))
          else GateResult(e2, CoveredBySnapshot, Some(first), Some(r))
  }

  /** The datagram carries the number 2^64-1 and gets through: it is the expected one, or the gap in front of it is
      stepped over or answered. */
  predicate WrapsRound(e: Expected, mode: Mode, a: Arrival, loc: u16) {
    && a.loc == loc && loc in e && a.num == MAX_SEQ && e[loc] > 0
    && (e[loc] == MAX_SEQ || mode == Skip || (mode == Recover && a.reply.Some?))
  }

  /** The datagram exposes a gap of another locate, and the answer names this one and is older than what it has. */
  predicate WindsBack(e: Expected, mode: Mode, a: Arrival, loc: u16) {
    && mode == Recover && a.loc != loc && loc in e && a.loc in e && a.num > e[a.loc]
    && a.reply.Some? && a.reply.value.loc == loc && Next(a.reply.value.lastSeq) < e[loc]
  }

  /** Exactly two things lower a locate's expected number, and a caller can see both coming: the number 2^64-1 getting
      through, and a snapshot that answers for another locate than the one it was requested for. */
  lemma GateLowersExactly(e: Expected, mode: Mode, a: Arrival, loc: u16)
    requires loc in e
    ensures loc in Gate(e, mode, a).expected
    ensures Gate(e, mode, a).expected[loc] < e[loc] <==> WrapsRound(e, mode, a, loc) || WindsBack(e, mode, a, loc)
  {
  }

  // ---- Runs and what becomes of every sequence number ---------------------

  function GateRun(e: Expected, mode: Mode, arrivals: seq<Arrival>): Expected {
    if arrivals == [] then e
    else Gate(GateRun(e, mode, arrivals[..|arrivals| - 1]), mode, arrivals[|arrivals| - 1]).expected
  }

  /** The fate of a range [lo, hi) of sequence numbers of one locate. */
  datatype Fate = Decoded | Skipped | Covered | Lost
  datatype Segment = Segment(fate: Fate, lo: nat, hi: nat)

  function Max(a: nat, b: nat): nat {
    if a >= b then a else b
  }

  function NonEmpty(fate: Fate, lo: nat, hi: nat): seq<Segment> {
    if lo < hi then [Segment(fate, lo, hi)] else []
  }

  /** The first number of the datagram's locate that an installed snapshot leaves open. A snapshot that names another
      locate says nothing about this one. */
  function Reach(r: Response, loc: u16, gap: u64): nat {
    if r.loc == loc then r.lastSeq + 1 else gap
  }

  /** What one datagram settles for its locate, read off the observable outcome: the number handed to the decoder, the
      missing range reported to the gap observer when it is stepped over, the numbers the installed snapshot covers, and
      the numbers between what it covers and the datagram. */
  function Settled(g: GateResult, mode: Mode, loc: u16, num: u64): seq<Segment> {
    var decoded := if g.verdict == Pass then [Segment(Decoded, num, num + 1)] else [];
    if g.gap.None? then decoded
    else if mode == Skip then NonEmpty(Skipped, g.gap.value, num) + decoded
    else if g.installed.None? then []
    else
      var next := Reach(g.installed.value, loc, g.gap.value);
      NonEmpty(Covered, g.gap.value, next) + NonEmpty(Lost, Max(g.gap.value, next), num) + decoded
  }

  /** Everything settled for one locate along a run, oldest first. */
  function History(e: Expected, mode: Mode, arrivals: seq<Arrival>, loc: u16): seq<Segment> {
    if arrivals == [] then []
    else
      var init, a := arrivals[..|arrivals| - 1], arrivals[|arrivals| - 1];
      History(e, mode, init, loc) +
      if a.loc == loc then Settled(Gate(GateRun(e, mode, init), mode, a), mode, loc, a.num) else []
  }

  /** The segments lie end to end from lo to hi. */
  ghost predicate Tiles(segs: seq<Segment>, lo: nat, hi: nat) {
    if segs == [] then lo == hi
    else
      var last := segs[|segs| - 1];
      last.lo < last.hi == hi && Tiles(segs[..|segs| - 1], lo, last.lo)
  }

  /** What the theorems about one locate ask of an arrival: its own numbers, and those an answer gives for it, stay
      below the wrap-around, and a gap of another locate is not answered with a snapshot of this one. Answers at its own
      gaps may name any locate. */
  predicate SaneArrival(mode: Mode, a: Arrival, loc: u16) {
    && (a.loc == loc ==> a.num < MAX_SEQ)
    && (mode == Recover && a.reply.Some? && a.reply.value.loc == loc ==>
          a.loc == loc && a.reply.value.lastSeq < MAX_SEQ)
  }

  ghost predicate Sane(mode: Mode, arrivals: seq<Arrival>, loc: u16) {
    forall i :: 0 <= i < |arrivals| ==> SaneArrival(mode, arrivals[i], loc)
  }
}
