/** What becomes of every sequence number, over every run of the gate: any mode, with loss, duplication and
    reordering of datagrams, and any answers from the recovery server. */
module GateRuns {
  import opened Bytes
  import opened GapDetectors

  // ---- Tilings ------------------------------------------------------------

  lemma {:induction false} TilesAppend(a: seq<Segment>, b: seq<Segment>, lo: nat, mid: nat, hi: nat)
    requires Tiles(a, lo, mid) && Tiles(b, mid, hi)
    ensures Tiles(a + b, lo, hi)
    decreases |b|
  {
    if b == [] {
      assert a + b == a;
    } else {
      var init, last := b[..|b| - 1], b[|b| - 1];
      TilesAppend(a, init, lo, mid, last.lo);
      assert (a + b)[..|a + b| - 1] == a + init;
    }
  }

  /** Tiles come in ascending order, do not overlap, and stay inside the range. */
  lemma {:induction false} TilesOrdered(segs: seq<Segment>, lo: nat, hi: nat)
    requires Tiles(segs, lo, hi)
    ensures lo <= hi && (segs != [] ==> segs[0].lo == lo)
    ensures forall i :: 0 <= i < |segs| ==> lo <= segs[i].lo < segs[i].hi <= hi
    ensures forall i, j :: 0 <= i < j < |segs| ==> segs[i].hi <= segs[j].lo
    decreases |segs|
  {
    if segs != [] {
      var init, last := segs[..|segs| - 1], segs[|segs| - 1];
      TilesOrdered(init, lo, last.lo);
      assert forall i :: 0 <= i < |init| ==> segs[i] == init[i];
    }
  }

  /** Tiles leave nothing out. */
  lemma {:induction false} TilesCover(segs: seq<Segment>, lo: nat, hi: nat, n: nat)
    requires Tiles(segs, lo, hi) && lo <= n < hi
    ensures exists i :: 0 <= i < |segs| && segs[i].lo <= n < segs[i].hi
    decreases |segs|
  {
    var init, last := segs[..|segs| - 1], segs[|segs| - 1];
    if n < last.lo {
      TilesCover(init, lo, last.lo, n);
      var i :| 0 <= i < |init| && init[i].lo <= n < init[i].hi;
      assert segs[i] == init[i];
    } else {
      assert segs[|segs| - 1].lo <= n < segs[|segs| - 1].hi;
    }
  }

  // ---- One step of the gate -----------------------------------------------

  /** A datagram settles exactly the numbers of its locate from the old expected number to the new one. */
  lemma SettleStep(e: Expected, mode: Mode, a: Arrival)
    requires SaneArrival(mode, a, a.loc)
    ensures var g := Gate(e, mode, a);
            && (a.loc in e ==>
                  a.loc in g.expected && Tiles(Settled(g, mode, a.loc, a.num), e[a.loc], g.expected[a.loc]))
            && (a.loc !in e ==> g.expected == e[a.loc := a.num + 1] &&
                                Settled(g, mode, a.loc, a.num) == [Segment(Decoded, a.num, a.num + 1)])
  {
    var g := Gate(e, mode, a);
    var segs := Settled(g, mode, a.loc, a.num);
    if a.loc in e && g.gap.Some? {
      var first := g.gap.value;
      if mode == Skip {
        assert segs == [Segment(Skipped, first, a.num), Segment(Decoded, a.num, a.num + 1)];
        assert segs[..1] == [Segment(Skipped, first, a.num)];
      } else if g.installed.Some? {
        RecoverTiles(g, a, first);
      }
    }
  }

  /** It leaves the other locates alone, unless an answer names one of them. */
  lemma OtherLocate(e: Expected, mode: Mode, a: Arrival, loc: u16)
    requires a.loc != loc && SaneArrival(mode, a, loc)
    ensures var e' := Gate(e, mode, a).expected; (loc in e' <==> loc in e) && (loc in e ==> e'[loc] == e[loc])
  {
  }

  lemma RecoverTiles(g: GateResult, a: Arrival, first: nat)
    requires g.gap == Some(first) && first < a.num < MAX_SEQ && g.installed.Some?
    requires var next := Reach(g.installed.value, a.loc, first);
             g.verdict == if a.num >= next then Pass else CoveredBySnapshot
    ensures var next := Reach(g.installed.value, a.loc, first);
            Tiles(Settled(g, Recover, a.loc, a.num), first, if a.num >= next then a.num + 1 else next)
  {
    var next := Reach(g.installed.value, a.loc, first);
    var m := Max(first, next);
    var c, l := NonEmpty(Covered, first, next), NonEmpty(Lost, m, a.num);
    var d := if g.verdict == Pass then [Segment(Decoded, a.num, a.num + 1)] else [];
    assert Tiles(c, first, m);
    if a.num >= next {
      assert Tiles(l, m, a.num);
      TilesAppend(c, l, first, m, a.num);
      assert Tiles(d, a.num, a.num + 1);
      TilesAppend(c + l, d, first, a.num, a.num + 1);
    } else {
      assert c + l + d == c;
    }
  }

  // ---- Whole runs ---------------------------------------------------------

  /** h tells what became of a locate's numbers: from the one it was started with, or else the first one seen, up to the
      one expected next. */
  ghost predicate Settles(start: Expected, e: Expected, h: seq<Segment>, loc: u16) {
    if loc in start then loc in e && Tiles(h, start[loc], e[loc])
    else (loc in e <==> h != []) && (loc in e ==> Tiles(h, h[0].lo, e[loc]))
  }

  lemma SettlesStep(start: Expected, e: Expected, h: seq<Segment>, mode: Mode, a: Arrival, loc: u16)
    requires SaneArrival(mode, a, loc) && Settles(start, e, h, loc)
    ensures var g := Gate(e, mode, a);
            Settles(start, g.expected, h + (if a.loc == loc then Settled(g, mode, loc, a.num) else []), loc)
  {
    var g := Gate(e, mode, a);
    if a.loc == loc {
      SettleStep(e, mode, a);
      var more := Settled(g, mode, loc, a.num);
      if loc in e {
        TilesAppend(h, more, if loc in start then start[loc] else h[0].lo, e[loc], g.expected[loc]);
      } else {
        assert h + more == more;
        assert more[..0] == [];
      }
    } else {
      OtherLocate(e, mode, a, loc);
      assert h + [] == h;
    }
  }

  /** For every locate, the segments settled along the run lie end to end from the number it was started with, or else
      the first one seen for it, to the number expected next. */
  lemma {:induction false} Tiling(start: Expected, mode: Mode, arrivals: seq<Arrival>, loc: u16)
    requires Sane(mode, arrivals, loc)
    ensures Settles(start, GateRun(start, mode, arrivals), History(start, mode, arrivals, loc), loc)
  {
    if arrivals != [] {
      var init, a := arrivals[..|arrivals| - 1], arrivals[|arrivals| - 1];
      Tiling(start, mode, init, loc);
      SettlesStep(start, GateRun(start, mode, init), History(start, mode, init, loc), mode, a, loc);
    }
  }

  /** Where the account of a locate begins. */
  function First(start: Expected, mode: Mode, arrivals: seq<Arrival>, loc: u16): nat {
    var h := History(start, mode, arrivals, loc);
    if loc in start then start[loc] else if h == [] then 0 else h[0].lo
  }

  /** The tiling as a caller uses it: a number between the two ends. */
  lemma TilesFirst(start: Expected, mode: Mode, arrivals: seq<Arrival>, loc: u16)
    requires Sane(mode, arrivals, loc) && loc in GateRun(start, mode, arrivals)
    ensures Tiles(History(start, mode, arrivals, loc), First(start, mode, arrivals, loc),
                  GateRun(start, mode, arrivals)[loc])
  {
    Tiling(start, mode, arrivals, loc);
  }

  ghost predicate Within(s: Segment, n: nat) {
    s.lo <= n < s.hi
  }

  /** The number lies in segment i and in no other. */
  ghost predicate OnlyIn(segs: seq<Segment>, n: nat, i: nat) {
    i < |segs| && Within(segs[i], n) && forall j :: 0 <= j < |segs| && j != i ==> !Within(segs[j], n)
  }

  lemma TilesPartition(segs: seq<Segment>, lo: nat, hi: nat, n: nat)
    requires Tiles(segs, lo, hi) && lo <= n < hi
    ensures exists i :: OnlyIn(segs, n, i)
  {
    TilesCover(segs, lo, hi, n);
    TilesOrdered(segs, lo, hi);
    var i :| 0 <= i < |segs| && segs[i].lo <= n < segs[i].hi;
    assert Within(segs[i], n);
    assert OnlyIn(segs, n, i);
  }

  /** Every number from the first one to the one expected next has exactly one fate. */
  lemma ExactlyOneFate(start: Expected, mode: Mode, arrivals: seq<Arrival>, loc: u16, n: nat)
    requires Sane(mode, arrivals, loc)
    requires First(start, mode, arrivals, loc) <= n < Lookup(GateRun(start, mode, arrivals), loc)
    ensures exists i :: OnlyIn(History(start, mode, arrivals, loc), n, i)
  {
    TilesFirst(start, mode, arrivals, loc);
    TilesPartition(History(start, mode, arrivals, loc), First(start, mode, arrivals, loc),
                   GateRun(start, mode, arrivals)[loc], n);
  }

  /** The expected number of a locate never goes down. */
  lemma {:induction false} ExpectedNeverFalls(start: Expected, mode: Mode, arrivals: seq<Arrival>, i: nat, loc: u16)
    requires Sane(mode, arrivals, loc) && i <= |arrivals| && loc in GateRun(start, mode, arrivals[..i])
    ensures loc in GateRun(start, mode, arrivals)
    ensures GateRun(start, mode, arrivals[..i])[loc] <= GateRun(start, mode, arrivals)[loc]
    decreases |arrivals|
  {
    if i == |arrivals| {
      assert arrivals[..i] == arrivals;
    } else {
      var init := arrivals[..|arrivals| - 1];
      assert init[..i] == arrivals[..i];
      ExpectedNeverFalls(start, mode, init, i, loc);
      GateLowersExactly(GateRun(start, mode, init), mode, arrivals[|arrivals| - 1], loc);
    }
  }

  // ---- Which fates each mode can deal -------------------------------------

  ghost predicate Possible(mode: Mode, s: Segment) {
    match s.fate
    case Decoded => s.hi == s.lo + 1
    case Skipped => mode == Skip
    case Covered => mode == Recover
    case Lost => mode == Recover
  }

  ghost predicate AllPossible(mode: Mode, h: seq<Segment>) {
    forall i :: 0 <= i < |h| ==> Possible(mode, h[i])
  }

  lemma SettledPossible(g: GateResult, mode: Mode, loc: u16, num: u64)
    requires g.gap.Some? && g.installed.Some? ==> mode != Stall
    ensures AllPossible(mode, Settled(g, mode, loc, num))
  {
  }

  lemma {:induction false} FatesOfMode(start: Expected, mode: Mode, arrivals: seq<Arrival>, loc: u16)
    ensures AllPossible(mode, History(start, mode, arrivals, loc))
  {
    if arrivals != [] {
      var init, a := arrivals[..|arrivals| - 1], arrivals[|arrivals| - 1];
      FatesOfMode(start, mode, init, loc);
      SettledPossible(Gate(GateRun(start, mode, init), mode, a), mode, loc, a.num);
    }
  }

  // ---- Observable streams -------------------------------------------------

  /** The numbers handed to the decoder for a locate, in order. */
  function Passed(start: Expected, mode: Mode, arrivals: seq<Arrival>, loc: u16): seq<nat> {
    if arrivals == [] then []
    else
      var init, a := arrivals[..|arrivals| - 1], arrivals[|arrivals| - 1];
      Passed(start, mode, init, loc) +
      if a.loc == loc && Gate(GateRun(start, mode, init), mode, a).verdict == Pass then [a.num] else []
  }

  /** The missing ranges (first, last) reported to the gap observer for a locate, in order. */
  function Reports(start: Expected, mode: Mode, arrivals: seq<Arrival>, loc: u16): seq<(nat, int)> {
    if arrivals == [] then []
    else
      var init, a := arrivals[..|arrivals| - 1], arrivals[|arrivals| - 1];
      var g := Gate(GateRun(start, mode, init), mode, a);
      Reports(start, mode, init, loc) + if a.loc == loc && g.gap.Some? then [(g.gap.value, a.num - 1)] else []
  }

  function DecodedIn(h: seq<Segment>): seq<nat> {
    if h == [] then []
    else
      var last := h[|h| - 1];
      DecodedIn(h[..|h| - 1]) + if last.fate == Decoded then [last.lo] else []
  }

  function SkippedIn(h: seq<Segment>): seq<(nat, int)> {
    if h == [] then []
    else
      var last := h[|h| - 1];
      SkippedIn(h[..|h| - 1]) + if last.fate == Skipped then [(last.lo, last.hi - 1)] else []
  }

  lemma {:induction false} DecodedAppend(a: seq<Segment>, b: seq<Segment>)
    ensures DecodedIn(a + b) == DecodedIn(a) + DecodedIn(b)
    decreases |b|
  {
    if b == [] {
      assert a + b == a;
    } else {
      DecodedAppend(a, b[..|b| - 1]);
      assert (a + b)[..|a + b| - 1] == a + b[..|b| - 1];
    }
  }

  lemma {:induction false} SkippedAppend(a: seq<Segment>, b: seq<Segment>)
    ensures SkippedIn(a + b) == SkippedIn(a) + SkippedIn(b)
    decreases |b|
  {
    if b == [] {
      assert a + b == a;
    } else {
      SkippedAppend(a, b[..|b| - 1]);
      assert (a + b)[..|a + b| - 1] == a + b[..|b| - 1];
    }
  }

  lemma OneSegment(s: seq<Segment>)
    requires |s| <= 1
    ensures DecodedIn(s) == (if |s| == 1 && s[0].fate == Decoded then [s[0].lo] else [])
    ensures SkippedIn(s) == if |s| == 1 && s[0].fate == Skipped then [(s[0].lo, s[0].hi - 1)] else []
  {
    if |s| == 1 {
      assert s[..0] == [];
    }
  }

  lemma ThreeSegments(c: seq<Segment>, l: seq<Segment>, d: seq<Segment>)
    requires |c| <= 1 && |l| <= 1 && |d| <= 1
    requires (|c| == 1 ==> c[0].fate != Decoded) && (|l| == 1 ==> l[0].fate != Decoded)
    ensures DecodedIn(c + l + d) == DecodedIn(d)
  {
    DecodedAppend(c + l, d);
    DecodedAppend(c, l);
    OneSegment(c);
    OneSegment(l);
  }

  /** What is settled without decoding comes first, then the decoded number. */
  lemma SettledParts(g: GateResult, mode: Mode, loc: u16, num: u64)
      returns (c: seq<Segment>, l: seq<Segment>, d: seq<Segment>)
    requires g.gap.Some? && g.installed.None? && mode != Skip ==> g.verdict != Pass
    ensures Settled(g, mode, loc, num) == c + l + d && |c| <= 1 && |l| <= 1
    ensures (|c| == 1 ==> c[0].fate != Decoded) && (|l| == 1 ==> l[0].fate != Decoded)
    ensures d == if g.verdict == Pass then [Segment(Decoded, num, num + 1)] else []
  {
    c, l, d := [], [], if g.verdict == Pass then [Segment(Decoded, num, num + 1)] else [];
    if g.gap.Some? && mode == Skip {
      c := NonEmpty(Skipped, g.gap.value, num);
    } else if g.gap.Some? && g.installed.Some? {
      var next := Reach(g.installed.value, loc, g.gap.value);
      c, l := NonEmpty(Covered, g.gap.value, next), NonEmpty(Lost, Max(g.gap.value, next), num);
    }
  }

  lemma SettledDecoded(g: GateResult, mode: Mode, loc: u16, num: u64)
    requires g.gap.Some? && g.installed.None? && mode != Skip ==> g.verdict != Pass
    ensures DecodedIn(Settled(g, mode, loc, num)) == if g.verdict == Pass then [num] else []
  {
    var c, l, d := SettledParts(g, mode, loc, num);
    ThreeSegments(c, l, d);
    OneSegment(d);
  }

  lemma SettledSkipped(g: GateResult, loc: u16, num: u64)
    requires g.gap.Some? ==> g.gap.value < num
    ensures SkippedIn(Settled(g, Skip, loc, num)) == if g.gap.Some? then [(g.gap.value, num - 1)] else []
  {
    var d := if g.verdict == Pass then [Segment(Decoded, num, num + 1)] else [];
    OneSegment(d);
    if g.gap.Some? {
      var s := NonEmpty(Skipped, g.gap.value, num);
      SkippedAppend(s, d);
      OneSegment(s);
    }
  }

  /** What the latest arrival adds to a locate's history. */
  function Latest(e: Expected, mode: Mode, a: Arrival, loc: u16): seq<Segment> {
    if a.loc == loc then Settled(Gate(e, mode, a), mode, a.loc, a.num) else []
  }

  lemma LatestStreams(e: Expected, mode: Mode, a: Arrival, loc: u16)
    ensures var g := Gate(e, mode, a);
            && DecodedIn(Latest(e, mode, a, loc)) == (if a.loc == loc && g.verdict == Pass then [a.num] else [])
            && (mode == Skip ==> SkippedIn(Latest(e, mode, a, loc)) ==
                                 if a.loc == loc && g.gap.Some? then [(g.gap.value, a.num - 1)] else [])
  {
    GapShape(e, mode, a);
    SettledDecoded(Gate(e, mode, a), mode, a.loc, a.num);
    SettledSkipped(Gate(e, mode, a), a.loc, a.num);
    assert DecodedIn([]) == [] && SkippedIn([]) == [];
  }

  /** A gap lies below the datagram, and outside skip mode nothing passes it unanswered. */
  lemma GapShape(e: Expected, mode: Mode, a: Arrival)
    ensures var g := Gate(e, mode, a);
            && (g.gap.Some? ==> g.gap.value < a.num)
            && (g.gap.Some? && g.installed.None? && mode != Skip ==> g.verdict != Pass)
  {
  }

  lemma HistoryNext(start: Expected, mode: Mode, init: seq<Arrival>, a: Arrival, loc: u16)
    ensures History(start, mode, init + [a], loc) ==
            History(start, mode, init, loc) + Latest(GateRun(start, mode, init), mode, a, loc)
  {
    assert (init + [a])[..|init|] == init;
  }

  lemma StreamsNext(start: Expected, mode: Mode, init: seq<Arrival>, a: Arrival, loc: u16)
    ensures var g := Gate(GateRun(start, mode, init), mode, a);
            && Passed(start, mode, init + [a], loc) ==
               Passed(start, mode, init, loc) + (if a.loc == loc && g.verdict == Pass then [a.num] else [])
            && Reports(start, mode, init + [a], loc) ==
               Reports(start, mode, init, loc) + if a.loc == loc && g.gap.Some? then [(g.gap.value, a.num - 1)] else []
  {
    assert (init + [a])[..|init|] == init;
  }

  /** The history's decoded numbers are those handed to the decoder; in skip mode its skipped ranges are those
      reported to the gap observer. */
  lemma {:induction false} HistoryStreams(start: Expected, mode: Mode, arrivals: seq<Arrival>, loc: u16)
    ensures DecodedIn(History(start, mode, arrivals, loc)) == Passed(start, mode, arrivals, loc)
    ensures mode == Skip ==> SkippedIn(History(start, mode, arrivals, loc)) == Reports(start, mode, arrivals, loc)
  {
    if arrivals != [] {
      var init, a := arrivals[..|arrivals| - 1], arrivals[|arrivals| - 1];
      assert arrivals == init + [a];
      HistoryStreams(start, mode, init, loc);
      StreamsGrow(start, mode, init, a, loc);
    }
  }

  lemma StreamsGrow(start: Expected, mode: Mode, init: seq<Arrival>, a: Arrival, loc: u16)
    requires DecodedIn(History(start, mode, init, loc)) == Passed(start, mode, init, loc)
    requires mode == Skip ==> SkippedIn(History(start, mode, init, loc)) == Reports(start, mode, init, loc)
    ensures DecodedIn(History(start, mode, init + [a], loc)) == Passed(start, mode, init + [a], loc)
    ensures mode == Skip ==> SkippedIn(History(start, mode, init + [a], loc)) == Reports(start, mode, init + [a], loc)
  {
    var e, h := GateRun(start, mode, init), History(start, mode, init, loc);
    HistoryNext(start, mode, init, a, loc);
    StreamsNext(start, mode, init, a, loc);
    LatestStreams(e, mode, a, loc);
    DecodedAppend(h, Latest(e, mode, a, loc));
    SkippedAppend(h, Latest(e, mode, a, loc));
  }

  ghost predicate Ascending(ns: seq<nat>) {
    forall i, j :: 0 <= i < j < |ns| ==> ns[i] < ns[j]
  }

  ghost predicate AscendingRanges(rs: seq<(nat, int)>) {
    && (forall i :: 0 <= i < |rs| ==> rs[i].0 <= rs[i].1)
    && (forall i, j :: 0 <= i < j < |rs| ==> rs[i].1 < rs[j].0)
  }

  /** Reading the streams off a tiling: ascending, and membership is membership in a tile of that fate. */
  lemma {:induction false} TilesStreams(h: seq<Segment>, lo: nat, hi: nat)
    requires Tiles(h, lo, hi)
    ensures Ascending(DecodedIn(h)) && forall i :: 0 <= i < |DecodedIn(h)| ==> DecodedIn(h)[i] < hi
    ensures AscendingRanges(SkippedIn(h)) && forall i :: 0 <= i < |SkippedIn(h)| ==> SkippedIn(h)[i].1 < hi
    decreases |h|
  {
    if h != [] {
      TilesStreams(h[..|h| - 1], lo, h[|h| - 1].lo);
    }
  }

  lemma {:induction false} MemberDecoded(h: seq<Segment>, n: nat)
    ensures n in DecodedIn(h) <==> exists i :: 0 <= i < |h| && h[i].fate == Decoded && h[i].lo == n
    decreases |h|
  {
    if h != [] {
      var init, last := h[..|h| - 1], h[|h| - 1];
      MemberDecoded(init, n);
      assert h == init + [last];
      if i :| 0 <= i < |init| && init[i].fate == Decoded && init[i].lo == n {
        assert h[i] == init[i];
      }
      if i :| 0 <= i < |h| && h[i].fate == Decoded && h[i].lo == n {
        assert i == |h| - 1 || init[i] == h[i];
      }
    }
  }

  ghost predicate InRange(rs: seq<(nat, int)>, n: nat) {
    exists i :: 0 <= i < |rs| && rs[i].0 <= n <= rs[i].1
  }

  lemma {:induction false} MemberSkipped(h: seq<Segment>, n: nat)
    ensures InRange(SkippedIn(h), n) <==> exists i :: 0 <= i < |h| && h[i].fate == Skipped && Within(h[i], n)
    decreases |h|
  {
    if h != [] {
      var init, last := h[..|h| - 1], h[|h| - 1];
      MemberSkipped(init, n);
      var rs, rs0 := SkippedIn(h), SkippedIn(init);
      if i :| 0 <= i < |init| && init[i].fate == Skipped && Within(init[i], n) {
        assert h[i] == init[i];
      }
      if i :| 0 <= i < |rs0| && rs0[i].0 <= n <= rs0[i].1 {
        assert rs[i] == rs0[i];
      }
      if last.fate == Skipped && Within(last, n) {
        assert rs[|rs| - 1] == (last.lo, last.hi - 1);
      }
    }
  }

  // ---- The three modes ----------------------------------------------------

  /** The numbers lo, lo+1, ..., hi-1. */
  function From(lo: nat, hi: nat): seq<nat>
    requires lo <= hi
  {
    seq(hi - lo, i requires 0 <= i => lo + i)
  }

  lemma {:induction false} UnitTiles(segs: seq<Segment>, lo: nat, hi: nat)
    requires Tiles(segs, lo, hi) && lo <= hi
    requires forall i :: 0 <= i < |segs| ==> segs[i].fate == Decoded && segs[i].hi == segs[i].lo + 1
    ensures DecodedIn(segs) == From(lo, hi)
    decreases |segs|
  {
    if segs != [] {
      var init, last := segs[..|segs| - 1], segs[|segs| - 1];
      TilesOrdered(init, lo, last.lo);
      UnitTiles(init, lo, last.lo);
      assert From(lo, hi) == From(lo, last.lo) + [last.lo];
    }
  }

  /** Stall mode: whatever is lost, duplicated or reordered, the numbers handed to the decoder for a locate are
      exactly first, first+1, ..., expected-1, each once and in this order, where first is the number the locate was
      started with, or else the first one seen. */
  lemma StallContiguous(start: Expected, arrivals: seq<Arrival>, loc: u16)
    requires Sane(Stall, arrivals, loc)
    ensures var e, passed := GateRun(start, Stall, arrivals), Passed(start, Stall, arrivals, loc);
            && (loc !in e ==> passed == [])
            && (loc in e ==> First(start, Stall, arrivals, loc) <= e[loc] &&
                             passed == From(First(start, Stall, arrivals, loc), e[loc]))
            && (loc in e && loc !in start ==> passed != [] && passed[0] == First(start, Stall, arrivals, loc))
  {
    Tiling(start, Stall, arrivals, loc);
    FatesOfMode(start, Stall, arrivals, loc);
    HistoryStreams(start, Stall, arrivals, loc);
    var e, h := GateRun(start, Stall, arrivals), History(start, Stall, arrivals, loc);
    if loc in e {
      OnlyDecoded(h, First(start, Stall, arrivals, loc), e[loc]);
    }
  }

  lemma OnlyDecoded(h: seq<Segment>, lo: nat, hi: nat)
    requires Tiles(h, lo, hi) && AllPossible(Stall, h)
    ensures lo <= hi && DecodedIn(h) == From(lo, hi) && (h != [] ==> lo < hi)
  {
    TilesOrdered(h, lo, hi);
    UnitTiles(h, lo, hi);
  }

  /** In every mode no number is handed to the decoder twice, and the numbers go up. */
  lemma NeverDecodedTwice(start: Expected, mode: Mode, arrivals: seq<Arrival>, loc: u16)
    requires Sane(mode, arrivals, loc)
    ensures Ascending(Passed(start, mode, arrivals, loc))
  {
    Tiling(start, mode, arrivals, loc);
    HistoryStreams(start, mode, arrivals, loc);
    var e, h := GateRun(start, mode, arrivals), History(start, mode, arrivals, loc);
    if loc in e {
      TilesStreams(h, First(start, mode, arrivals, loc), e[loc]);
    }
  }

  /** Skip mode: at every point the numbers from the first one to the one expected next are partitioned into those
      handed to the decoder and the disjoint ascending ranges reported to the gap observer. */
  lemma SkipAccounts(start: Expected, arrivals: seq<Arrival>, loc: u16, n: nat)
    requires Sane(Skip, arrivals, loc)
    requires First(start, Skip, arrivals, loc) <= n < Lookup(GateRun(start, Skip, arrivals), loc)
    ensures n in Passed(start, Skip, arrivals, loc) <==> !InRange(Reports(start, Skip, arrivals, loc), n)
    ensures AscendingRanges(Reports(start, Skip, arrivals, loc))
  {
    TilesFirst(start, Skip, arrivals, loc);
    FatesOfMode(start, Skip, arrivals, loc);
    HistoryStreams(start, Skip, arrivals, loc);
    SkipPartition(History(start, Skip, arrivals, loc), First(start, Skip, arrivals, loc),
                  GateRun(start, Skip, arrivals)[loc], n);
  }

  lemma SkipPartition(h: seq<Segment>, lo: nat, hi: nat, n: nat)
    requires Tiles(h, lo, hi) && lo <= n < hi && AllPossible(Skip, h)
    ensures n in DecodedIn(h) <==> !InRange(SkippedIn(h), n)
    ensures AscendingRanges(SkippedIn(h))
  {
    TilesStreams(h, lo, hi);
    TilesPartition(h, lo, hi, n);
    MemberDecoded(h, n);
    MemberSkipped(h, n);
    var i :| OnlyIn(h, n, i);
    SkipEither(h, n, i);
  }

  lemma SkipEither(h: seq<Segment>, n: nat, i: nat)
    requires OnlyIn(h, n, i)
    requires AllPossible(Skip, h)
    ensures (exists j :: 0 <= j < |h| && h[j].fate == Decoded && h[j].lo == n) <==>
            !(exists j :: 0 <= j < |h| && h[j].fate == Skipped && Within(h[j], n))
  {
    if j :| 0 <= j < |h| && h[j].fate == Decoded && h[j].lo == n {
      assert Possible(Skip, h[j]) && Within(h[j], n);
    }
    assert Possible(Skip, h[i]);
  }

  // ---- Recovery -----------------------------------------------------------

  /** The snapshot installed by the i-th arrival, if any. */
  function InstalledAt(start: Expected, mode: Mode, arrivals: seq<Arrival>, i: nat): Option<Response>
    requires i < |arrivals|
  {
    Gate(GateRun(start, mode, arrivals[..i]), mode, arrivals[i]).installed
  }

  predicate PassesAt(start: Expected, mode: Mode, arrivals: seq<Arrival>, i: nat)
    requires i < |arrivals|
  {
    Gate(GateRun(start, mode, arrivals[..i]), mode, arrivals[i]).verdict == Pass
  }

  lemma RunNext(start: Expected, mode: Mode, arrivals: seq<Arrival>, i: nat)
    requires i < |arrivals|
    ensures GateRun(start, mode, arrivals[..i + 1]) ==
            Gate(GateRun(start, mode, arrivals[..i]), mode, arrivals[i]).expected
  {
    assert arrivals[..i + 1][..i] == arrivals[..i];
  }

  /** A snapshot leaves its locate expecting a number beyond what it covers; and only numbers at or beyond the
      expected one pass. */
  lemma GateShields(e: Expected, a: Arrival)
    requires SaneArrival(Recover, a, a.loc)
    ensures var g := Gate(e, Recover, a);
            && (g.installed.Some? && g.installed.value.loc == a.loc ==>
                  && a.loc in g.expected && g.expected[a.loc] > g.installed.value.lastSeq
                  && (g.verdict == Pass ==> a.num > g.installed.value.lastSeq))
            && (g.verdict == Pass && a.loc in e ==> a.num >= e[a.loc])
  {
  }

  /** Nothing that a snapshot of a locate covered is decoded at that datagram or later. */
  lemma SnapshotShields(start: Expected, arrivals: seq<Arrival>, loc: u16, i: nat, j: nat)
    requires Sane(Recover, arrivals, loc) && i <= j < |arrivals| && arrivals[i].loc == arrivals[j].loc == loc
    requires InstalledAt(start, Recover, arrivals, i).Some? && InstalledAt(start, Recover, arrivals, i).value.loc == loc
    requires PassesAt(start, Recover, arrivals, j)
    ensures arrivals[j].num > InstalledAt(start, Recover, arrivals, i).value.lastSeq
  {
    GateShields(GateRun(start, Recover, arrivals[..i]), arrivals[i]);
    if i < j {
      RunNext(start, Recover, arrivals, i);
      assert arrivals[..j][..i + 1] == arrivals[..i + 1];
      ExpectedNeverFalls(start, Recover, arrivals[..j], i + 1, loc);
      GateShields(GateRun(start, Recover, arrivals[..j]), arrivals[j]);
    }
  }

  /** Every answer installed at a gap of a locate is about that locate and reaches the datagram that exposed the
      gap. */
  ghost predicate Reaching(start: Expected, arrivals: seq<Arrival>, loc: u16) {
    forall i :: 0 <= i < |arrivals| && arrivals[i].loc == loc && InstalledAt(start, Recover, arrivals, i).Some? ==>
      Closes(InstalledAt(start, Recover, arrivals, i).value, arrivals[i])
  }

  predicate Closes(r: Response, a: Arrival) {
    r.loc == a.loc && r.lastSeq + 1 >= a.num
  }

  ghost predicate NoLoss(h: seq<Segment>) {
    forall i :: 0 <= i < |h| ==> h[i].fate != Lost
  }

  lemma LatestLoss(e: Expected, a: Arrival, loc: u16)
    ensures NoLoss(Latest(e, Recover, a, loc)) <==>
            (a.loc == loc && Gate(e, Recover, a).installed.Some? ==> Closes(Gate(e, Recover, a).installed.value, a))
  {
    var g := Gate(e, Recover, a);
    if a.loc == loc && g.installed.Some? {
      var first := g.gap.value;
      var next := Reach(g.installed.value, loc, first);
      var c, l := NonEmpty(Covered, first, next), NonEmpty(Lost, Max(first, next), a.num);
      if next < a.num {
        assert l == [Segment(Lost, Max(first, next), a.num)];
        assert Latest(e, Recover, a, loc)[|c|] == l[0];
      }
    }
  }

  lemma NoLossAppend(a: seq<Segment>, b: seq<Segment>)
    ensures NoLoss(a + b) <==> NoLoss(a) && NoLoss(b)
  {
    assert forall i :: 0 <= i < |a| ==> (a + b)[i] == a[i];
    assert forall i :: 0 <= i < |b| ==> (a + b)[|a| + i] == b[i];
  }

  lemma ReachingNext(start: Expected, init: seq<Arrival>, a: Arrival, loc: u16)
    ensures var g := Gate(GateRun(start, Recover, init), Recover, a);
            Reaching(start, init + [a], loc) <==>
            Reaching(start, init, loc) && (a.loc == loc && g.installed.Some? ==> Closes(g.installed.value, a))
  {
    var all := init + [a];
    assert forall i :: 0 <= i < |init| ==> all[..i] == init[..i] && all[i] == init[i];
    assert all[..|init|] == init && all[|init|] == a;
    assert forall i :: 0 <= i < |init| ==> InstalledAt(start, Recover, all, i) == InstalledAt(start, Recover, init, i);
    assert InstalledAt(start, Recover, all, |init|) == Gate(GateRun(start, Recover, init), Recover, a).installed;
  }

  /** No segment of the account is lost if and only if every answer installed closes its gap. */
  lemma {:induction false} NoLossExact(start: Expected, arrivals: seq<Arrival>, loc: u16)
    ensures NoLoss(History(start, Recover, arrivals, loc)) <==> Reaching(start, arrivals, loc)
  {
    if arrivals != [] {
      var init, a := arrivals[..|arrivals| - 1], arrivals[|arrivals| - 1];
      assert arrivals == init + [a];
      NoLossExact(start, init, loc);
      HistoryNext(start, Recover, init, a, loc);
      ReachingNext(start, init, a, loc);
      var e, h := GateRun(start, Recover, init), History(start, Recover, init, loc);
      LatestLoss(e, a, loc);
      NoLossAppend(h, Latest(e, Recover, a, loc));
    }
  }

  ghost predicate CoveredIn(h: seq<Segment>, n: nat) {
    exists i :: 0 <= i < |h| && h[i].fate == Covered && Within(h[i], n)
  }

  /** The snapshot installed at datagram i is of the locate, which still missed number n, and goes up to n or beyond. */
  ghost predicate CoversAt(start: Expected, arrivals: seq<Arrival>, loc: u16, n: nat, i: nat)
    requires i < |arrivals|
  {
    && arrivals[i].loc == loc && InstalledAt(start, Recover, arrivals, i).Some?
    && InstalledAt(start, Recover, arrivals, i).value.loc == loc
    && Lookup(GateRun(start, Recover, arrivals[..i]), loc) <= n
    && n <= InstalledAt(start, Recover, arrivals, i).value.lastSeq
  }

  ghost predicate CoveredBySome(start: Expected, arrivals: seq<Arrival>, loc: u16, n: nat) {
    exists i :: 0 <= i < |arrivals| && CoversAt(start, arrivals, loc, n, i)
  }

  lemma CoveredAppend(a: seq<Segment>, b: seq<Segment>, n: nat)
    ensures CoveredIn(a + b, n) <==> CoveredIn(a, n) || CoveredIn(b, n)
  {
    if i :| 0 <= i < |a| && a[i].fate == Covered && Within(a[i], n) {
      assert (a + b)[i] == a[i];
    }
    if i :| 0 <= i < |b| && b[i].fate == Covered && Within(b[i], n) {
      assert (a + b)[|a| + i] == b[i];
    }
    if i :| 0 <= i < |a + b| && (a + b)[i].fate == Covered && Within((a + b)[i], n) {
      assert i < |a| ==> a[i] == (a + b)[i];
      assert i >= |a| ==> b[i - |a|] == (a + b)[i];
    }
  }

  lemma LatestCovers(e: Expected, a: Arrival, loc: u16, n: nat)
    ensures var g := Gate(e, Recover, a);
            CoveredIn(Latest(e, Recover, a, loc), n) <==>
            && a.loc == loc && g.installed.Some? && g.installed.value.loc == loc
            && Lookup(e, loc) <= n <= g.installed.value.lastSeq
  {
    var g, h := Gate(e, Recover, a), Latest(e, Recover, a, loc);
    if a.loc == loc && g.installed.Some? {
      var next := Reach(g.installed.value, loc, g.gap.value);
      var c := NonEmpty(Covered, g.gap.value, next);
      assert forall i :: 0 <= i < |h| && h[i].fate == Covered ==> i < |c|;
      if g.gap.value <= n < next {
        assert h[0] == c[0] && Within(h[0], n);
      }
    }
  }

  lemma CoversNext(start: Expected, init: seq<Arrival>, a: Arrival, loc: u16, n: nat)
    ensures CoveredBySome(start, init + [a], loc, n) <==>
            CoveredBySome(start, init, loc, n) || CoversAt(start, init + [a], loc, n, |init|)
  {
    var all := init + [a];
    forall i | 0 <= i < |init|
      ensures CoversAt(start, all, loc, n, i) == CoversAt(start, init, loc, n, i)
    {
      assert all[..i] == init[..i] && all[i] == init[i];
    }
  }

  /** The covered segments of the account are the numbers that snapshots covered while they were missing. */
  lemma {:induction false} CoveredExact(start: Expected, arrivals: seq<Arrival>, loc: u16, n: nat)
    ensures CoveredIn(History(start, Recover, arrivals, loc), n) <==> CoveredBySome(start, arrivals, loc, n)
    decreases |arrivals|
  {
    if arrivals != [] {
      var init, a := arrivals[..|arrivals| - 1], arrivals[|arrivals| - 1];
      assert arrivals == init + [a] && arrivals[..|init|] == init;
      CoveredExact(start, init, loc, n);
      HistoryNext(start, Recover, init, a, loc);
      CoversNext(start, init, a, loc, n);
      var e := GateRun(start, Recover, init);
      CoveredAppend(History(start, Recover, init, loc), Latest(e, Recover, a, loc), n);
      LatestCovers(e, a, loc, n);
    }
  }

  /** The number was handed to the decoder, or covered by a snapshot while it was missing. */
  ghost predicate Accounted(start: Expected, arrivals: seq<Arrival>, loc: u16, n: nat) {
    n in Passed(start, Recover, arrivals, loc) || CoveredBySome(start, arrivals, loc, n)
  }

  /** One number of a recovery run: it is accounted for unless it lies in a lost segment. */
  lemma AccountedExact(start: Expected, arrivals: seq<Arrival>, loc: u16, n: nat)
    requires Sane(Recover, arrivals, loc)
    requires First(start, Recover, arrivals, loc) <= n < Lookup(GateRun(start, Recover, arrivals), loc)
    ensures Accounted(start, arrivals, loc, n) <==> !LostIn(History(start, Recover, arrivals, loc), n)
  {
    ExactlyOneFate(start, Recover, arrivals, loc, n);
    FatesOfMode(start, Recover, arrivals, loc);
    HistoryStreams(start, Recover, arrivals, loc);
    CoveredExact(start, arrivals, loc, n);
    var h := History(start, Recover, arrivals, loc);
    MemberDecoded(h, n);
    var i :| OnlyIn(h, n, i);
    OneOfThree(h, n, i);
  }

  ghost predicate LostIn(h: seq<Segment>, n: nat) {
    exists i :: 0 <= i < |h| && h[i].fate == Lost && Within(h[i], n)
  }

  lemma OneOfThree(h: seq<Segment>, n: nat, i: nat)
    requires OnlyIn(h, n, i)
    requires AllPossible(Recover, h)
    ensures (exists j :: 0 <= j < |h| && h[j].fate == Decoded && h[j].lo == n) || CoveredIn(h, n) <==> !LostIn(h, n)
  {
    assert Possible(Recover, h[i]);
    if j :| 0 <= j < |h| && h[j].fate == Decoded && h[j].lo == n {
      assert Possible(Recover, h[j]) && Within(h[j], n);
    }
  }

  /** Recovery mode, for every locate, with answers that are short, late or about another locate: every number from the
      first one to the one expected next was decoded, or covered by a snapshot of the locate while it was missing, if
      and only if every answer installed at one of its gaps names it and reaches the number before the datagram. */
  lemma RecoveryExact(start: Expected, arrivals: seq<Arrival>, loc: u16)
    requires Sane(Recover, arrivals, loc)
    ensures (forall n :: First(start, Recover, arrivals, loc) <= n < Lookup(GateRun(start, Recover, arrivals), loc) ==>
                Accounted(start, arrivals, loc, n)) <==>
            Reaching(start, arrivals, loc)
  {
    NoLossExact(start, arrivals, loc);
    var h := History(start, Recover, arrivals, loc);
    var lo, hi := First(start, Recover, arrivals, loc), Lookup(GateRun(start, Recover, arrivals), loc);
    forall n | lo <= n < hi
      ensures Accounted(start, arrivals, loc, n) <==> !LostIn(h, n)
    {
      AccountedExact(start, arrivals, loc, n);
    }
    if !NoLoss(h) {
      var i :| 0 <= i < |h| && h[i].fate == Lost;
      Tiling(start, Recover, arrivals, loc);
      TilesOrdered(h, lo, hi);
      assert Within(h[i], h[i].lo);
      assert LostIn(h, h[i].lo);
    }
  }

  // ---- Why the conditions are needed --------------------------------------

  lemma TwoArrivals(a: Arrival, b: Arrival, loc: u16)
    requires a.loc == loc && b.loc == loc
    ensures var run, e := [a, b], Gate(map[], Recover, a).expected;
            && GateRun(map[], Recover, run) == Gate(e, Recover, b).expected
            && InstalledAt(map[], Recover, run, 1) == Gate(e, Recover, b).installed
            && History(map[], Recover, run, loc) ==
               [Segment(Decoded, a.num, a.num + 1)] + Settled(Gate(e, Recover, b), Recover, loc, b.num)
  {
    var run := [a, b];
    assert run[..1] == [a] && [a][..0] == [];
    assert History(map[], Recover, [a], loc) == [] + Settled(Gate(map[], Recover, a), Recover, loc, a.num);
  }

  /** An answer for locate 2 to a request about locate 1 loses numbers 2, 3 and 4 of locate 1: datagram 5 is decoded and
      6 expected next, although the answer goes up to 10. */
  lemma ForeignSnapshotLoses(symbol: seq<byte>)
    requires |symbol| == 8
    ensures var run := [Arrival(1, 1, None), Arrival(1, 5, Some(Response(2, 10, symbol, [], [])))];
            && GateRun(map[], Recover, run)[1 := 6] == GateRun(map[], Recover, run)
            && History(map[], Recover, run, 1) ==
               [Segment(Decoded, 1, 2), Segment(Lost, 2, 5), Segment(Decoded, 5, 6)]
            && !Reaching(map[], run, 1)
  {
    var a, b := Arrival(1, 1, None), Arrival(1, 5, Some(Response(2, 10, symbol, [], [])));
    TwoArrivals(a, b, 1);
    NoLossExact(map[], [a, b], 1);
    assert History(map[], Recover, [a, b], 1)[1] == Segment(Lost, 2, 5);
  }

  /** An answer that stops short loses what lies between it and the datagram. */
  lemma ShortSnapshotLoses(symbol: seq<byte>)
    requires |symbol| == 8
    ensures var run := [Arrival(1, 1, None), Arrival(1, 5, Some(Response(1, 2, symbol, [], [])))];
            && History(map[], Recover, run, 1) ==
               [Segment(Decoded, 1, 2), Segment(Covered, 2, 3), Segment(Lost, 3, 5), Segment(Decoded, 5, 6)]
            && !Reaching(map[], run, 1)
  {
    var a, b := Arrival(1, 1, None), Arrival(1, 5, Some(Response(1, 2, symbol, [], [])));
    TwoArrivals(a, b, 1);
    NoLossExact(map[], [a, b], 1);
    assert History(map[], Recover, [a, b], 1)[2] == Segment(Lost, 3, 5);
  }

  /** Past the number 2^64-1 the expected number wraps to 0 and an old number is decoded again. */
  lemma WrapReplays()
    ensures var run := [Arrival(1, 5, None), Arrival(1, MAX_SEQ, None), Arrival(1, 5, None)];
            PassesAt(map[], Skip, run, 0) && PassesAt(map[], Skip, run, 1) && PassesAt(map[], Skip, run, 2)
  {
    var run := [Arrival(1, 5, None), Arrival(1, MAX_SEQ, None), Arrival(1, 5, None)];
    assert run[..0] == [];
    RunNext(map[], Skip, run, 0);
    RunNext(map[], Skip, run, 1);
  }

  /** A snapshot answered for locate 2 that names locate 1 winds locate 1 back: its number 1 is decoded twice. */
  lemma ForeignSnapshotReplays(symbol: seq<byte>)
    requires |symbol| == 8
    ensures var run := [Arrival(1, 1, None), Arrival(2, 1, None), Arrival(2, 3, Some(Response(1, 0, symbol, [], []))),
                        Arrival(1, 1, None)];
            PassesAt(map[], Recover, run, 0) && PassesAt(map[], Recover, run, 3)
  {
    var run := [Arrival(1, 1, None), Arrival(2, 1, None), Arrival(2, 3, Some(Response(1, 0, symbol, [], []))),
                Arrival(1, 1, None)];
    assert run[..0] == [];
    RunNext(map[], Recover, run, 0);
    RunNext(map[], Recover, run, 1);
    RunNext(map[], Recover, run, 2);
  }

  /** That is why the account of a locate asks that no other gap is answered with its snapshot: wound back, locate 1
      here passes number 3 again over an answer that reaches nothing, although 1, 2 and 3 were all decoded before. */
  lemma WoundBackAccount(symbol: seq<byte>)
    requires |symbol| == 8
    ensures var r := Some(Response(1, 0, symbol, [], []));
            var run := [Arrival(1, 1, None), Arrival(1, 2, None), Arrival(1, 3, None), Arrival(2, 1, None),
                        Arrival(2, 3, r), Arrival(1, 3, r)];
            && GateRun(map[], Recover, run) == map[1 := 4, 2 := 4]
            && Passed(map[], Recover, run, 1) == [1, 2, 3, 3] && !Reaching(map[], run, 1)
  {
    var r := Response(1, 0, symbol, [], []);
    var init := Started() + [Arrival(2, 1, None)] + [Arrival(2, 3, Some(r))];
    WoundBack(r);
    PassesAgain(init, r);
    assert init + [Arrival(1, 3, Some(r))] ==
           [Arrival(1, 1, None), Arrival(1, 2, None), Arrival(1, 3, None), Arrival(2, 1, None),
            Arrival(2, 3, Some(r)), Arrival(1, 3, Some(r))];
  }

  /** Numbers 1 to 3 of locate 1, in order. */
  function Started(): seq<Arrival> {
    [Arrival(1, 1, None)] + [Arrival(1, 2, None)] + [Arrival(1, 3, None)]
  }

  lemma StartedRun()
    ensures GateRun(map[], Recover, Started()) == map[1 := 4] && Passed(map[], Recover, Started(), 1) == [1, 2, 3]
  {
    var s1: seq<Arrival> := [Arrival(1, 1, None)];
    FirstOne(s1);
    InOrderNext(s1, 2, [1]);
    InOrderNext(s1 + [Arrival(1, 2, None)], 3, [1, 2]);
  }

  lemma FirstOne(s: seq<Arrival>)
    requires s == [Arrival(1, 1, None)]
    ensures GateRun(map[], Recover, s) == map[1 := 2] && Passed(map[], Recover, s, 1) == [1]
  {
    assert [] + s == s;
    Appended([], s[0], map[], [], map[1 := 2], [1]);
  }

  /** The expected number of locate 1 passes. */
  lemma InOrderNext(init: seq<Arrival>, n: u64, passed: seq<nat>)
    requires n + 1 < MAX_SEQ
    requires GateRun(map[], Recover, init) == map[1 := n] && Passed(map[], Recover, init, 1) == passed
    ensures var all := init + [Arrival(1, n, None)];
            GateRun(map[], Recover, all) == map[1 := n + 1] && Passed(map[], Recover, all, 1) == passed + [n]
  {
    var e: Expected := map[1 := n];
    assert e[1 := n + 1] == map[1 := n + 1];
    Appended(init, Arrival(1, n, None), e, passed, map[1 := n + 1], passed + [n]);
  }

  lemma WoundBack(r: Response)
    requires r.loc == 1 && r.lastSeq == 0
    ensures var s := Started() + [Arrival(2, 1, None)] + [Arrival(2, 3, Some(r))];
            GateRun(map[], Recover, s) == map[1 := 1, 2 := 4] && Passed(map[], Recover, s, 1) == [1, 2, 3]
  {
    StartedRun();
    Appended(Started(), Arrival(2, 1, None), map[1 := 4], [1, 2, 3], map[1 := 4, 2 := 2], [1, 2, 3]);
    Appended(Started() + [Arrival(2, 1, None)], Arrival(2, 3, Some(r)), map[1 := 4, 2 := 2], [1, 2, 3],
             map[1 := 1, 2 := 4], [1, 2, 3]);
  }

  lemma PassesAgain(init: seq<Arrival>, r: Response)
    requires r.loc == 1 && r.lastSeq == 0
    requires GateRun(map[], Recover, init) == map[1 := 1, 2 := 4] && Passed(map[], Recover, init, 1) == [1, 2, 3]
    ensures var run := init + [Arrival(1, 3, Some(r))];
            && GateRun(map[], Recover, run) == map[1 := 4, 2 := 4]
            && Passed(map[], Recover, run, 1) == [1, 2, 3, 3] && !Reaching(map[], run, 1)
  {
    Appended(init, Arrival(1, 3, Some(r)), map[1 := 1, 2 := 4], [1, 2, 3], map[1 := 4, 2 := 4], [1, 2, 3, 3]);
    NotReached(init, Arrival(1, 3, Some(r)), map[1 := 1, 2 := 4]);
  }

  /** One more arrival at locate 1 or another one. */
  lemma Appended(init: seq<Arrival>, a: Arrival, e: Expected, passed: seq<nat>, e': Expected, passed': seq<nat>)
    requires GateRun(map[], Recover, init) == e && Passed(map[], Recover, init, 1) == passed
    requires e' == Gate(e, Recover, a).expected
    requires passed' == passed + (if a.loc == 1 && Gate(e, Recover, a).verdict == Pass then [a.num] else [])
    ensures GateRun(map[], Recover, init + [a]) == e' && Passed(map[], Recover, init + [a], 1) == passed'
  {
    assert (init + [a])[..|init|] == init;
  }

  lemma NotReached(init: seq<Arrival>, a: Arrival, e: Expected)
    requires GateRun(map[], Recover, init) == e && a.loc == 1
    requires Gate(e, Recover, a).installed.Some? && !Closes(Gate(e, Recover, a).installed.value, a)
    ensures !Reaching(map[], init + [a], 1)
  {
    ReachingNext(map[], init, a, 1);
  }
}
