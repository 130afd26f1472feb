/** The log-linear latency histogram: 32 buckets of 64 cells, one bucket per power of two. */
module Histograms {
  import opened Bytes

  const SUB_BITS: nat := 6
  const SUBS: nat := 64
  const BUCKETS: nat := 32
  const CELLS: nat := 2048

  /** The position of the highest set bit. */
  function TopBit(v: nat): nat
    requires v > 0
  {
    if v == 1 then 0 else 1 + TopBit(v / 2)
  }

  lemma {:induction false} TopBitBounds(v: nat)
    requires v > 0
    ensures PowerOf2(TopBit(v)) <= v < 2 * PowerOf2(TopBit(v))
  {
    if v > 1 {
      TopBitBounds(v / 2);
    }
  }

  lemma {:induction false} PowerGrows(a: nat, b: nat)
    requires a <= b
    ensures 0 < PowerOf2(a) <= PowerOf2(b)
    ensures a < b ==> 2 * PowerOf2(a) <= PowerOf2(b)
    decreases b
  {
    if a < b {
      PowerGrows(a, b - 1);
    } else if b > 0 {
      PowerGrows(a - 1, b - 1);
    }
  }

  lemma {:induction false} PowerShift(b: nat)
    ensures PowerOf2(b + SUB_BITS) == SUBS * PowerOf2(b)
  {
    assert PowerOf2(b + 2) == 4 * PowerOf2(b);
    assert PowerOf2(b + 4) == 16 * PowerOf2(b);
  }

  /** What bucket_index computes from the top bit on. */
  predicate Placed(v: nat, b: nat, s: nat) {
    (SUBS + s) * PowerOf2(b) <= v < (SUBS + s + 1) * PowerOf2(b)
  }

  /** bucket_index: the bucket and the cell in it. */
  function BucketIndex(v: u64): (c: (nat, nat))
    ensures c.0 < BUCKETS && c.1 < SUBS
  {
    if v <= 1 then (0, 0)
    else
      var top := TopBit(v);
      if top < SUB_BITS then SmallValue(v); (0, v - 1)
      else if top - SUB_BITS >= BUCKETS then (BUCKETS - 1, SUBS - 1)
      else (top - SUB_BITS, v / PowerOf2(top - SUB_BITS) % SUBS)
  }

  /** The lowest value a cell stands for. */
  function LowerBound(b: nat, s: nat): nat {
    if b == 0 then s + 1 else (SUBS + s) * PowerOf2(b)
  }

  lemma SmallValue(v: nat)
    requires v > 0
    ensures TopBit(v) < SUB_BITS <==> v < SUBS
  {
    TopBitBounds(v);
    PowerShift(0);
    if TopBit(v) < SUB_BITS {
      PowerGrows(TopBit(v), SUB_BITS);
    } else {
      PowerGrows(SUB_BITS, TopBit(v));
    }
  }

  // ---- Where a value goes -------------------------------------------------

  /** 2^38: from here on all values share the last cell. */
  const CLAMP: nat := 0x40_0000_0000

  lemma ClampIsPower()
    ensures PowerOf2(BUCKETS) == TWO32 && CLAMP == SUBS * PowerOf2(BUCKETS)
  {
    assert PowerOf2(4) == 0x10;
    assert PowerOf2(8) == 0x100;
    assert PowerOf2(12) == 0x1000;
    assert PowerOf2(16) == 0x1_0000;
    assert PowerOf2(20) == 0x10_0000;
    assert PowerOf2(24) == 0x100_0000;
    assert PowerOf2(28) == 0x1000_0000;
  }

  lemma Quotient(v: nat, p: nat)
    requires SUBS * p <= v < 2 * SUBS * p
    ensures p > 0 && SUBS <= v / p < 2 * SUBS && v / p * p <= v < (v / p + 1) * p
  {
    var q, r := v / p, v % p;
    assert v == q * p + r;
    assert (q + 1) * p == q * p + p;
    if q < SUBS {
      Ordered(q + 1, SUBS, p);
    }
    if q >= 2 * SUBS {
      Ordered(2 * SUBS, q, p);
    }
  }

  lemma Ordered(a: nat, b: nat, p: nat)
    requires a <= b
    ensures a * p <= b * p
  {
  }

  lemma PlacedQuotient(v: nat, b: nat)
    requires SUBS * PowerOf2(b) <= v < 2 * SUBS * PowerOf2(b)
    ensures Placed(v, b, v / PowerOf2(b) % SUBS)
  {
    Quotient(v, PowerOf2(b));
    var q := v / PowerOf2(b);
    var s := q % SUBS;
    assert SUBS + s == q;
  }

  /** Between 64 and 2^38 the bucket is the power of two and the cell the next six bits. */
  lemma PlacedAt(v: u64)
    requires SUBS <= v < CLAMP
    ensures Placed(v, BucketIndex(v).0, BucketIndex(v).1)
    ensures BucketIndex(v).0 == TopBit(v) - SUB_BITS
  {
    SmallValue(v);
    TopBitBounds(v);
    var b := TopBit(v) - SUB_BITS;
    PowerShift(b);
    PlacedQuotient(v, b);
    ClampIsPower();
    if b >= BUCKETS {
      PowerGrows(BUCKETS, b);
    }
  }

  lemma ClampedAt(v: u64)
    requires CLAMP <= v
    ensures BucketIndex(v) == (BUCKETS - 1, SUBS - 1)
  {
    SmallValue(v);
    TopBitBounds(v);
    var b := TopBit(v) - SUB_BITS;
    PowerShift(b);
    ClampIsPower();
    if b < BUCKETS {
      PowerGrows(b, BUCKETS);
    }
  }

  lemma SmallAt(v: u64)
    requires 1 <= v < SUBS
    ensures BucketIndex(v) == (0, v - 1)
  {
    SmallValue(v);
  }

  // ---- The error of one sample --------------------------------------------

  /** L <= v < L (1 + 1/64). */
  predicate Close(v: nat, lower: nat) {
    lower <= v && SUBS * v < (SUBS + 1) * lower
  }

  function Floor(v: u64): nat {
    var (b, s) := BucketIndex(v);
    LowerBound(b, s)
  }

  /** 127 * 2^31 * 65 / 64: the last value that the clamped cell still approximates. */
  const CLOSE_LIMIT: nat := 8255 * 0x200_0000

  predicate Representable(v: nat) {
    1 <= v < SUBS || 2 * SUBS <= v < CLOSE_LIMIT
  }

  lemma PlacedClose(v: nat, b: nat, s: nat)
    requires Placed(v, b, s)
    ensures Close(v, (SUBS + s) * PowerOf2(b))
  {
    var p := PowerOf2(b);
    assert (SUBS + s + 1) * p == (SUBS + s) * p + p;
    Ordered(SUBS, SUBS + s, p);
  }

  /** The bucket of a value is zero exactly below 128. */
  lemma BucketZero(v: u64)
    requires SUBS <= v < CLAMP
    ensures BucketIndex(v).0 == 0 <==> v < 2 * SUBS
  {
    PlacedAt(v);
    TopBitBounds(v);
    PowerShift(0);
    if BucketIndex(v).0 > 0 {
      PowerGrows(SUB_BITS + 1, TopBit(v));
      assert PowerOf2(SUB_BITS + 1) == 2 * PowerOf2(SUB_BITS);
    }
  }

  lemma LastCell()
    ensures LowerBound(BUCKETS - 1, SUBS - 1) == 127 * 0x8000_0000
    ensures (SUBS + 1) * (127 * 0x8000_0000) == SUBS * CLOSE_LIMIT
  {
    ClampIsPower();
    assert PowerOf2(BUCKETS) == 2 * PowerOf2(BUCKETS - 1);
  }

  /** A sample's cell stands for it to within one part in 64 if and only if the sample is in 1..63 or from 128 up to
      8255 * 2^25; below 64 it stands for exactly that sample. Zero, 64..127 and larger values are misrepresented. */
  lemma SampleBoundExact(v: u64)
    ensures Close(v, Floor(v)) <==> Representable(v)
    ensures 1 <= v < SUBS ==> Floor(v) == v
  {
    if 1 <= v < SUBS {
      SmallAt(v);
    } else if SUBS <= v < CLAMP {
      PlacedAt(v);
      BucketZero(v);
      if v >= 2 * SUBS {
        PlacedClose(v, BucketIndex(v).0, BucketIndex(v).1);
      } else {
        assert PowerOf2(0) == 1;
      }
    } else if CLAMP <= v {
      ClampedAt(v);
      LastCell();
    }
  }

  // ---- Order --------------------------------------------------------------

  /** The cell's place in the scan. */
  function Cell(v: u64): (c: nat)
    ensures c < CELLS
  {
    var (b, s) := BucketIndex(v);
    SUBS * b + s
  }

  /** The values 64..127 are filed among the small ones. */
  predicate Misfiled(v: nat) {
    SUBS <= v < 2 * SUBS
  }

  lemma PlacedOrder(v: nat, b: nat, s: nat, w: nat, c: nat, t: nat)
    requires v <= w && s < SUBS && t < SUBS && Placed(v, b, s) && Placed(w, c, t)
    ensures SUBS * b + s <= SUBS * c + t
  {
    if c < b {
      PowerGrows(c, b);
      Ordered(SUBS + t + 1, 2 * SUBS, PowerOf2(c));
      Ordered(SUBS, SUBS + s, PowerOf2(b));
    } else if c == b && t < s {
      Ordered(SUBS + t + 1, SUBS + s, PowerOf2(b));
    }
  }

  /** Larger samples never go to earlier cells, misfiled ones apart. */
  lemma CellMonotone(v: u64, w: u64)
    requires v <= w && !Misfiled(v) && !Misfiled(w)
    ensures Cell(v) <= Cell(w)
  {
    if CLAMP <= w {
      ClampedAt(w);
    } else if v >= 2 * SUBS {
      PlacedAt(v);
      PlacedAt(w);
      PlacedOrder(v, BucketIndex(v).0, BucketIndex(v).1, w, BucketIndex(w).0, BucketIndex(w).1);
    } else if w >= 2 * SUBS {
      BucketZero(w);
      if v > 0 {
        SmallAt(v);
      }
    } else {
      if v > 0 {
        SmallAt(v);
      }
      if w > 0 {
        SmallAt(w);
      }
    }
  }

  /** Misfiled samples come out 63 too low, and those below 126 before smaller samples that keep their own cells. */
  lemma MisfiledBreaks(v: u64)
    requires Misfiled(v)
    ensures Floor(v) == v - 63 && !Close(v, Floor(v))
    ensures v < 126 ==> v - 62 < v && Cell(v) < Cell(v - 62)
  {
    PlacedAt(v);
    BucketZero(v);
    assert PowerOf2(0) == 1;
    if v < 126 {
      SmallAt(v - 62);
    }
  }

  // ---- Recording and merging ----------------------------------------------

  datatype Summary = Summary(counts: seq<nat>, count: nat, total: u64, min: u64, max: u64)

  const MAX_U64: u64 := 0xFFFF_FFFF_FFFF_FFFF

  function Blank(): (h: Summary)
    ensures |h.counts| == CELLS
  {
    Summary(seq(CELLS, i => 0), 0, 0, MAX_U64, 0)
  }

  function Lesser(a: u64, b: u64): u64 { if b < a then b else a }

  function Greater(a: u64, b: u64): u64 { if b > a then b else a }

  function Recorded(h: Summary, v: u64): (r: Summary)
    requires |h.counts| == CELLS
    ensures |r.counts| == CELLS
  {
    var c := Cell(v);
    Summary(h.counts[c := h.counts[c] + 1], h.count + 1, (h.total + v) % TWO64, Lesser(h.min, v), Greater(h.max, v))
  }

  /** The histogram of a list of samples. */
  function Of(samples: seq<u64>): (h: Summary)
    ensures |h.counts| == CELLS
  {
    if samples == [] then Blank() else Recorded(Of(samples[..|samples| - 1]), samples[|samples| - 1])
  }

  function AddedCounts(g: seq<nat>, h: seq<nat>): (s: seq<nat>)
    requires |g| == |h| == CELLS
    ensures |s| == CELLS && forall i :: 0 <= i < CELLS ==> s[i] == g[i] + h[i]
  {
    seq(CELLS, i requires 0 <= i < CELLS => g[i] + h[i])
  }

  function Merged(g: Summary, h: Summary): (r: Summary)
    requires |g.counts| == CELLS && |h.counts| == CELLS
    ensures |r.counts| == CELLS
  {
    Summary(AddedCounts(g.counts, h.counts), g.count + h.count,
            (g.total + h.total) % TWO64, Lesser(g.min, h.min), Greater(g.max, h.max))
  }

  lemma ModAdd(a: nat, b: nat, c: nat)
    ensures (a + (b + c) % TWO64) % TWO64 == ((a + b) % TWO64 + c) % TWO64
  {
    var q1, q2 := (b + c) / TWO64, (a + b) / TWO64;
    var left, right := a + (b + c) % TWO64, (a + b) % TWO64 + c;
    assert left + q1 * TWO64 == right + q2 * TWO64;
    ModUnique(left, TWO64, right / TWO64 + q2 - q1, right % TWO64);
  }

  lemma MergeRecorded(g: Summary, h: Summary, v: u64)
    requires |g.counts| == CELLS && |h.counts| == CELLS
    ensures Merged(g, Recorded(h, v)) == Recorded(Merged(g, h), v)
  {
    ModAdd(g.total, h.total, v);
    CountsAdd(g.counts, h.counts, Cell(v));
  }

  lemma CountsAdd(g: seq<nat>, h: seq<nat>, c: nat)
    requires |g| == |h| == CELLS && c < CELLS
    ensures AddedCounts(g, h[c := h[c] + 1]) == AddedCounts(g, h)[c := g[c] + h[c] + 1]
  {
  }

  lemma MergeBlank(h: Summary)
    requires |h.counts| == CELLS
    ensures Merged(h, Blank()) == h
  {
    assert Merged(h, Blank()).counts == h.counts;
  }

  lemma OfSnoc(samples: seq<u64>, v: u64)
    ensures Of(samples + [v]) == Recorded(Of(samples), v)
  {
    assert (samples + [v])[..|samples|] == samples;
  }

  /** Merging gives the histogram of the combined recordings. */
  lemma {:induction false} MergeCombines(a: seq<u64>, b: seq<u64>)
    ensures Merged(Of(a), Of(b)) == Of(a + b)
    decreases |b|
  {
    if b == [] {
      assert a + b == a;
      MergeBlank(Of(a));
    } else {
      var init, last := b[..|b| - 1], b[|b| - 1];
      MergeCombines(a, init);
      MergeRecorded(Of(a), Of(init), last);
      OfSnoc(a + init, last);
      assert a + b == a + init + [last];
    }
  }

  function SampleSum(samples: seq<u64>): nat {
    if samples == [] then 0 else SampleSum(samples[..|samples| - 1]) + samples[|samples| - 1]
  }

  lemma SumWraps(n: nat, v: nat)
    ensures (n % TWO64 + v) % TWO64 == (n + v) % TWO64
  {
    ModUnique(n % TWO64 + v, TWO64, (n + v) / TWO64 - n / TWO64, (n + v) % TWO64);
  }

  /** These are the scalars of a summary of these samples. */
  ghost predicate Scalars(samples: seq<u64>, count: nat, total: u64, min: u64, max: u64) {
    && count == |samples| && total == SampleSum(samples) % TWO64
    && (samples == [] ==> min == 0xFFFF_FFFF_FFFF_FFFF && max == 0)
    && (samples != [] ==> min in samples && max in samples)
    && forall v :: v in samples ==> min <= v <= max
  }

  lemma ScalarsNext(samples: seq<u64>, v: u64, count: nat, total: u64, min: u64, max: u64)
    requires Scalars(samples, count, total, min, max)
    ensures Scalars(samples + [v], count + 1, (total + v) % TWO64, if v < min then v else min,
                    if v > max then v else max)
  {
    SumWraps(SampleSum(samples), v);
    assert (samples + [v])[..|samples|] == samples;
  }

  lemma RecordedScalars(h: Summary, v: u64, h': Summary)
    requires |h.counts| == CELLS && h' == Recorded(h, v)
    ensures h'.count == h.count + 1 && h'.total == (h.total + v) % TWO64
    ensures h'.min == (if v < h.min then v else h.min) && h'.max == if v > h.max then v else h.max
  {
  }

  lemma ScalarsRecorded(samples: seq<u64>, v: u64, g: Summary, h: Summary)
    requires |g.counts| == CELLS && h == Recorded(g, v) && Scalars(samples, g.count, g.total, g.min, g.max)
    ensures Scalars(samples + [v], h.count, h.total, h.min, h.max)
  {
    RecordedScalars(g, v, h);
    ScalarsNext(samples, v, g.count, g.total, g.min, g.max);
  }

  lemma OfLast(samples: seq<u64>, init: seq<u64>, v: u64)
    requires samples == init + [v]
    ensures Of(samples) == Recorded(Of(init), v)
  {
    OfSnoc(init, v);
  }

  /** A histogram's scalars: the number of samples, their sum modulo 2^64, the least and the greatest of them. */
  lemma {:induction false} ScalarsExact(samples: seq<u64>, h: Summary)
    requires h == Of(samples)
    ensures Scalars(samples, h.count, h.total, h.min, h.max)
    decreases |samples|
  {
    if samples != [] {
      var init, last := samples[..|samples| - 1], samples[|samples| - 1];
      assert samples == init + [last];
      ScalarsExact(init, Of(init));
      OfLast(samples, init, last);
      ScalarsRecorded(init, last, Of(init), h);
    }
  }

  // ---- Ranks --------------------------------------------------------------

  /** How many samples satisfy p. */
  ghost function Number(samples: seq<u64>, p: u64 -> bool): (n: nat)
    ensures n <= |samples|
  {
    if samples == [] then 0
    else Number(samples[..|samples| - 1], p) + (if p(samples[|samples| - 1]) then 1 else 0)
  }

  ghost function InCell(c: nat): u64 -> bool { (v: u64) => Cell(v) == c }

  ghost function BeforeCell(c: nat): u64 -> bool { (v: u64) => Cell(v) < c }

  ghost function Below(x: nat): u64 -> bool { (v: u64) => v < x }

  /** x is the k-th smallest sample: fewer than k are below it, and at least k are not above it. */
  ghost predicate KthSmallest(samples: seq<u64>, k: nat, x: u64) {
    x in samples && Number(samples, Below(x)) < k <= Number(samples, Below(x + 1))
  }

  lemma {:induction false} NumberWeaker(samples: seq<u64>, p: u64 -> bool, q: u64 -> bool)
    requires forall v :: v in samples && p(v) ==> q(v)
    ensures Number(samples, p) <= Number(samples, q)
  {
    if samples != [] {
      var init := samples[..|samples| - 1];
      assert forall v :: v in init ==> v in samples;
      NumberWeaker(init, p, q);
      assert samples[|samples| - 1] in samples;
    }
  }

  lemma {:induction false} NumberNext(samples: seq<u64>, c: nat)
    ensures Number(samples, BeforeCell(c + 1)) == Number(samples, BeforeCell(c)) + Number(samples, InCell(c))
  {
    if samples != [] {
      NumberNext(samples[..|samples| - 1], c);
    }
  }

  lemma {:induction false} NumberNone(samples: seq<u64>)
    ensures Number(samples, BeforeCell(0)) == 0
  {
    if samples != [] {
      NumberNone(samples[..|samples| - 1]);
    }
  }

  /** The counters hold the number of samples per cell. */
  lemma {:induction false} CountersCount(samples: seq<u64>, c: nat)
    requires c < CELLS
    ensures Of(samples).counts[c] == Number(samples, InCell(c)) && Of(samples).count == |samples|
  {
    if samples != [] {
      CountersCount(samples[..|samples| - 1], c);
    }
  }

  function Sum(counts: seq<nat>): nat {
    if counts == [] then 0 else Sum(counts[..|counts| - 1]) + counts[|counts| - 1]
  }

  lemma SumNext(counts: seq<nat>, c: nat)
    requires c < |counts|
    ensures Sum(counts[..c + 1]) == Sum(counts[..c]) + counts[c]
  {
    assert counts[..c + 1][..c] == counts[..c];
  }

  /** A running total of the counters is a number of samples. */
  lemma {:induction false} RunningTotal(samples: seq<u64>, c: nat)
    requires c <= CELLS
    ensures Sum(Of(samples).counts[..c]) == Number(samples, BeforeCell(c))
  {
    if c == 0 {
      NumberNone(samples);
    } else {
      RunningTotal(samples, c - 1);
      SumNext(Of(samples).counts, c - 1);
      CountersCount(samples, c - 1);
      NumberNext(samples, c - 1);
    }
  }

  /** The scan for rank k stops at cell c. */
  ghost predicate StopsAt(counts: seq<nat>, k: nat, c: nat) {
    c < |counts| && (c > 0 ==> Sum(counts[..c]) < k) && Sum(counts[..c + 1]) >= k
  }

  /** What the scan returns there. */
  function CellFloor(c: nat): nat {
    LowerBound(c / SUBS, c % SUBS)
  }

  lemma CellOfFloor(v: u64)
    ensures CellFloor(Cell(v)) == Floor(v)
  {
  }

  /** Which cells the values below 128 share, and that no other value goes there. */
  lemma LowCells(v: u64)
    ensures Cell(v) < SUBS <==> v < 2 * SUBS
    ensures v < 2 * SUBS ==> Cell(v) == if v == 0 then 0 else if v < SUBS then v - 1 else v - SUBS
  {
    if 1 <= v < SUBS {
      SmallAt(v);
    } else if SUBS <= v < CLAMP {
      PlacedAt(v);
      BucketZero(v);
      assert PowerOf2(0) == 1;
    } else if CLAMP <= v {
      ClampedAt(v);
    }
  }

  /** Samples up to x lie in cells up to c: then the scan for x's rank goes no further than c. */
  lemma ScanStopsBy(samples: seq<u64>, k: nat, x: u64, stop: nat, c: nat)
    requires KthSmallest(samples, k, x) && StopsAt(Of(samples).counts, k, stop)
    requires forall v :: v in samples && v <= x ==> Cell(v) <= c
    ensures stop <= c
  {
    RunningTotal(samples, stop);
    if c < stop {
      NumberWeaker(samples, Below(x + 1), BeforeCell(stop));
    }
  }

  /** Fewer than k samples lie in cells before c: then it goes at least as far as c. */
  lemma ScanReaches(samples: seq<u64>, k: nat, stop: nat, c: nat)
    requires StopsAt(Of(samples).counts, k, stop) && Number(samples, BeforeCell(c)) < k
    ensures c <= stop
  {
    RunningTotal(samples, stop + 1);
    if stop < c {
      NumberWeaker(samples, BeforeCell(stop + 1), BeforeCell(c));
    }
  }

  /** The sample's cell separates the smaller samples from the larger ones. */
  ghost predicate InOrder(samples: seq<u64>, x: u64) {
    forall v :: v in samples ==> (v <= x ==> Cell(v) <= Cell(x)) && (v >= x ==> Cell(x) <= Cell(v))
  }

  /** Then the scan stops at the cell of the k-th smallest sample. */
  lemma ScanFindsCell(samples: seq<u64>, k: nat, x: u64, stop: nat)
    requires InOrder(samples, x) && KthSmallest(samples, k, x) && StopsAt(Of(samples).counts, k, stop)
    ensures stop == Cell(x)
  {
    ScanStopsBy(samples, k, x, stop, Cell(x));
    NumberWeaker(samples, BeforeCell(Cell(x)), Below(x));
    ScanReaches(samples, k, stop, Cell(x));
  }

  /** Nothing is out of order around a sample from 128 on, whatever else was recorded. */
  lemma LargeInOrder(samples: seq<u64>, x: u64)
    requires x >= 2 * SUBS
    ensures InOrder(samples, x)
  {
    forall v | v in samples
      ensures (v <= x ==> Cell(v) <= Cell(x)) && (v >= x ==> Cell(x) <= Cell(v))
    {
      LowCells(v);
      LowCells(x);
      if v >= 2 * SUBS {
        if v <= x { CellMonotone(v, x); } else { CellMonotone(x, v); }
      }
    }
  }

  /** Samples that the histogram shows below x. */
  ghost function ShownBelow(x: nat): u64 -> bool { (v: u64) => Floor(v) < x }

  /** Below 64, cells before that of x are those shown below x. */
  lemma ShownIsBefore(samples: seq<u64>, x: u64)
    requires 1 <= x < SUBS
    ensures Number(samples, ShownBelow(x)) == Number(samples, BeforeCell(x - 1))
  {
    forall v: u64
      ensures ShownBelow(x)(v) <==> BeforeCell(x - 1)(v)
    {
      ShownAgainst(v, x);
    }
    NumberWeaker(samples, ShownBelow(x), BeforeCell(x - 1));
    NumberWeaker(samples, BeforeCell(x - 1), ShownBelow(x));
  }

  lemma ShownAgainst(v: u64, x: u64)
    requires 1 <= x < SUBS
    ensures Floor(v) < x <==> Cell(v) < x - 1
  {
    LowCells(v);
    CellOfFloor(v);
    if v >= 2 * SUBS {
      LargeFloor(v);
    } else {
      assert CellFloor(Cell(v)) == Cell(v) + 1;
    }
  }

  lemma LargeFloor(v: u64)
    requires v >= 2 * SUBS
    ensures Floor(v) >= SUBS
  {
    if v < CLAMP {
      PlacedAt(v);
      BucketZero(v);
      var (b, s) := BucketIndex(v);
      Ordered(1, PowerOf2(b), SUBS + s);
    } else {
      ClampedAt(v);
      LastCell();
    }
  }

  /** A sample in 1..63 comes out exactly if fewer than k samples are shown below it, and too low otherwise. */
  lemma SmallPercentile(samples: seq<u64>, k: nat, x: u64, stop: nat)
    requires 1 <= x < SUBS && KthSmallest(samples, k, x) && StopsAt(Of(samples).counts, k, stop)
    ensures CellFloor(stop) <= x
    ensures CellFloor(stop) == x <==> Number(samples, ShownBelow(x)) < k
  {
    ShownIsBefore(samples, x);
    forall v | v in samples && v <= x
      ensures Cell(v) <= x - 1
    {
      LowCells(v);
    }
    ScanStopsBy(samples, k, x, stop, x - 1);
    assert CellFloor(stop) == stop + 1;
    if stop == x - 1 {
      RunningTotal(samples, stop);
      NumberNone(samples);
    }
    if Number(samples, BeforeCell(x - 1)) < k {
      ScanReaches(samples, k, stop, x - 1);
    }
  }

  /** A sample in 64..127 never comes out within the bound. */
  lemma MisfiledPercentile(samples: seq<u64>, k: nat, x: u64, stop: nat)
    requires Misfiled(x) && KthSmallest(samples, k, x) && StopsAt(Of(samples).counts, k, stop)
    ensures !Close(x, CellFloor(stop))
  {
    var c := if x == SUBS then SUBS - 2 else SUBS - 1;
    forall v | v in samples && v <= x
      ensures Cell(v) <= c
    {
      LowCells(v);
    }
    ScanStopsBy(samples, k, x, stop, c);
    assert CellFloor(stop) == stop + 1;
  }

  /** The percentile bound for every list of samples and every rank. The scan for rank k returns a value within one part
      in 64 below the k-th smallest sample x if and only if x lies in [128, 8255 * 2^25), or x lies in 1..63 and fewer
      than k samples are shown below it; in the latter case it returns x itself. */
  lemma PercentileExact(samples: seq<u64>, k: nat, x: u64, r: nat)
    requires KthSmallest(samples, k, x) && Scanned(Of(samples).counts, k, Of(samples).max, r)
    ensures Close(x, r) <==>
            2 * SUBS <= x < CLOSE_LIMIT || (1 <= x < SUBS && Number(samples, ShownBelow(x)) < k)
    ensures x >= 2 * SUBS ==> r == Floor(x)
    ensures 1 <= x < SUBS ==> r <= x && (r == x <==> Number(samples, ShownBelow(x)) < k)
  {
    TotalIsCount(samples);
    var stop :| StopsAt(Of(samples).counts, k, stop) && r == CellFloor(stop);
    if x >= 2 * SUBS {
      LargeInOrder(samples, x);
      ScanFindsCell(samples, k, x, stop);
      CellOfFloor(x);
      SampleBoundExact(x);
    } else if x >= SUBS {
      MisfiledPercentile(samples, k, x, stop);
    } else if x >= 1 {
      SmallPercentile(samples, k, x, stop);
    }
  }

  ghost predicate NoneMisfiled(samples: seq<u64>) {
    forall v :: v in samples ==> !Misfiled(v)
  }

  lemma UnmisfiledInOrder(samples: seq<u64>, x: u64)
    requires NoneMisfiled(samples) && !Misfiled(x)
    ensures InOrder(samples, x)
  {
    forall v | v in samples
      ensures (v <= x ==> Cell(v) <= Cell(x)) && (v >= x ==> Cell(x) <= Cell(v))
    {
      if v <= x { CellMonotone(v, x); } else { CellMonotone(x, v); }
    }
  }

  /** So if no sample lies in 64..127, every rank comes out as the floor of its sample's own cell. */
  lemma PercentileWithoutMisfiled(samples: seq<u64>, k: nat, x: u64, r: nat)
    requires NoneMisfiled(samples) && KthSmallest(samples, k, x)
    requires Scanned(Of(samples).counts, k, Of(samples).max, r)
    ensures r == Floor(x) && (Close(x, r) <==> Representable(x))
  {
    TotalIsCount(samples);
    var stop :| StopsAt(Of(samples).counts, k, stop) && r == CellFloor(stop);
    UnmisfiledInOrder(samples, x);
    ScanFindsCell(samples, k, x, stop);
    CellOfFloor(x);
    SampleBoundExact(x);
  }

  // ---- Every rank has a sample and a cell ---------------------------------

  lemma {:induction false} NumberAll(samples: seq<u64>, p: u64 -> bool)
    requires forall v: u64 :: p(v)
    ensures Number(samples, p) == |samples|
  {
    if samples != [] {
      NumberAll(samples[..|samples| - 1], p);
    }
  }

  /** The counters add up to the number of samples, so a scan for a rank up to that number always stops. */
  lemma TotalIsCount(samples: seq<u64>)
    ensures Sum(Of(samples).counts) == Of(samples).count == |samples|
  {
    RunningTotal(samples, CELLS);
    assert Of(samples).counts[..CELLS] == Of(samples).counts;
    NumberAll(samples, BeforeCell(CELLS));
    CountersCount(samples, 0);
  }

  lemma {:induction false} KthUnder(samples: seq<u64>, k: nat, bound: nat) returns (x: u64)
    requires 0 < k <= Number(samples, Below(bound)) && bound <= TWO64
    ensures KthSmallest(samples, k, x)
    decreases bound
  {
    if bound == 0 {
      NumberWeaker(samples, Below(0), BeforeCell(0));
      NumberNone(samples);
      assert false;
    } else if Number(samples, Below(bound - 1)) >= k {
      x := KthUnder(samples, k, bound - 1);
    } else {
      x := bound - 1;
      if x !in samples {
        NumberWeaker(samples, Below(bound), Below(bound - 1));
      }
    }
  }

  /** Every rank from 1 to the number of samples belongs to exactly one sample. */
  lemma KthExists(samples: seq<u64>, k: nat) returns (x: u64)
    requires 1 <= k <= |samples|
    ensures KthSmallest(samples, k, x)
    ensures forall y: u64 :: KthSmallest(samples, k, y) ==> y == x
  {
    NumberAll(samples, Below(TWO64));
    x := KthUnder(samples, k, TWO64);
    forall y: u64 | KthSmallest(samples, k, y)
      ensures y == x
    {
      if x < y {
        NumberWeaker(samples, Below(x + 1), Below(y));
      } else if y < x {
        NumberWeaker(samples, Below(y + 1), Below(x));
      }
    }
  }

  /** What a scan returns: the floor of the cell it stops at, or the largest sample if the rank is beyond the total. */
  ghost predicate Scanned(counts: seq<nat>, k: nat, max: u64, r: nat) {
    (exists c :: StopsAt(counts, k, c) && r == CellFloor(c)) || (Sum(counts) < k && r == max)
  }

  lemma StopHere(counts: seq<nat>, k: nat, max: u64, b: nat, s: nat)
    requires s < SUBS && StopsAt(counts, k, SUBS * b + s)
    ensures Scanned(counts, k, max, LowerBound(b, s))
  {
    assert CellFloor(SUBS * b + s) == LowerBound(b, s);
  }

  /** Two lists that come out wrong. A single sample of 100 has a median of 37; and the samples 63 and 64 have the
      smallest sample 63 but come out with 1 in its place. */
  lemma PercentileFails(r: nat, q: nat)
    requires Scanned(Of([100]).counts, 1, Of([100]).max, r)
    requires Scanned(Of([63, 64]).counts, 1, Of([63, 64]).max, q)
    ensures KthSmallest([100], 1, 100) && r == 37 && !Close(100, r)
    ensures KthSmallest([63, 64], 1, 63) && q == 1 && !Close(63, q)
  {
    OneFails([100], r);
    TwoFail([63, 64], q);
  }

  lemma OneFails(samples: seq<u64>, r: nat)
    requires samples == [100] && Scanned(Of(samples).counts, 1, Of(samples).max, r)
    ensures KthSmallest(samples, 1, 100) && r == 37 && !Close(100, r)
  {
    LowCells(100);
    NumberOne(samples, Below(100));
    NumberOne(samples, Below(101));
    NumberOne(samples, BeforeCell(36));
    NumberOne(samples, BeforeCell(37));
    StopOf(samples, 1, r, 36);
  }

  lemma TwoFail(samples: seq<u64>, q: nat)
    requires samples == [63, 64] && Scanned(Of(samples).counts, 1, Of(samples).max, q)
    ensures KthSmallest(samples, 1, 63) && q == 1 && !Close(63, q)
  {
    LowCells(63);
    LowCells(64);
    NumberTwo(samples, Below(63));
    NumberTwo(samples, Below(64));
    NumberTwo(samples, BeforeCell(0));
    NumberTwo(samples, BeforeCell(1));
    assert samples[0] == 63;
    StopOf(samples, 1, q, 0);
  }

  lemma NumberOne(samples: seq<u64>, p: u64 -> bool)
    requires |samples| == 1
    ensures Number(samples, p) == if p(samples[0]) then 1 else 0
  {
    assert samples[..0] == [];
  }

  lemma NumberTwo(samples: seq<u64>, p: u64 -> bool)
    requires |samples| == 2
    ensures Number(samples, p) == (if p(samples[0]) then 1 else 0) + (if p(samples[1]) then 1 else 0)
  {
    NumberOne(samples[..1], p);
  }

  /** The scan stops at the first cell with enough samples up to it. */
  lemma StopOf(samples: seq<u64>, k: nat, r: nat, c: nat)
    requires 1 <= k <= |samples| && c < CELLS && Scanned(Of(samples).counts, k, Of(samples).max, r)
    requires Number(samples, BeforeCell(c)) < k <= Number(samples, BeforeCell(c + 1))
    ensures r == CellFloor(c)
  {
    TotalIsCount(samples);
    var stop :| StopsAt(Of(samples).counts, k, stop) && r == CellFloor(stop);
    ScanReaches(samples, k, stop, c);
    ScanGoesNoFurther(samples, k, stop, c);
  }

  lemma ScanGoesNoFurther(samples: seq<u64>, k: nat, stop: nat, c: nat)
    requires StopsAt(Of(samples).counts, k, stop) && k <= Number(samples, BeforeCell(c + 1))
    ensures stop <= c
  {
    if c < stop {
      RunningTotal(samples, stop);
      NumberWeaker(samples, BeforeCell(c + 1), BeforeCell(stop));
    }
  }

  // ---- The code -----------------------------------------------------------

  class Histogram {
    const counts: array<nat>
    var count: nat
    var total: u64
    var min: u64
    var max: u64

    ghost predicate Valid()
      reads this
    {
      counts.Length == CELLS
    }

    function View(): (h: Summary)
      requires counts.Length == CELLS
      reads this, counts
      ensures |h.counts| == CELLS
    {
      Summary(counts[..], count, total, min, max)
    }

    constructor ()
      ensures Valid() && fresh(counts) && View() == Of([])
    {
      counts := new nat[CELLS](i => 0);
      count, total, min, max := 0, 0, MAX_U64, 0;
      new;
      assert counts[..] == seq(CELLS, i => 0);
    }

    method Record(v: u64)
      requires Valid()
      modifies this, counts
      ensures View() == Recorded(old(View()), v)
    {
      var (b, s) := BucketIndex(v);
      var c := SUBS * b + s;
      counts[c] := counts[c] + 1;
      count := count + 1;
      total := (total + v) % TWO64;
      if v < min {
        min := v;
      }
      if v > max {
        max := v;
      }
    }

    /** Merging a histogram into itself doubles it. */
    method Merge(other: Histogram)
      requires Valid() && other.Valid() && (counts == other.counts ==> this == other)
      modifies this, counts
      ensures View() == Merged(old(View()), old(other.View()))
    {
      for i := 0 to CELLS
        invariant forall j :: i <= j < CELLS ==> counts[j] == old(counts[j]) && other.counts[j] == old(other.counts[j])
        invariant forall j :: 0 <= j < i ==> counts[j] == old(counts[j]) + old(other.counts[j])
        invariant (count, total, min, max) == old((count, total, min, max))
        invariant (other.count, other.total, other.min, other.max) ==
                  old((other.count, other.total, other.min, other.max))
      {
        counts[i] := counts[i] + other.counts[i];
      }
      count := count + other.count;
      total := (total + other.total) % TWO64;
      min := Lesser(min, other.min);
      max := Greater(max, other.max);
      assert counts[..] == Merged(old(View()), old(other.View())).counts;
    }

    method Reset()
      requires Valid()
      modifies this, counts
      ensures View() == Of([])
    {
      for i := 0 to CELLS
        invariant forall j :: 0 <= j < i ==> counts[j] == 0
      {
        counts[i] := 0;
      }
      count, total, min, max := 0, 0, MAX_U64, 0;
      assert counts[..] == seq(CELLS, i => 0);
    }

    /** The scan of percentile, from the integer rank on. */
    method Percentile(target: nat) returns (r: nat)
      requires Valid()
      ensures count == 0 ==> r == 0
      ensures count > 0 ==> Scanned(counts[..], target, max, r)
    {
      if count == 0 {
        return 0;
      }
      ghost var all := counts[..];
      var running := 0;
      for b := 0 to BUCKETS
        invariant running == Sum(all[..SUBS * b]) && (b > 0 ==> running < target)
      {
        for s := 0 to SUBS
          invariant running == Sum(all[..SUBS * b + s]) && (SUBS * b + s > 0 ==> running < target)
        {
          SumNext(all, SUBS * b + s);
          running := running + counts[SUBS * b + s];
          if running >= target {
            StopHere(all, target, max, b, s);
            return LowerBound(b, s);
          }
        }
      }
      assert all[..CELLS] == all;
      return max;
    }
  }
}
