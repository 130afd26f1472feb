/** Changes that straddle the end of the checked bytes and the CRC field behind them: which of them the CRC misses. */
module CrcTail {
  import opened Bytes
  import opened Crc32

  // ---- Bits and bytes -----------------------------------------------------

  lemma ValueFront(bits: seq<bool>)
    requires bits != []
    ensures ValueOf(bits) == One(bits[0]) + 2 * ValueOf(bits[1..])
  {
  }

  function One(b: bool): nat {
    if b then 1 else 0
  }

  lemma {:induction false} ValueAppend(a: seq<bool>, b: seq<bool>, n: nat)
    requires n == |a|
    ensures ValueOf(a + b) == ValueOf(a) + PowerOf2(n) * ValueOf(b)
    decreases n
  {
    if n == 0 {
      assert a + b == b && a == [];
    } else {
      var k := n - 1;
      assert (a + b)[1..] == a[1..] + b;
      ValueAppend(a[1..], b, k);
      ValueFront(a + b);
      ValueFront(a);
      Doubled(PowerOf2(k), ValueOf(b), PowerOf2(n));
    }
  }

  lemma Doubled(p: nat, v: nat, q: nat)
    requires q == 2 * p
    ensures 2 * (p * v) == q * v
  {
  }

  /** A word as four bytes, the lowest first. */
  lemma FourBytes(a: seq<bool>, b: seq<bool>, c: seq<bool>, d: seq<bool>)
    requires |a| == |b| == |c| == |d| == OCTET
    ensures ValueOf(a + (b + (c + d))) ==
            ValueOf(a) + 256 * (ValueOf(b) + 256 * (ValueOf(c) + 256 * ValueOf(d)))
  {
    PowerValues();
    ValueAppend(a, b + (c + d), OCTET);
    ValueAppend(b, c + d, OCTET);
    ValueAppend(c, d, OCTET);
  }

  lemma ByteValue(bits: seq<bool>)
    requires |bits| == OCTET
    ensures ValueOf(bits) < 256 && BitsOf(ValueOf(bits), OCTET) == bits
  {
    PowerValues();
    ValueBound(bits);
    BitsOfValue(bits);
  }

  lemma TakeFour(a: nat, b: nat, c: nat, d: nat)
    requires a < 256 && b < 256 && c < 256 && d < 256
    ensures Take([a, b, c, d]) == d + 256 * (c + 256 * (b + 256 * a))
  {
    var s: seq<byte> := [a, b, c, d];
    assert s[..3] == [a, b, c] && s[..3][..2] == [a, b] && s[..2][..1] == [a] && s[..1][..0] == [];
    assert Take([a]) == a;
    assert Take([a, b]) == 256 * Take([a]) + b;
    assert Take([a, b, c]) == 256 * Take([a, b]) + c;
  }

  /** The four bytes a word is written as, the highest first. */
  lemma FieldBytes(a: seq<bool>, b: seq<bool>, c: seq<bool>, d: seq<bool>)
    requires |a| == |b| == |c| == |d| == OCTET
    ensures ValueOf(a) < 256 && ValueOf(b) < 256 && ValueOf(c) < 256 && ValueOf(d) < 256
    ensures Put32(ValueOf(a + (b + (c + d)))) == [ValueOf(d), ValueOf(c), ValueOf(b), ValueOf(a)]
  {
    FourBytes(a, b, c, d);
    ByteValue(a);
    ByteValue(b);
    ByteValue(c);
    ByteValue(d);
    PutFour(ValueOf(d), ValueOf(c), ValueOf(b), ValueOf(a));
  }

  lemma PutFour(a: nat, b: nat, c: nat, d: nat)
    requires a < 256 && b < 256 && c < 256 && d < 256
    ensures Put32(d + 256 * (c + 256 * (b + 256 * a))) == [a, b, c, d]
  {
    var s: seq<byte> := [a, b, c, d];
    TakeFour(a, b, c, d);
    PutTake(s);
  }

  // ---- What comes out of the register, by its feedback --------------------

  /** The set bits of the polynomial 0xEDB88320. */
  predicate Tap(j: nat) {
    || j == 5 || j == 8 || j == 9 || j == 15 || j == 19 || j == 20 || j == 21 || j == 23 || j == 24
    || j == 26 || j == 27 || j == 29 || j == 30 || j == 31
  }

  function Taps(lo: nat): (bits: seq<bool>)
    ensures |bits| == OCTET && forall i :: 0 <= i < OCTET ==> bits[i] == Tap(lo + i)
  {
    seq(OCTET, i requires 0 <= i => Tap(lo + i))
  }

  lemma EightValue(b: seq<bool>)
    requires |b| == OCTET
    ensures ValueOf(b) == One(b[0]) + 2 * (One(b[1]) + 2 * (One(b[2]) + 2 * (One(b[3]) + 2 * (
                          One(b[4]) + 2 * (One(b[5]) + 2 * (One(b[6]) + 2 * One(b[7])))))))
  {
    TwoValue(b);
    TwoValue(b[2..]);
    TwoValue(b[2..][2..]);
    TwoValue(b[2..][2..][2..]);
    assert b[2..][2..][2..][2..] == [];
  }

  lemma TwoValue(b: seq<bool>)
    requires |b| >= 2
    ensures ValueOf(b) == One(b[0]) + 2 * (One(b[1]) + 2 * ValueOf(b[2..]))
  {
    assert b[1..][1..] == b[2..];
  }

  lemma TapValue(b: seq<bool>, lo: nat)
    requires |b| == OCTET && forall i :: 0 <= i < OCTET ==> b[i] == Tap(lo + i)
    ensures lo == 0 ==> ValueOf(b) == 0x20
    ensures lo == 8 ==> ValueOf(b) == 0x83
    ensures lo == 16 ==> ValueOf(b) == 0xB8
    ensures lo == 24 ==> ValueOf(b) == 0xED
  {
    EightValue(b);
  }

  lemma TapIsPolynomial(j: nat)
    requires j < 32
    ensures Polynomial()[j] == Tap(j)
  {
    var a, b, c, d := Taps(0), Taps(8), Taps(16), Taps(24);
    TapValue(a, 0);
    TapValue(b, 8);
    TapValue(c, 16);
    TapValue(d, 24);
    TapWord(a, b, c, d);
    TapAt(a, b, c, d, j);
  }

  lemma TapAt(a: seq<bool>, b: seq<bool>, c: seq<bool>, d: seq<bool>, j: nat)
    requires a == Taps(0) && b == Taps(8) && c == Taps(16) && d == Taps(24) && j < 32
    ensures (a + (b + (c + d)))[j] == Tap(j)
  {
  }

  lemma TapWord(a: seq<bool>, b: seq<bool>, c: seq<bool>, d: seq<bool>)
    requires |a| == |b| == |c| == |d| == OCTET
    requires ValueOf(a) == 0x20 && ValueOf(b) == 0x83 && ValueOf(c) == 0xB8 && ValueOf(d) == 0xED
    ensures Polynomial() == a + (b + (c + d))
  {
    FourBytes(a, b, c, d);
    BitsOfValue(a + (b + (c + d)));
  }

  lemma StepsFront(c: Word, n: nat, k: nat)
    requires n == k + 1
    ensures Steps(c, n) == Steps(Step(c), k)
  {
  }

  lemma {:induction false} StepsSnoc(c: Word, n: nat, m: nat)
    requires m == n + 1
    ensures Steps(c, m) == Step(Steps(c, n))
    decreases n
  {
    StepsFront(c, m, n);
    if n > 0 {
      var k := n - 1;
      StepsFront(c, n, k);
      StepsSnoc(Step(c), k, n);
    }
  }

  /** The bit that leaves the register after k steps. */
  ghost function Out(c: Word, k: nat): bool {
    Steps(c, k)[0]
  }

  /** What the bits that left in n steps have put back at place i. */
  ghost predicate Fed(c: Word, i: nat, n: nat)
    decreases n
  {
    n > 0 && (Fed(c, i + 1, n - 1) != (Out(c, n - 1) && Tap(i)))
  }

  lemma {:induction false} FedBeyond(c: Word, i: nat, n: nat)
    requires i >= 32
    ensures !Fed(c, i, n)
    decreases n
  {
    if n > 0 {
      FedBeyond(c, i + 1, n - 1);
    }
  }

  lemma StepTap(w: Word, i: nat)
    requires i < 32
    ensures Step(w)[i] == ((i < 31 && w[i + 1]) != (w[0] && Tap(i)))
  {
    StepAt(w, i);
    TapIsPolynomial(i);
  }

  /** A place holds what was shifted down to it, and what was fed back. */
  lemma {:induction false} StepsAt(c: Word, n: nat, i: nat)
    requires i < 32
    ensures Steps(c, n)[i] == ((i + n < 32 && c[i + n]) != Fed(c, i, n))
    decreases n
  {
    if n > 0 {
      var m := n - 1;
      StepsSnoc(c, m, n);
      StepTap(Steps(c, m), i);
      if i < 31 {
        StepsAt(c, m, i + 1);
      } else {
        FedBeyond(c, 32, m);
      }
    }
  }

  // ---- Which short changes leave the low bits of the register alone -------

  /** The same, from a list of the bits that left. */
  predicate FedBy(f: seq<bool>, i: nat, n: nat)
    requires n <= |f|
    decreases n
  {
    n > 0 && (FedBy(f, i + 1, n - 1) != (f[n - 1] && Tap(i)))
  }

  lemma {:induction false} FedIsFedBy(c: Word, f: seq<bool>, i: nat, n: nat)
    requires n <= |f| && forall k :: 0 <= k < |f| ==> f[k] == Out(c, k)
    ensures Fed(c, i, n) == FedBy(f, i, n)
    decreases n
  {
    if n > 0 {
      FedIsFedBy(c, f, i + 1, n - 1);
    }
  }

  predicate At(f: seq<bool>, n: nat, k: int) {
    0 <= k < n <= |f| && f[k]
  }

  // An even number of taps reads a set bit, when tap j reads place k - j of the list. The taps in three groups.

  predicate EvenLow(f: seq<bool>, n: nat, k: int) {
    At(f, n, k - 5) <==> At(f, n, k - 8) <==> At(f, n, k - 9) <==> At(f, n, k - 15)
  }

  predicate EvenMid(f: seq<bool>, n: nat, k: int) {
    At(f, n, k - 19) <==> At(f, n, k - 20) <==> At(f, n, k - 21) <==> At(f, n, k - 23) <==> At(f, n, k - 24)
  }

  predicate EvenHigh(f: seq<bool>, n: nat, k: int) {
    At(f, n, k - 26) <==> At(f, n, k - 27) <==> At(f, n, k - 29) <==> At(f, n, k - 30) <==> At(f, n, k - 31)
  }

  predicate Even(f: seq<bool>, n: nat, k: int) {
    EvenLow(f, n, k) <==> EvenMid(f, n, k) <==> EvenHigh(f, n, k)
  }

  lemma EvenNext(f: seq<bool>, n: nat, m: nat, i: nat, k: nat)
    requires n == m + 1 && n <= |f| && k == i + m
    ensures Even(f, n, k) == (Even(f, m, k) != (f[m] && Tap(i)))
  {
    assert forall j :: At(f, n, j) <==> At(f, m, j) || (j == m && f[m]);
  }

  lemma {:induction false} FedIsOdd(f: seq<bool>, i: nat, n: nat, k: int)
    requires n <= |f| && k == i + n - 1
    ensures FedBy(f, i, n) == !Even(f, n, k)
    decreases n
  {
    if n > 0 {
      var m := n - 1;
      FedIsOdd(f, i + 1, m, k);
      EvenNext(f, n, m, i, k);
    }
  }

  /** The n bits that left put nothing back at the n lowest places. */
  ghost predicate Quiet(f: seq<bool>, n: nat) {
    |f| == n && forall k :: n - 1 <= k < 2 * n - 1 ==> Even(f, n, k)
  }

  lemma Quiet8(f: seq<bool>)
    requires Quiet(f, 8)
    ensures forall k :: 0 <= k < 8 ==> !f[k]
  {
    assert Even(f, 8, 7) && Even(f, 8, 8) && Even(f, 8, 9) && Even(f, 8, 10);
    assert Even(f, 8, 11) && Even(f, 8, 12) && Even(f, 8, 13) && Even(f, 8, 14);
  }

  lemma Quiet16(f: seq<bool>)
    requires Quiet(f, 16)
    ensures forall k :: 0 <= k < 16 ==> f[k] == (f[0] && (k == 0 || k == 5 || k == 9 || k == 10 || k == 12 || k == 15))
  {
    assert Even(f, 16, 15) && Even(f, 16, 16) && Even(f, 16, 17) && Even(f, 16, 18);
    assert Even(f, 16, 19) && Even(f, 16, 20) && Even(f, 16, 21) && Even(f, 16, 22);
    assert Even(f, 16, 23) && Even(f, 16, 24) && Even(f, 16, 25) && Even(f, 16, 26);
    assert Even(f, 16, 27) && Even(f, 16, 28) && Even(f, 16, 29) && Even(f, 16, 30);
  }

  /** All 24 conditions at once. */
  predicate AllEven24(f: seq<bool>) {
    && Even(f, 24, 46) && Even(f, 24, 45) && Even(f, 24, 44) && Even(f, 24, 43) && Even(f, 24, 42) && Even(f, 24, 41)
    && Even(f, 24, 40) && Even(f, 24, 39) && Even(f, 24, 38) && Even(f, 24, 37) && Even(f, 24, 36) && Even(f, 24, 35)
    && Even(f, 24, 34) && Even(f, 24, 33) && Even(f, 24, 32) && Even(f, 24, 31) && Even(f, 24, 30) && Even(f, 24, 29)
    && Even(f, 24, 28) && Even(f, 24, 27) && Even(f, 24, 26) && Even(f, 24, 25) && Even(f, 24, 24) && Even(f, 24, 23)
  }

  lemma LastFour24(f: seq<bool>)
    requires |f| == 24 && AllEven24(f)
    ensures !f[23] && !f[22] && !f[21] && !f[20]
  {
  }

  lemma Others24(f: seq<bool>)
    requires |f| == 24 && AllEven24(f) && !f[23] && !f[22] && !f[21] && !f[20]
    ensures forall k :: 0 <= k < 24 ==> !f[k]
  {
  }

  lemma Quiet24(f: seq<bool>)
    requires Quiet(f, 24)
    ensures forall k :: 0 <= k < 24 ==> !f[k]
  {
    assert AllEven24(f);
    LastFour24(f);
    Others24(f);
  }

  // ---- The one change of two bytes that is missed -------------------------

  /** The bits of 0xD861: the change of the last two bytes, 0x61 and 0xD8. */
  predicate MissedBit(i: nat) {
    i == 0 || i == 5 || i == 6 || i == 11 || i == 12 || i == 14 || i == 15
  }

  function Missed(): (w: Word)
    ensures forall i :: 0 <= i < 32 ==> w[i] == MissedBit(i)
  {
    seq(32, i requires 0 <= i => MissedBit(i))
  }

  /** The bits of 0xF4EE0000: what it does to the CRC. */
  predicate MissedCrcBit(i: nat) {
    || i == 17 || i == 18 || i == 19 || i == 21 || i == 22 || i == 23
    || i == 26 || i == 28 || i == 29 || i == 30 || i == 31
  }

  /** The bits that leave the register on the way. */
  predicate MissedOut(k: nat) {
    k == 0 || k == 5 || k == 9 || k == 10 || k == 12 || k == 15
  }

  ghost function Outs(c: Word, n: nat): (f: seq<bool>)
    ensures |f| == n && forall k :: 0 <= k < n ==> f[k] == Out(c, k)
  {
    seq(n, k requires 0 <= k => Out(c, k))
  }

  /** A register bit read off the bits that left. */
  lemma BitFromOuts(c: Word, f: seq<bool>, k: nat)
    requires k < |f| <= 32 && forall j :: 0 <= j < |f| ==> f[j] == Out(c, j)
    ensures f[k] == (c[k] != !Even(f, k, k - 1))
  {
    StepsAt(c, k, 0);
    FedIsFedBy(c, f, 0, k);
    FedIsOdd(f, 0, k, k - 1);
  }

  /** Places that nothing was shifted down to. */
  lemma PlaceFromOuts(c: Word, f: seq<bool>, n: nat, i: nat)
    requires n == |f| <= 32 && i < 32 && (i + n < 32 ==> !c[i + n]) && forall j :: 0 <= j < n ==> f[j] == Out(c, j)
    ensures Steps(c, n)[i] == !Even(f, n, i + n - 1)
  {
    StepsAt(c, n, i);
    FedIsFedBy(c, f, i, n);
    FedIsOdd(f, i, n, i + n - 1);
  }

  ghost predicate LowClear(w: Word, n: nat) {
    n <= 32 && forall i :: 0 <= i < n ==> !w[i]
  }

  ghost predicate HighClear(w: Word, n: nat) {
    forall i :: n <= i < 32 ==> !w[i]
  }

  lemma QuietExact(c: Word, f: seq<bool>, n: nat)
    requires n <= 24 && f == Outs(c, n) && HighClear(c, n)
    ensures LowClear(Steps(c, n), n) <==> Quiet(f, n)
  {
    forall i | 0 <= i < n
      ensures Steps(c, n)[i] == !Even(f, n, i + n - 1)
    {
      PlaceFromOuts(c, f, n, i);
    }
    if LowClear(Steps(c, n), n) {
      forall k | n - 1 <= k < 2 * n - 1
        ensures Even(f, n, k)
      {
        var i := k - (n - 1);
        assert !Steps(c, n)[i];
      }
    }
  }

  lemma NothingLeft(c: Word, f: seq<bool>, n: nat)
    requires n <= 24 && f == Outs(c, n) && HighClear(c, n) && forall k :: 0 <= k < n ==> !f[k]
    ensures c == Zeros(32)
  {
    forall k | 0 <= k < n
      ensures !c[k]
    {
      BitFromOuts(c, f, k);
    }
  }

  /** The missed change is the one whose bits leave in that pattern. */
  lemma MissedBits(f: seq<bool>, k: nat)
    requires k < 16 && k <= |f| && forall j :: 0 <= j < k ==> f[j] == MissedOut(j)
    ensures MissedBit(k) == (MissedOut(k) != !Even(f, k, k - 1))
  {
    assert forall j: int :: At(f, k, j) == (0 <= j < k && MissedOut(j));
  }

  lemma MissedPlaces(f: seq<bool>, i: nat)
    requires i < 32 && |f| == 16 && forall j :: 0 <= j < 16 ==> f[j] == MissedOut(j)
    ensures MissedCrcBit(i) == !Even(f, 16, i + 15)
  {
    assert forall j: int :: At(f, 16, j) == (0 <= j < 16 && MissedOut(j));
  }

  lemma MissedLeft(c: Word, f: seq<bool>)
    requires f == Outs(c, 16) && HighClear(c, 16) && forall k :: 0 <= k < 16 ==> f[k] == MissedOut(k)
    ensures c == Missed()
  {
    forall k | 0 <= k < 16
      ensures c[k] == MissedBit(k)
    {
      BitFromOuts(c, f, k);
      MissedBits(f, k);
    }
  }

  /** The bits of a register, and the bits that left, agree. */
  predicate Agree(c: Word, f: seq<bool>, k: nat)
    requires k < |f| <= 32
  {
    f[k] == (c[k] != !Even(f, k, k - 1))
  }

  lemma {:induction false} MissedOuts(c: Word, f: seq<bool>, k: nat)
    requires k <= |f| == 16 && (forall j :: 0 <= j < 16 ==> Agree(c, f, j))
    requires forall i :: 0 <= i < 32 ==> c[i] == MissedBit(i)
    ensures forall j :: 0 <= j < k ==> f[j] == MissedOut(j)
    decreases k
  {
    if k > 0 {
      var m := k - 1;
      MissedOuts(c, f, m);
      MissedBits(f, m);
      assert Agree(c, f, m);
    }
  }

  lemma AllAgree(c: Word, f: seq<bool>)
    requires f == Outs(c, 16)
    ensures forall j :: 0 <= j < 16 ==> Agree(c, f, j)
  {
    forall j | 0 <= j < 16
      ensures Agree(c, f, j)
    {
      BitFromOuts(c, f, j);
    }
  }

  /** What the missed change does to the register. */
  lemma MissedSteps(c: Word, n: nat, i: nat)
    requires c == Missed() && n == 16 && i < 32
    ensures Steps(c, n)[i] == MissedCrcBit(i)
  {
    var f := Outs(c, n);
    AllAgree(c, f);
    MissedOuts(c, f, n);
    PlaceFromOuts(c, f, n, i);
    MissedPlaces(f, i);
  }

  lemma {:induction false} ZeroSteps(z: Word, n: nat)
    requires z == Zeros(32)
    ensures Steps(z, n) == z
    decreases n
  {
    if n > 0 {
      var k := n - 1;
      StepsFront(z, n, k);
      assert Step(z) == z;
      ZeroSteps(z, k);
    }
  }

  /** A change of the last one, two or three bytes leaves as many low bytes of the CRC alone if and only if it is no
      change, or that one change of two bytes. */
  lemma LowUnchanged(c: Word, a: nat, n: nat)
    requires 1 <= a <= 3 && n == 8 * a && HighClear(c, n)
    ensures LowClear(Steps(c, n), n) <==> c == Zeros(32) || (a == 2 && c == Missed())
  {
    var f := Outs(c, n);
    QuietExact(c, f, n);
    if Quiet(f, n) {
      OnlyMissed(c, f, a, n);
    }
    if c == Zeros(32) {
      ZeroSteps(c, n);
    }
    if a == 2 && c == Missed() {
      MissedLow(c, n);
    }
  }

  lemma MissedLow(c: Word, n: nat)
    requires c == Missed() && n == 16
    ensures LowClear(Steps(c, n), n)
  {
    MissedAll(c, n, Steps(c, n));
    MissedCrcLow(Steps(c, n), n);
  }

  lemma MissedCrcLow(d: Word, n: nat)
    requires n == 16 && forall i :: 0 <= i < 32 ==> d[i] == MissedCrcBit(i)
    ensures LowClear(d, n)
  {
  }

  lemma MissedAll(c: Word, n: nat, d: Word)
    requires c == Missed() && n == 16 && d == Steps(c, n)
    ensures forall i :: 0 <= i < 32 ==> d[i] == MissedCrcBit(i)
  {
    forall i | 0 <= i < 32
      ensures d[i] == MissedCrcBit(i)
    {
      MissedSteps(c, n, i);
    }
  }

  lemma OnlyMissed(c: Word, f: seq<bool>, a: nat, n: nat)
    requires 1 <= a <= 3 && n == 8 * a && HighClear(c, n) && f == Outs(c, n) && Quiet(f, n)
    ensures c == Zeros(32) || (a == 2 && c == Missed())
  {
    if a == 1 {
      Quiet8(f);
      NothingLeft(c, f, n);
    } else if a == 3 {
      Quiet24(f);
      NothingLeft(c, f, n);
    } else {
      Quiet16(f);
      if f[0] {
        MissedLeft(c, f);
      } else {
        NothingLeft(c, f, n);
      }
    }
  }

  // ---- Bytes that change --------------------------------------------------

  /** The bits of d are those in which x and y differ. */
  ghost predicate Flips(x: byte, y: byte, d: byte) {
    forall i :: 0 <= i < 8 ==> (BitsOf(x, OCTET)[i] != BitsOf(y, OCTET)[i]) == BitsOf(d, OCTET)[i]
  }

  lemma ByteInjective(x: byte, y: byte)
    requires BitsOf(x, OCTET) == BitsOf(y, OCTET)
    ensures x == y
  {
    PowerValues();
    ValueOfBits(x, OCTET);
    ValueOfBits(y, OCTET);
  }

  lemma FlipsUnique(x: byte, y: byte, z: byte, d: byte)
    requires Flips(x, y, d) && Flips(x, z, d)
    ensures y == z
  {
    assert BitsOf(y, OCTET) == BitsOf(z, OCTET);
    ByteInjective(y, z);
  }

  /** The bits of a byte given by its eight values. */
  lemma ByteFrom(bits: seq<bool>, d: byte)
    requires |bits| == OCTET && ValueOf(bits) == d
    ensures BitsOf(d, OCTET) == bits
  {
    BitsOfValue(bits);
  }

  lemma MissedPattern(bits: seq<bool>, lo: nat)
    requires |bits| == OCTET && forall i :: 0 <= i < 8 ==> bits[i] == MissedBit(lo + i)
    ensures lo == 0 ==> ValueOf(bits) == 0x61
    ensures lo == 8 ==> ValueOf(bits) == 0xD8
  {
    EightValue(bits);
  }

  lemma MissedCrcPattern(bits: seq<bool>, lo: nat)
    requires |bits| == OCTET && forall i :: 0 <= i < 8 ==> bits[i] == MissedCrcBit(lo + i)
    ensures lo == 16 ==> ValueOf(bits) == 0xEE
    ensures lo == 24 ==> ValueOf(bits) == 0xF4
  {
    EightValue(bits);
  }

  lemma MissedByte(i: nat)
    requires i < 8
    ensures BitsOf(0x61, OCTET)[i] == MissedBit(i) && BitsOf(0xD8, OCTET)[i] == MissedBit(8 + i)
    ensures BitsOf(0xEE, OCTET)[i] == MissedCrcBit(16 + i) && BitsOf(0xF4, OCTET)[i] == MissedCrcBit(24 + i)
  {
    var a := seq(OCTET, j requires 0 <= j => MissedBit(0 + j));
    var b := seq(OCTET, j requires 0 <= j => MissedBit(8 + j));
    var c := seq(OCTET, j requires 0 <= j => MissedCrcBit(16 + j));
    var d := seq(OCTET, j requires 0 <= j => MissedCrcBit(24 + j));
    MissedPattern(a, 0);
    MissedPattern(b, 8);
    MissedCrcPattern(c, 16);
    MissedCrcPattern(d, 24);
    ByteFrom(a, 0x61);
    ByteFrom(b, 0xD8);
    ByteFrom(c, 0xEE);
    ByteFrom(d, 0xF4);
  }

  // ---- Registers and fields -----------------------------------------------

  /** How two registers differ after different last bytes: the difference of the bytes, run through the steps. */
  lemma TailDelta(head: seq<byte>, v: seq<byte>, w: seq<byte>, n: nat)
    requires |v| == |w| <= 4 && n == 8 * |v|
    ensures Xor(Register(head + v), Register(head + w)) == Steps(Xor(Pad(MessageBits(v)), Pad(MessageBits(w))), n)
  {
    RegisterTail(head, v, n);
    RegisterTail(head, w, n);
    StepsDiffer(Register(head), Pad(MessageBits(v)), Pad(MessageBits(w)), n);
  }

  lemma StepsDiffer(c: Word, p: Word, q: Word, n: nat)
    ensures Xor(Steps(Xor(c, p), n), Steps(Xor(c, q), n)) == Steps(Xor(p, q), n)
  {
    StepsLinear(Xor(c, p), Xor(c, q), n);
    assert Xor(Xor(c, p), Xor(c, q)) == Xor(p, q);
  }

  lemma RegisterTail(head: seq<byte>, v: seq<byte>, n: nat)
    requires |v| <= 4 && n == 8 * |v|
    ensures Register(head + v) == Steps(Xor(Register(head), Pad(MessageBits(v))), n)
  {
    MessageAppend(head, v);
    SerialAppend(Ones(), MessageBits(head), MessageBits(v));
    SerialIsSteps(Register(head), MessageBits(v));
  }

  ghost function Field(r: Word): (s: seq<byte>)
    ensures |s| == 4
  {
    Put32(Finish(r))
  }

  /** The bits of a field byte are the register's, inverted. */
  lemma FieldBits(r: Word, w: Word)
    requires w == Xor(r, Ones())
    ensures BitsOf(Field(r)[3], OCTET) == w[0..8] && BitsOf(Field(r)[2], OCTET) == w[8..16]
    ensures BitsOf(Field(r)[1], OCTET) == w[16..24] && BitsOf(Field(r)[0], OCTET) == w[24..32]
  {
    var a, b, c, d := w[0..8], w[8..16], w[16..24], w[24..32];
    assert w == a + (b + (c + d));
    FieldBytes(a, b, c, d);
    ByteValue(a);
    ByteValue(b);
    ByteValue(c);
    ByteValue(d);
  }

  lemma FieldBit(r: Word, j: nat, i: nat, k: nat)
    requires j < 4 && i < 8 && k == 8 * j + i
    ensures BitsOf(Field(r)[3 - j], OCTET)[i] == !r[k]
  {
    var w := Xor(r, Ones());
    FieldBits(r, w);
    InvertedBit(r, w, k);
    SliceAt(w, BitsOf(Field(r)[3 - j], OCTET), j, i, k);
  }

  lemma InvertedBit(r: Word, w: Word, k: nat)
    requires w == Xor(r, Ones()) && k < 32
    ensures w[k] == !r[k]
  {
  }

  lemma SliceAt(w: Word, bits: seq<bool>, j: nat, i: nat, k: nat)
    requires |bits| == 8 && j < 4 && i < 8 && k == 8 * j + i
    requires j == 0 ==> bits == w[0..8]
    requires j == 1 ==> bits == w[8..16]
    requires j == 2 ==> bits == w[16..24]
    requires j == 3 ==> bits == w[24..32]
    ensures bits[i] == w[k]
  {
  }

  ghost predicate SameBits(r: Word, t: Word, lo: nat, hi: nat) {
    forall k :: lo <= k < hi && k < 32 ==> r[k] == t[k]
  }

  /** Equal field bytes are equal stretches of the registers. */
  lemma FieldByteSame(r: Word, t: Word, j: nat)
    requires j < 4
    ensures Field(r)[3 - j] == Field(t)[3 - j] <==> SameBits(r, t, 8 * j, 8 * j + 8)
  {
    var x, y := Field(r)[3 - j], Field(t)[3 - j];
    forall i, k | 0 <= i < 8 && k == 8 * j + i
      ensures BitsOf(x, OCTET)[i] == !r[k] && BitsOf(y, OCTET)[i] == !t[k]
    {
      FieldBit(r, j, i, k);
      FieldBit(t, j, i, k);
    }
    if SameBits(r, t, 8 * j, 8 * j + 8) {
      forall i | 0 <= i < 8
        ensures BitsOf(x, OCTET)[i] == BitsOf(y, OCTET)[i]
      {
        var k := 8 * j + i;
        assert r[k] == t[k];
      }
      assert BitsOf(x, OCTET) == BitsOf(y, OCTET);
      ByteInjective(x, y);
    }
    if x == y {
      forall k | 8 * j <= k < 8 * j + 8
        ensures r[k] == t[k]
      {
        var i := k - 8 * j;
        assert BitsOf(x, OCTET)[i] == !r[k] && BitsOf(y, OCTET)[i] == !t[k];
      }
    }
  }

  /** The last a field bytes stay the same if and only if the low bits of the registers do. */
  lemma FieldTailSame(r: Word, t: Word, a: nat)
    requires 1 <= a <= 3
    ensures Field(r)[4 - a..] == Field(t)[4 - a..] <==> LowClear(Xor(r, t), 8 * a)
  {
    FieldByteSame(r, t, 0);
    FieldByteSame(r, t, 1);
    FieldByteSame(r, t, 2);
    var x, y, d := Field(r), Field(t), Xor(r, t);
    assert x[4 - a..] == y[4 - a..] <==> x[3] == y[3] && (a >= 2 ==> x[2] == y[2]) && (a >= 3 ==> x[1] == y[1]);
    assert SameBits(r, t, 0, 8 * a) <==> LowClear(d, 8 * a);
    assert SameBits(r, t, 0, 16) <==> SameBits(r, t, 0, 8) && SameBits(r, t, 8, 16);
    assert SameBits(r, t, 0, 24) <==> SameBits(r, t, 0, 16) && SameBits(r, t, 16, 24);
  }

  lemma FieldDiffers(r: Word, t: Word, j: nat, i: nat, k: nat)
    requires j < 4 && i < 8 && k == 8 * j + i
    ensures (BitsOf(Field(r)[3 - j], OCTET)[i] != BitsOf(Field(t)[3 - j], OCTET)[i]) == Xor(r, t)[k]
  {
    FieldBit(r, j, i, k);
    FieldBit(t, j, i, k);
  }

  lemma FieldByteFlips(r: Word, t: Word, j: nat, d: byte)
    requires j == 2 || j == 3
    requires forall i :: 0 <= i < 32 ==> Xor(r, t)[i] == MissedCrcBit(i)
    requires d == if j == 3 then 0xF4 else 0xEE
    ensures Flips(Field(r)[3 - j], Field(t)[3 - j], d)
  {
    forall i | 0 <= i < 8
      ensures (BitsOf(Field(r)[3 - j], OCTET)[i] != BitsOf(Field(t)[3 - j], OCTET)[i]) == BitsOf(d, OCTET)[i]
    {
      FieldDiffers(r, t, j, i, 8 * j + i);
      MissedByte(i);
    }
  }

  /** A field byte flips as the registers differ. */
  lemma FieldFlips(r: Word, t: Word)
    requires forall i :: 0 <= i < 32 ==> Xor(r, t)[i] == MissedCrcBit(i)
    ensures Flips(Field(r)[0], Field(t)[0], 0xF4) && Flips(Field(r)[1], Field(t)[1], 0xEE)
  {
    FieldByteFlips(r, t, 3, 0xF4);
    FieldByteFlips(r, t, 2, 0xEE);
  }

  // ---- The exact condition ------------------------------------------------

  /** The difference of the last bytes, as a register. */
  ghost function Change(v: seq<byte>, w: seq<byte>): (x: Word)
    requires |v| == |w| <= 4
    ensures HighClear(x, 8 * |v|)
  {
    Xor(Pad(MessageBits(v)), Pad(MessageBits(w)))
  }

  lemma NoChange(v: seq<byte>, w: seq<byte>)
    requires |v| == |w| <= 4
    ensures Change(v, w) == Zeros(32) <==> v == w
  {
    if Change(v, w) == Zeros(32) {
      var p, q := MessageBits(v), MessageBits(w);
      forall i | 0 <= i < |p|
        ensures p[i] == q[i]
      {
        assert !Change(v, w)[i];
        assert Pad(p)[i] == p[i] && Pad(q)[i] == q[i];
      }
      assert p == q;
      MessageInjective(v, w);
    }
  }

  lemma TwoBytes(v: seq<byte>)
    requires |v| == 2
    ensures MessageBits(v) == BitsOf(v[0], OCTET) + BitsOf(v[1], OCTET)
  {
    assert v[1..][1..] == [];
    assert MessageBits(v[1..]) == BitsOf(v[1], OCTET) + MessageBits([]);
  }

  lemma ChangeBits(v: seq<byte>, w: seq<byte>, i: nat)
    requires |v| == |w| == 2 && i < 8
    ensures Change(v, w)[i] == (BitsOf(v[0], OCTET)[i] != BitsOf(w[0], OCTET)[i])
    ensures Change(v, w)[8 + i] == (BitsOf(v[1], OCTET)[i] != BitsOf(w[1], OCTET)[i])
  {
    TwoBytes(v);
    TwoBytes(w);
  }

  lemma MissedChange(v: seq<byte>, w: seq<byte>)
    requires |v| == |w| == 2
    ensures Change(v, w) == Missed() <==> Flips(v[0], w[0], 0x61) && Flips(v[1], w[1], 0xD8)
  {
    if Change(v, w) == Missed() {
      forall i | 0 <= i < 8
        ensures (BitsOf(v[0], OCTET)[i] != BitsOf(w[0], OCTET)[i]) == BitsOf(0x61, OCTET)[i]
        ensures (BitsOf(v[1], OCTET)[i] != BitsOf(w[1], OCTET)[i]) == BitsOf(0xD8, OCTET)[i]
      {
        ChangeBits(v, w, i);
        MissedByte(i);
      }
    }
    if Flips(v[0], w[0], 0x61) && Flips(v[1], w[1], 0xD8) {
      FlippedIsMissed(v, w, Change(v, w));
    }
  }

  lemma FlippedIsMissed(v: seq<byte>, w: seq<byte>, x: Word)
    requires |v| == |w| == 2 && x == Change(v, w) && Flips(v[0], w[0], 0x61) && Flips(v[1], w[1], 0xD8)
    ensures x == Missed()
  {
    forall i | 0 <= i < 16
      ensures x[i] == MissedBit(i)
    {
      var k := if i < 8 then i else i - 8;
      ChangeBits(v, w, k);
      MissedByte(k);
    }
  }

  /** The one pattern of changes that goes unnoticed: in the last two bytes and the first two of the field. */
  ghost predicate Unnoticed(v: seq<byte>, w: seq<byte>, field: seq<byte>, changed: seq<byte>)
    requires |v| == |w| && |field| == |changed| == 4
  {
    && |v| == 2 && Flips(v[0], w[0], 0x61) && Flips(v[1], w[1], 0xD8)
    && Flips(field[0], changed[0], 0xF4) && Flips(field[1], changed[1], 0xEE)
  }

  /** Let the last one, two or three bytes of a message change, and of the CRC field behind it as many leading bytes as
      make up four bytes in all. The new field is the CRC of the new message if and only if two bytes changed on each
      side, by 0x61 0xD8 and by 0xF4 0xEE. */
  lemma TailExact(head: seq<byte>, v: seq<byte>, w: seq<byte>, changed: seq<byte>)
    requires 1 <= |v| == |w| <= 3 && v != w && |changed| == 4
    requires changed[4 - |v|..] == Put32(Crc(head + v))[4 - |v|..]
    ensures changed == Put32(Crc(head + w)) <==> Unnoticed(v, w, Put32(Crc(head + v)), changed)
  {
    var a, r, t, x := |v|, Register(head + v), Register(head + w), Change(v, w);
    TailDelta(head, v, w, 8 * a);
    NoChange(v, w);
    LowUnchanged(x, a, 8 * a);
    FieldTailSame(r, t, a);
    if a == 2 {
      MissedChange(v, w);
      if x == Missed() {
        MissedAll(x, 16, Xor(r, t));
        FieldFlips(r, t);
        SameField(r, t, changed);
      }
    }
  }

  lemma SameField(r: Word, t: Word, changed: seq<byte>)
    requires |changed| == 4 && changed[2..] == Field(r)[2..] && Field(t)[2..] == Field(r)[2..]
    requires Flips(Field(r)[0], Field(t)[0], 0xF4) && Flips(Field(r)[1], Field(t)[1], 0xEE)
    ensures changed == Field(t) <==> Flips(Field(r)[0], changed[0], 0xF4) && Flips(Field(r)[1], changed[1], 0xEE)
  {
    if Flips(Field(r)[0], changed[0], 0xF4) && Flips(Field(r)[1], changed[1], 0xEE) {
      FlipsUnique(Field(r)[0], changed[0], Field(t)[0], 0xF4);
      FlipsUnique(Field(r)[1], changed[1], Field(t)[1], 0xEE);
      assert changed == [changed[0], changed[1]] + changed[2..];
      assert Field(t) == [Field(t)[0], Field(t)[1]] + Field(t)[2..];
    }
  }
}
