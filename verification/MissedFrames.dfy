/** What the decoder makes of a frame with the one change of four bytes that its CRC misses. */
module MissedFrames {
  import opened Bytes
  import opened Itch
  import opened Ladder
  import opened LevelWire
  import opened Crc32
  import opened CrcTail
  import opened BookSnapshot

  // ---- The flipped bytes --------------------------------------------------

  lemma {:induction false} ZeroBits(n: nat, i: nat)
    requires i < n
    ensures !BitsOf(0, n)[i]
    decreases n
  {
    if i > 0 {
      ZeroBits(n - 1, i - 1);
    }
  }

  lemma FlipsZero(y: byte, d: byte)
    requires Flips(0, y, d)
    ensures y == d
  {
    forall i | 0 <= i < 8
      ensures BitsOf(y, OCTET)[i] == BitsOf(d, OCTET)[i]
    {
      ZeroBits(OCTET, i);
    }
    assert BitsOf(y, OCTET) == BitsOf(d, OCTET);
    ByteInjective(y, d);
  }

  /** The two payload bytes of the missed change. */
  ghost predicate Flipped(v: seq<byte>, w: seq<byte>) {
    |v| == |w| == 2 && Flips(v[0], w[0], 0x61) && Flips(v[1], w[1], 0xD8)
  }

  // ---- Taking the last record apart ---------------------------------------

  lemma {:induction false} RecordsThenAppend(rs: seq<Record>, a: seq<byte>, b: seq<byte>)
    ensures RecordsThen(rs, a + b) == RecordsThen(rs, a) + b
    decreases |rs|
  {
    if rs != [] {
      RecordsThenAppend(rs[1..], a, b);
      RecordThenAppend(rs[0], RecordsThen(rs[1..], a), b);
    }
  }

  lemma FailsNext(p: seq<byte>, k: nat, r: Record, q: seq<byte>)
    requires ParseRecord(p) == Some((r, q)) && ParseRecords(q, k) == None
    ensures ParseRecords(p, k + 1) == None
  {
  }

  lemma FailsAfter(p: seq<byte>, n: nat, k: nat, r: Record, q: seq<byte>)
    requires n == k + 1 && ParseRecord(p) == Some((r, q)) && ParseRecords(q, k) == None
    ensures ParseRecords(p, n) == None
  {
    FailsNext(p, k, r, q);
    assert n == k + 1;
  }

  lemma FailsAtOnce(p: seq<byte>, n: nat)
    requires n > 0 && ParseRecord(p) == None
    ensures ParseRecords(p, n) == None
  {
  }

  /** A last record that does not parse spoils the list. */
  lemma {:induction false} LastFails(init: seq<Record>, tail: seq<byte>, n: nat)
    requires AllNarrow(init) && n == |init| + 1 && ParseRecord(tail) == None
    ensures ParseRecords(RecordsThen(init, tail), n) == None
    decreases |init|
  {
    if init == [] {
      FailsAtOnce(tail, n);
    } else {
      var r, more, k := init[0], init[1..], n - 1;
      assert init == [r] + more;
      RecordsThenCons(r, more, tail);
      RecordRoundTrip(r, RecordsThen(more, tail));
      LastFails(more, tail, k);
      FailsAfter(RecordsThen(init, tail), n, k, r, RecordsThen(more, tail));
    }
  }

  // ---- A changed last record ----------------------------------------------

  /** The bytes with their last two replaced. */
  function Replaced(bytes: seq<byte>, w: seq<byte>): (r: seq<byte>)
    requires |bytes| >= 2 && |w| == 2
    ensures |r| == |bytes|
  {
    bytes[..|bytes| - 2] + w
  }

  function LastTwo(bytes: seq<byte>): seq<byte>
    requires |bytes| >= 2
  {
    bytes[|bytes| - 2..]
  }

  lemma ReplacedTail(head: seq<byte>, tail: seq<byte>, w: seq<byte>)
    requires |tail| >= 2 && |w| == 2
    ensures Replaced(head + tail, w) == head + Replaced(tail, w) && LastTwo(head + tail) == LastTwo(tail)
  {
  }

  /** Without asks a record ends in the count byte 0, which becomes 0xD8. */
  lemma NoAsksRefused(r: Record, w: seq<byte>)
    requires Narrow(r) && r.asks == [] && |w| == 2 && Flipped(LastTwo(RecordThen(r, [])), w)
    ensures ParseRecord(Replaced(RecordThen(r, []), w)) == None
  {
    var side := SideThen(r.bids, [0]);
    NoAsksBytes(r);
    ReplacedTail(r.symbol, side, w);
    SideRefused(r.bids, w);
    SymbolThen(r.symbol, Replaced(side, w));
  }

  lemma NoAsksBytes(r: Record)
    requires r.asks == []
    ensures RecordThen(r, []) == r.symbol + SideThen(r.bids, [0])
  {
    assert SideThen([], []) == [0];
  }

  lemma SideRefused(bids: seq<Level>, w: seq<byte>)
    requires |bids| <= MAX_LEVELS && |w| == 2 && Flipped(LastTwo(SideThen(bids, [0])), w)
    ensures var sides := Replaced(SideThen(bids, [0]), w);
            ParseSide(sides, 1).Some? ==> ParseSide(ParseSide(sides, 1).value.1, 0) == None
  {
    var v := LastTwo(SideThen(bids, [0]));
    assert v[1] == 0;
    FlipsZero(w[1], 0xD8);
    if bids == [] {
      assert SideThen(bids, [0]) == [0, 0];
      FlipsZero(w[0], 0x61);
      assert Replaced([0, 0], w) == w;
    } else {
      BidsThenBad(bids, w);
    }
  }

  /** A record is refused if its sides are. */
  lemma SymbolThen(symbol: Symbol, sides: seq<byte>)
    requires |sides| >= 1
    requires ParseSide(sides, 1).Some? ==> ParseSide(ParseSide(sides, 1).value.1, 0) == None
    ensures ParseRecord(symbol + sides) == None
  {
    assert (symbol + sides)[8..] == sides;
  }

  lemma BidsThenBad(bids: seq<Level>, w: seq<byte>)
    requires 1 <= |bids| <= MAX_LEVELS && |w| == 2 && w[1] > MAX_LEVELS
    ensures var sides := Replaced(SideThen(bids, [0]), w);
            ParseSide(sides, 1).Some? ==> ParseSide(ParseSide(sides, 1).value.1, 0) == None
  {
    var sides := Replaced(SideThen(bids, [0]), w);
    assert SideThen(bids, [0]) == [CountByte(|bids|)] + (PutLevels(bids) + [0]);
    assert |sides| == 2 + 12 * |bids| && sides[0] == |bids| && sides[|sides| - 1] == w[1];
    ParseSideParts(sides, 1, |bids|, sides[1..]);
    assert sides[1..][12 * |bids|..] == [w[1]];
  }

  /** With asks a record ends in the order count of its last level, which becomes another count. */
  lemma AsksChanged(r: Record, w: seq<byte>) returns (changed: Record)
    requires Narrow(r) && r.asks != [] && |w| == 2
    ensures Narrow(changed) && RecordThen(changed, []) == Replaced(RecordThen(r, []), w)
  {
    var init, l := r.asks[..|r.asks| - 1], r.asks[|r.asks| - 1];
    var l' := l.(count := Take32(Replaced(Put32(l.count), w)));
    changed := r.(asks := init + [l']);
    PutTake(Replaced(Put32(l.count), w));
    EndsInCount(r.symbol, r.bids, init, l);
    EndsInCount(r.symbol, r.bids, init, l');
    assert r.asks == init + [l];
    ReplacedTail(BeforeCount(r.symbol, r.bids, init, l), Put32(l.count), w);
  }

  /** Everything of a record but the order count of its last ask level. */
  function BeforeCount(symbol: Symbol, bids: seq<Level>, init: seq<Level>, l: Level): seq<byte> {
    symbol + SideThen(bids, [CountByte(|init| + 1)] + (PutLevels(init) + (Put32(l.price) + Put32(l.total))))
  }

  lemma EndsInCount(symbol: Symbol, bids: seq<Level>, init: seq<Level>, l: Level)
    ensures RecordThen(Record(symbol, bids, init + [l]), []) == BeforeCount(symbol, bids, init, l) + Put32(l.count)
  {
    PutLevelsSnoc(init, l);
    var front := [CountByte(|init| + 1)] + (PutLevels(init) + (Put32(l.price) + Put32(l.total)));
    assert SideThen(init + [l], []) == front + Put32(l.count);
    assert SideThen(bids, front + Put32(l.count)) == SideThen(bids, front) + Put32(l.count);
  }

  // ---- A changed payload --------------------------------------------------

  /** The payload ends in the order count of an ask level. */
  ghost predicate EndsInAsk(s: Snapshot) {
    s.records != [] && s.records[|s.records| - 1].asks != []
  }

  function Header(sequence: u64, n: nat): seq<byte> {
    Magic() + (Put64(sequence) + Put32(n))
  }

  lemma PayloadParts(sequence: u64, rs: seq<Record>)
    ensures Payload(Snapshot(sequence, rs)) == Header(sequence, |rs|) + RecordsThen(rs, [])
  {
    HeadThenRecords(Magic(), Put64(sequence), Put32(|rs|), RecordsThen(rs, []));
  }

  /** The payload of a snapshot with a last record, cut in front of that record. */
  lemma PayloadLast(sequence: u64, init: seq<Record>, r: Record, n: nat)
    requires n == |init| + 1
    ensures Payload(Snapshot(sequence, init + [r])) ==
            (Header(sequence, n) + RecordsThen(init, [])) + RecordThen(r, [])
  {
    PayloadParts(sequence, init + [r]);
    RecordsThenSnoc(init, r);
    JoinLeft(Header(sequence, n), RecordsThen(init, []), RecordThen(r, []));
    assert |init + [r]| == n;
  }

  /** The fields of any payload with this header. */
  lemma ParseHeader(sequence: u64, n: nat, rest: seq<byte>)
    requires n < TWO32
    ensures var p := (Header(sequence, n) + rest)[4..];
            |p| >= 12 && (ParsePayload(p).Some? <==> ParseRecords(rest, n).Some? && ParseRecords(rest, n).value.1 == [])
  {
    var q := Put32(n) + rest;
    var p := Put64(sequence) + q;
    assert Header(sequence, n) + rest == Magic() + p;
    assert (Magic() + p)[4..] == p && p[8..] == q && q[..4] == Put32(n) && q[4..] == rest;
    Back32(n);
  }

  /** With no records the change makes the record count wrong. */
  lemma NoRecordsRefused(sequence: u64, w: seq<byte>)
    requires |w| == 2 && Flipped(LastTwo(Payload(Snapshot(sequence, []))), w)
    ensures ParsePayload(Replaced(Payload(Snapshot(sequence, [])), w)[4..]) == None
  {
    var front := Magic() + Put64(sequence);
    assert Payload(Snapshot(sequence, [])) == front + Put32(0);
    ReplacedTail(front, Put32(0), w);
    var field := Replaced(Put32(0), w);
    var n: nat := Take32(field);
    PutTake(field);
    ZeroCount(w, field, n);
    assert front + field == Header(sequence, n) + [];
    ParseHeader(sequence, n, []);
    FailsAtOnce([], n);
  }

  lemma ZeroCount(w: seq<byte>, field: seq<byte>, n: nat)
    requires |w| == 2 && Flipped(LastTwo(Put32(0)), w) && field == Replaced(Put32(0), w) && field == Put32(n)
    ensures n > 0
  {
    if n == 0 {
      assert LastTwo(field) == w && LastTwo(field) == LastTwo(Put32(0));
      FlipsDiffer(LastTwo(Put32(0))[0], w[0]);
    }
  }

  lemma FlipsDiffer(x: byte, y: byte)
    requires Flips(x, y, 0x61)
    ensures x != y
  {
    MissedByte(0);
  }

  /** A last record without asks. */
  lemma NoAskChanged(sequence: u64, init: seq<Record>, r: Record, w: seq<byte>, n: nat)
    requires AllNarrow(init) && Narrow(r) && n == |init| + 1 < TWO32 && r.asks == []
    requires |w| == 2 && Flipped(LastTwo(RecordThen(r, [])), w)
    ensures var front := Header(sequence, n) + RecordsThen(init, []);
            ParsePayload((front + Replaced(RecordThen(r, []), w))[4..]) == None
  {
    var t := Replaced(RecordThen(r, []), w);
    NoAsksRefused(r, w);
    LastFails(init, t, n);
    RecordsThenAppend(init, [], t);
    assert [] + t == t;
    JoinLeft(Header(sequence, n), RecordsThen(init, []), t);
    ParseHeader(sequence, n, RecordsThen(init, t));
  }

  /** A last record with asks. */
  lemma AskChanged(sequence: u64, init: seq<Record>, r: Record, w: seq<byte>, n: nat)
    requires AllNarrow(init) && Narrow(r) && n == |init| + 1 < TWO32 && r.asks != [] && |w| == 2
    ensures var front := Header(sequence, n) + RecordsThen(init, []);
            ParsePayload((front + Replaced(RecordThen(r, []), w))[4..]).Some?
  {
    var changed := AsksChanged(r, w);
    PayloadLast(sequence, init, changed, n);
    NarrowLast(init, changed);
    EncodedParses(Snapshot(sequence, init + [changed]), Payload(Snapshot(sequence, init + [changed])));
  }

  lemma NarrowLast(init: seq<Record>, r: Record)
    requires AllNarrow(init) && Narrow(r)
    ensures AllNarrow(init + [r])
  {
  }

  lemma EncodedParses(s: Snapshot, payload: seq<byte>)
    requires AllNarrow(s.records) && |s.records| < TWO32 && payload == Payload(s)
    ensures |payload| >= 16 && ParsePayload(payload[4..]).Some?
  {
    PayloadRoundTrip(s);
  }

  lemma LastRecordChanged(sequence: u64, init: seq<Record>, r: Record, w: seq<byte>, n: nat)
    requires AllNarrow(init) && Narrow(r) && n == |init| + 1 < TWO32
    requires |w| == 2 && Flipped(LastTwo(Payload(Snapshot(sequence, init + [r]))), w)
    ensures ParsePayload(Replaced(Payload(Snapshot(sequence, init + [r])), w)[4..]).Some? <==> r.asks != []
  {
    PayloadLast(sequence, init, r, n);
    ReplacedTail(Header(sequence, n) + RecordsThen(init, []), RecordThen(r, []), w);
    if r.asks == [] {
      NoAskChanged(sequence, init, r, w, n);
    } else {
      AskChanged(sequence, init, r, w, n);
    }
  }

  /** The decoder accepts the missed change of a payload if and only if the last record has an ask level, whose order
      count it then takes for another number. */
  lemma ChangedPayloadExact(s: Snapshot, w: seq<byte>)
    requires AllNarrow(s.records) && |s.records| < TWO32 && |Payload(s)| >= 16
    requires |w| == 2 && Flipped(LastTwo(Payload(s)), w)
    ensures ParsePayload(Replaced(Payload(s), w)[4..]).Some? <==> EndsInAsk(s)
  {
    if s.records == [] {
      NoRecordsRefused(s.sequence, w);
    } else {
      var init, r := s.records[..|s.records| - 1], s.records[|s.records| - 1];
      assert s.records == init + [r];
      LastRecordChanged(s.sequence, init, r, w, |s.records|);
    }
  }

  // ---- A changed frame ----------------------------------------------------

  /** Any change of at most four bytes across the end of the payload and the CRC field of a good frame: the decoder
      accepts the result if and only if it is the missed pattern and the snapshot ends in an ask level. */
  lemma StraddleDecoded(before: seq<byte>, v: seq<byte>, w: seq<byte>, t: seq<byte>, u: seq<byte>, after: seq<byte>)
    requires 1 <= |v| == |w| && 1 <= |t| == |u| && |v| + |t| <= 4 && v != w
    requires Decode(before + v + t + after).Some? && |before| + |v| == BodyLength(before + v + t + after)
    ensures |t| + |after| >= 4
    ensures Decode(before + w + u + after).Some? <==>
            Unnoticed(v, w, (t + after)[..4], (u + after)[..4]) && EndsInAsk(Decode(before + v + t + after).value)
  {
    var n := |before| + |v|;
    var good, bad := before + v + t + after, before + w + u + after;
    StraddleExact(before, v, w, t, u, after);
    StraddleParts(before, v, t, after, n);
    StraddleParts(before, w, u, after, n);
    if Intact(bad) {
      var s := Decode(good).value;
      GoodPayload(good, n, s);
      var head := before[4..];
      assert Replaced(head + v, w) == head + w && LastTwo(head + v) == v;
      ChangedPayloadExact(s, w);
      BadDecodes(bad, n, head + w);
    }
  }

  /** The payload of a frame that decodes. */
  lemma GoodPayload(bytes: seq<byte>, n: nat, s: Snapshot)
    requires Decode(bytes) == Some(s) && n == BodyLength(bytes)
    ensures 20 <= n <= |bytes| && bytes[4..n] == Payload(s) && |Payload(s)| >= 16
    ensures AllNarrow(s.records) && |s.records| < TWO32
  {
    SealedCanonical(bytes, n);
    PayloadCanonical(bytes[4..n]);
    PayloadParts(s.sequence, s.records);
  }

  lemma BadDecodes(bytes: seq<byte>, n: nat, payload: seq<byte>)
    requires Intact(bytes) && n == BodyLength(bytes) && payload == bytes[4..n]
    ensures |payload| >= 16 && Decode(bytes) == ParsePayload(payload[4..])
  {
    SealedCanonical(bytes, n);
  }
}
