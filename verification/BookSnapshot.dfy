/** Book-snapshot frames: [u32 body length]["BSN1"][u64 sequence][u32 count][records][u32 CRC-32]. */
module BookSnapshot {
  import opened Bytes
  import opened Itch
  import opened Ladder
  import opened LevelWire
  import opened Crc32
  import opened CrcTail

  const MAX_LEVELS: nat := 10

  datatype Record = Record(symbol: Symbol, bids: seq<Level>, asks: seq<Level>)
  datatype Snapshot = Snapshot(sequence: u64, records: seq<Record>)

  function Magic(): (m: seq<byte>)
    ensures |m| == 4
  {
    [0x42, 0x53, 0x4E, 0x31]
  }

  // ---- Encoding -----------------------------------------------------------

  /** A level count, cut to eight bits. */
  function CountByte(n: nat): (b: byte)
    ensures n <= MAX_LEVELS ==> b == n
  {
    n % 256
  }

  /** One side followed by what comes after it: the count byte and the levels. */
  function SideThen(ls: seq<Level>, tail: seq<byte>): (s: seq<byte>)
    ensures |s| == 1 + 12 * |ls| + |tail|
  {
    [CountByte(|ls|)] + (PutLevels(ls) + tail)
  }

  function RecordThen(r: Record, tail: seq<byte>): (s: seq<byte>)
    ensures |s| >= 10 + |tail|
  {
    r.symbol + SideThen(r.bids, SideThen(r.asks, tail))
  }

  function RecordsThen(rs: seq<Record>, tail: seq<byte>): (s: seq<byte>)
    ensures |s| >= 10 * |rs| + |tail|
  {
    if rs == [] then tail else RecordThen(rs[0], RecordsThen(rs[1..], tail))
  }

  /** The bytes the CRC covers. */
  function Payload(s: Snapshot): seq<byte> {
    Magic() + (Put64(s.sequence) + (Put32(|s.records|) + RecordsThen(s.records, [])))
  }

  ghost function Sealed(payload: seq<byte>): seq<byte> {
    Put32(|payload| + 4) + (payload + Put32(Crc(payload)))
  }

  ghost function Frame(s: Snapshot): seq<byte> {
    Sealed(Payload(s))
  }

  // ---- Decoding -----------------------------------------------------------

  /** One side at a cursor, and what follows it; spare is what must still be left after the levels. */
  function ParseSide(p: seq<byte>, spare: nat): Option<(seq<Level>, seq<byte>)>
    requires |p| >= 1
  {
    var n := p[0];
    if n > MAX_LEVELS || |p| - 1 < 12 * n + spare then None
    else Some((TakeLevels(p[1..], n), p[1..][12 * n..]))
  }

  function ParseRecord(p: seq<byte>): Option<(Record, seq<byte>)> {
    if |p| < 9 then None
    else
      match ParseSide(p[8..], 1)
      case None => None
      case Some((bids, q)) =>
        match ParseSide(q, 0)
        case None => None
        case Some((asks, rest)) => Some((Record(p[..8], bids, asks), rest))
  }

  function ParseRecords(p: seq<byte>, n: nat): Option<(seq<Record>, seq<byte>)>
    decreases n
  {
    if n == 0 then Some(([], p))
    else
      match ParseRecord(p)
      case None => None
      case Some((r, q)) =>
        match ParseRecords(q, n - 1)
        case None => None
        case Some((rs, rest)) => Some(([r] + rs, rest))
  }

  /** The fields after the magic; the records must end exactly where the CRC starts. */
  function ParsePayload(p: seq<byte>): Option<Snapshot>
    requires |p| >= 12
  {
    var q := p[8..];
    match ParseRecords(q[4..], Take32(q[..4]))
    case None => None
    case Some((rs, rest)) => if rest == [] then Some(Snapshot(Take64(p[..8]), rs)) else None
  }

  /** The body length a buffer announces. */
  function BodyLength(bytes: seq<byte>): nat
    requires |bytes| >= 4
  {
    Take32(bytes[..4])
  }

  /** A complete frame with the magic and a CRC that matches. */
  ghost predicate Intact(bytes: seq<byte>) {
    && |bytes| >= 4 && |bytes| >= 4 + BodyLength(bytes) && BodyLength(bytes) >= 20
    && var n := BodyLength(bytes);
       bytes[4..8] == Magic() && Take32(bytes[n..n + 4]) == Crc(bytes[4..n])
  }

  /** decode_book_snapshot: the snapshot, or None for every rejected frame. */
  ghost function Decode(bytes: seq<byte>): Option<Snapshot> {
    if Intact(bytes) then ParsePayload(bytes[8..BodyLength(bytes)]) else None
  }

  // ---- Round trip ---------------------------------------------------------

  ghost predicate Narrow(r: Record) {
    |r.bids| <= MAX_LEVELS && |r.asks| <= MAX_LEVELS
  }

  ghost predicate AllNarrow(rs: seq<Record>) {
    forall i :: 0 <= i < |rs| ==> Narrow(rs[i])
  }

  /** A side that is long enough for its count, cut in two after its levels. */
  lemma ParseSideParts(p: seq<byte>, spare: nat, n: nat, q: seq<byte>)
    requires |p| >= 1 && p[0] == n <= MAX_LEVELS && q == p[1..] && |q| >= 12 * n + spare
    ensures ParseSide(p, spare) == Some((TakeLevels(q, n), q[12 * n..]))
  {
  }

  lemma SideThenParts(ls: seq<Level>, tail: seq<byte>)
    requires |ls| <= MAX_LEVELS
    ensures var p, q := SideThen(ls, tail), PutLevels(ls) + tail;
            p[0] == |ls| && p[1..] == q && q[12 * |ls|..] == tail
  {
  }

  lemma SideRoundTrip(ls: seq<Level>, tail: seq<byte>, spare: nat)
    requires |ls| <= MAX_LEVELS && |tail| >= spare
    ensures ParseSide(SideThen(ls, tail), spare) == Some((ls, tail))
  {
    SideThenParts(ls, tail);
    ParseSideParts(SideThen(ls, tail), spare, |ls|, PutLevels(ls) + tail);
    LevelsRoundTrip(ls, tail);
  }

  lemma RecordRoundTrip(r: Record, tail: seq<byte>)
    requires Narrow(r)
    ensures ParseRecord(RecordThen(r, tail)) == Some((r, tail))
  {
    var asks := SideThen(r.asks, tail);
    SideRoundTrip(r.bids, asks, 1);
    SideRoundTrip(r.asks, tail, 0);
    var p := RecordThen(r, tail);
    assert p[..8] == r.symbol && p[8..] == SideThen(r.bids, asks);
  }

  /** A record that parses, followed by records that parse. */
  lemma ParseRecordsStep(p: seq<byte>, n: nat, r: Record, q: seq<byte>, rs: seq<Record>, rest: seq<byte>)
    requires ParseRecord(p) == Some((r, q)) && ParseRecords(q, n) == Some((rs, rest))
    ensures ParseRecords(p, n + 1) == Some(([r] + rs, rest))
  {
  }

  lemma RecordsThenCons(r: Record, rs: seq<Record>, tail: seq<byte>)
    ensures RecordsThen([r] + rs, tail) == RecordThen(r, RecordsThen(rs, tail))
  {
    assert ([r] + rs)[1..] == rs;
  }

  lemma {:induction false} RecordsRoundTrip(rs: seq<Record>, tail: seq<byte>)
    requires AllNarrow(rs)
    ensures ParseRecords(RecordsThen(rs, tail), |rs|) == Some((rs, tail))
    decreases |rs|
  {
    if rs != [] {
      var r, more := rs[0], rs[1..];
      assert rs == [r] + more;
      RecordsThenCons(r, more, tail);
      RecordRoundTrip(r, RecordsThen(more, tail));
      RecordsRoundTrip(more, tail);
      ParseRecordsStep(RecordsThen(rs, tail), |more|, r, RecordsThen(more, tail), more, tail);
    }
  }

  /** The length field can announce the body. */
  ghost predicate Announceable(s: Snapshot) {
    |Payload(s)| + 4 < TWO32
  }

  lemma PayloadRoundTrip(s: Snapshot)
    requires AllNarrow(s.records) && |s.records| < TWO32
    ensures |Payload(s)| >= 16 && Payload(s)[..4] == Magic() && ParsePayload(Payload(s)[4..]) == Some(s)
  {
    var q := Put32(|s.records|) + RecordsThen(s.records, []);
    var p := Put64(s.sequence) + q;
    assert Payload(s)[4..] == p && p[8..] == q && q[4..] == RecordsThen(s.records, []);
    Back64(s.sequence);
    Back32(|s.records|);
    RecordsRoundTrip(s.records, []);
  }

  lemma SealedParts(payload: seq<byte>)
    requires 16 <= |payload| && |payload| + 4 < TWO32
    ensures var bytes := Sealed(payload);
            var n := |payload| + 4;
            && |bytes| == 4 + n && BodyLength(bytes) == n && bytes[4..n] == payload
            && Take32(bytes[n..n + 4]) == Crc(payload)
  {
    Back32(|payload| + 4);
    Back32(Crc(payload));
    var bytes := Sealed(payload);
    assert bytes[..4] == Put32(|payload| + 4);
    assert bytes[4..] == payload + Put32(Crc(payload));
    assert bytes[|payload| + 4..|payload| + 8] == Put32(Crc(payload));
  }

  lemma DecodeEncoded(s: Snapshot)
    requires AllNarrow(s.records) && Announceable(s)
    ensures Decode(Frame(s)) == Some(s)
  {
    PayloadRoundTrip(s);
    SealedParts(Payload(s));
    SealedIntact(Frame(s), Payload(s));
  }

  lemma SealedIntact(bytes: seq<byte>, payload: seq<byte>)
    requires |payload| >= 16 && payload[..4] == Magic()
    requires var n := |payload| + 4;
             && |bytes| == 4 + n && BodyLength(bytes) == n && bytes[4..n] == payload
             && Take32(bytes[n..n + 4]) == Crc(payload)
    ensures Intact(bytes) && bytes[8..BodyLength(bytes)] == payload[4..]
  {
    FourParts(bytes, |payload| + 4);
  }

  lemma FourParts(bytes: seq<byte>, n: nat)
    requires 20 <= n && n + 4 <= |bytes|
    ensures bytes[..4 + n] == bytes[..4] + (bytes[4..n] + bytes[n..n + 4])
    ensures bytes[4..n][..4] == bytes[4..8] && bytes[4..n][4..] == bytes[8..n]
    ensures bytes[..n][..4] == bytes[..4] && bytes[..n][4..] == bytes[4..n]
  {
  }

  // ---- Canonicity ---------------------------------------------------------

  lemma SideFromLevels(q: seq<byte>, n: nat)
    requires n <= MAX_LEVELS && 12 * n <= |q|
    ensures [n] + q == SideThen(TakeLevels(q, n), q[12 * n..])
  {
    LevelsCanonical(q, n);
    Cut(q, 12 * n);
  }

  lemma SideCanonical(p: seq<byte>, spare: nat)
    requires |p| >= 1 && ParseSide(p, spare).Some?
    ensures var (ls, rest) := ParseSide(p, spare).value;
            p == SideThen(ls, rest) && |ls| <= MAX_LEVELS && |rest| >= spare
  {
    CutByte(p);
    SideFromLevels(p[1..], p[0]);
  }

  lemma RecordCanonical(p: seq<byte>, r: Record, rest: seq<byte>)
    requires ParseRecord(p) == Some((r, rest))
    ensures p == RecordThen(r, rest) && Narrow(r)
  {
    SideCanonical(p[8..], 1);
    SideCanonical(ParseSide(p[8..], 1).value.1, 0);
    Cut(p, 8);
  }

  /** The n records at the front of p are rs, and rest follows them. */
  ghost predicate Reads(p: seq<byte>, n: nat, rs: seq<Record>, rest: seq<byte>) {
    ParseRecords(p, n) == Some((rs, rest))
  }

  /** Records that parse start with one that does. */
  lemma ParseRecordsSplit(p: seq<byte>, n: nat, all: seq<Record>, rest: seq<byte>)
      returns (r: Record, rs: seq<Record>, q: seq<byte>)
    requires Reads(p, n + 1, all, rest)
    ensures ParseRecord(p) == Some((r, q)) && Reads(q, n, rs, rest) && all == [r] + rs
  {
    r, q := ParseRecord(p).value.0, ParseRecord(p).value.1;
    rs := ParseRecords(q, n).value.0;
  }

  lemma {:induction false} RecordsCanonical(p: seq<byte>, n: nat, rs: seq<Record>, rest: seq<byte>)
    requires Reads(p, n, rs, rest)
    ensures p == RecordsThen(rs, rest) && |rs| == n && AllNarrow(rs)
    decreases n
  {
    if n > 0 {
      var k := n - 1;
      var r, more, q := ParseRecordsSplit(p, k, rs, rest);
      RecordsCanonical(q, k, more, rest);
      RecordCanonical(p, r, q);
      RecordsThenCons(r, more, rest);
    }
  }

  lemma PayloadCanonical(payload: seq<byte>)
    requires |payload| >= 16 && payload[..4] == Magic() && ParsePayload(payload[4..]).Some?
    ensures var s := ParsePayload(payload[4..]).value; payload == Payload(s) && AllNarrow(s.records)
  {
    var p := payload[4..];
    var q := p[8..];
    RecordsCanonical(q[4..], Take32(q[..4]), ParsePayload(p).value.records, []);
    Cut(payload, 4);
    Cut64(p);
    Cut32(q);
  }

  lemma SealedCanonical(bytes: seq<byte>, n: nat)
    requires Intact(bytes) && n == BodyLength(bytes)
    ensures bytes[..4 + n] == Sealed(bytes[4..n])
    ensures bytes[4..n][..4] == Magic() && bytes[4..n][4..] == bytes[8..n]
  {
    FourParts(bytes, n);
    PutTake(bytes[..4]);
    PutTake(bytes[n..n + 4]);
  }

  /** Whatever decodes is exactly the encoding of the result, and has at most ten levels a side. */
  lemma DecodeCanonical(bytes: seq<byte>)
    requires Decode(bytes).Some?
    ensures var s := Decode(bytes).value;
            && |bytes| >= 4 + BodyLength(bytes) && bytes[..4 + BodyLength(bytes)] == Frame(s)
            && AllNarrow(s.records) && Announceable(s)
  {
    var n := BodyLength(bytes);
    SealedCanonical(bytes, n);
    PayloadCanonical(bytes[4..n]);
  }

  /** A snapshot comes back from its frame if and only if no side has more than ten levels and the frame length
      fits its field. */
  lemma RoundTripExact(s: Snapshot)
    ensures Decode(Frame(s)) == Some(s) <==> AllNarrow(s.records) && Announceable(s)
  {
    if AllNarrow(s.records) && Announceable(s) {
      DecodeEncoded(s);
    }
    if Decode(Frame(s)) == Some(s) {
      DecodeCanonical(Frame(s));
    }
  }

  // ---- Corruption ---------------------------------------------------------

  /** Where a window of a buffer falls inside its payload. */
  lemma WindowInPayload(before: seq<byte>, v: seq<byte>, after: seq<byte>, n: nat)
    requires 4 <= |before| && |before| + |v| <= n && n + 4 <= |before| + |v| + |after|
    ensures var k := n - |before| - |v|;
            var bytes := before + v + after;
            && bytes[..4] == before[..4] && bytes[4..n] == before[4..] + v + after[..k]
            && bytes[n..n + 4] == after[k..k + 4]
  {
  }

  lemma IntactWindow(before: seq<byte>, v: seq<byte>, w: seq<byte>, after: seq<byte>)
    requires |v| == |w| <= 4 && v != w && |before| >= 4
    requires Intact(before + v + after) && |before| + |v| <= BodyLength(before + v + after)
    ensures !Intact(before + w + after)
  {
    var n := BodyLength(before + v + after);
    WindowInPayload(before, v, after, n);
    WindowInPayload(before, w, after, n);
    ByteBurstDetected(before[4..], v, w, after[..n - |before| - |v|]);
  }

  /** Replacing at most four consecutive bytes anywhere between the length field and the CRC field of a good frame
      makes it a bad one. */
  lemma CorruptionRejected(before: seq<byte>, v: seq<byte>, w: seq<byte>, after: seq<byte>)
    requires |v| == |w| <= 4 && v != w && |before| >= 4
    requires Decode(before + v + after).Some? && |before| + |v| <= BodyLength(before + v + after)
    ensures Decode(before + w + after) == None
  {
    IntactWindow(before, v, w, after);
  }

  lemma SameHead(good: seq<byte>, bad: seq<byte>, n: nat)
    requires 4 <= n <= |good| == |bad| && bad[..n] == good[..n]
    ensures bad[..4] == good[..4] && bad[4..n] == good[4..n]
  {
    assert bad[..4] == bad[..n][..4] && good[..4] == good[..n][..4];
    assert bad[4..n] == bad[..n][4..] && good[4..n] == good[..n][4..];
  }

  lemma IntactCrc(bytes: seq<byte>, n: nat)
    requires Intact(bytes) && n == BodyLength(bytes)
    ensures 20 <= n && n + 4 <= |bytes| && bytes[n..n + 4] == Put32(Crc(bytes[4..n]))
  {
    PutTake(bytes[n..n + 4]);
  }

  lemma IntactTrailer(good: seq<byte>, bad: seq<byte>, n: nat)
    requires Intact(good) && n == BodyLength(good) && |bad| == |good|
    requires bad[..n] == good[..n] && bad[n..n + 4] != good[n..n + 4]
    ensures !Intact(bad)
  {
    SameHead(good, bad, n);
    IntactCrc(good, n);
    if Intact(bad) {
      IntactCrc(bad, n);
    }
  }

  /** So does any change to the CRC field itself. */
  lemma TrailerCorruptionRejected(good: seq<byte>, bad: seq<byte>)
    requires Decode(good).Some? && |bad| == |good|
    requires var n := BodyLength(good); bad[..n] == good[..n] && bad[n..n + 4] != good[n..n + 4]
    ensures Decode(bad) == None
  {
    IntactTrailer(good, bad, BodyLength(good));
  }

  /** Where the parts of a buffer fall that is cut at the end of its payload. */
  lemma StraddleParts(before: seq<byte>, v: seq<byte>, t: seq<byte>, after: seq<byte>, n: nat)
    requires 8 <= |before| && n == |before| + |v| && |t| + |after| >= 4
    ensures var bytes := before + v + t + after;
            && |bytes| >= n + 4 && bytes[..4] == before[..4] && bytes[4..8] == before[4..8]
            && bytes[4..n] == before[4..] + v && bytes[n..n + 4] == (t + after)[..4]
  {
  }

  /** Whether a frame with this length and magic is intact is decided by its CRC field. */
  lemma IntactByField(bytes: seq<byte>, n: nat)
    requires 20 <= n && n + 4 <= |bytes| && n == BodyLength(bytes) && bytes[4..8] == Magic()
    ensures Intact(bytes) <==> bytes[n..n + 4] == Put32(Crc(bytes[4..n]))
  {
    PutTake(bytes[n..n + 4]);
    Back32(Crc(bytes[4..n]));
  }

  lemma SuffixKept(t: seq<byte>, u: seq<byte>, after: seq<byte>, a: nat)
    requires |t| == |u| && 1 <= a && a + |t| <= 4 <= |t| + |after|
    ensures (t + after)[..4][4 - a..] == (u + after)[..4][4 - a..]
  {
  }

  lemma StraddleCore(good: seq<byte>, bad: seq<byte>, n: nat, head: seq<byte>, v: seq<byte>, w: seq<byte>)
    requires Intact(good) && n == BodyLength(good)
    requires |bad| == |good| && bad[..4] == good[..4] && bad[4..8] == good[4..8]
    requires 1 <= |v| == |w| <= 3 && v != w && good[4..n] == head + v && bad[4..n] == head + w
    requires bad[n..n + 4][4 - |v|..] == good[n..n + 4][4 - |v|..]
    ensures Intact(bad) <==> Unnoticed(v, w, good[n..n + 4], bad[n..n + 4])
  {
    IntactByField(good, n);
    IntactByField(bad, n);
    TailExact(head, v, w, bad[n..n + 4]);
  }

  /** A window of at most four bytes that starts in the payload and ends in the CRC field. Replacing it leaves the frame
      intact if and only if the window is the last two bytes of the payload, changed by 0x61 0xD8, and the first two of
      the field, changed by 0xF4 0xEE. */
  lemma StraddleExact(before: seq<byte>, v: seq<byte>, w: seq<byte>, t: seq<byte>, u: seq<byte>, after: seq<byte>)
    requires 1 <= |v| == |w| && 1 <= |t| == |u| && |v| + |t| <= 4 && v != w
    requires Intact(before + v + t + after) && |before| + |v| == BodyLength(before + v + t + after)
    ensures |t| + |after| >= 4
    ensures Intact(before + w + u + after) <==> Unnoticed(v, w, (t + after)[..4], (u + after)[..4])
  {
    var n := |before| + |v|;
    var good, bad := before + v + t + after, before + w + u + after;
    StraddleParts(before, v, t, after, n);
    StraddleParts(before, w, u, after, n);
    SuffixKept(t, u, after, |v|);
    StraddleCore(good, bad, n, before[4..], v, w);
  }

  // ---- The code -----------------------------------------------------------

  lemma RecordThenAppend(r: Record, a: seq<byte>, b: seq<byte>)
    ensures RecordThen(r, a + b) == RecordThen(r, a) + b
  {
    var asks := SideThen(r.asks, a);
    assert SideThen(r.asks, a + b) == asks + b;
    assert SideThen(r.bids, asks + b) == SideThen(r.bids, asks) + b;
  }

  lemma {:induction false} RecordsThenSnoc(rs: seq<Record>, r: Record)
    ensures RecordsThen(rs + [r], []) == RecordsThen(rs, []) + RecordThen(r, [])
    decreases |rs|
  {
    if rs == [] {
      assert [] + [r] == [r] && [r][1..] == [];
    } else {
      RecordsThenSnoc(rs[1..], r);
      assert (rs + [r])[1..] == rs[1..] + [r];
      RecordThenAppend(rs[0], RecordsThen(rs[1..], []), RecordThen(r, []));
    }
  }

  method AppendRecord(body: seq<byte>, r: Record) returns (out: seq<byte>)
    ensures out == body + RecordThen(r, [])
  {
    out := AppendLevels(body + r.symbol + [CountByte(|r.bids|)], r.bids);
    out := AppendLevels(out + [CountByte(|r.asks|)], r.asks);
    ghost var asks := SideThen(r.asks, []);
    assert asks == [CountByte(|r.asks|)] + PutLevels(r.asks);
    assert RecordThen(r, []) == r.symbol + ([CountByte(|r.bids|)] + (PutLevels(r.bids) + asks));
  }

  lemma RecordsThenNext(rs: seq<Record>, i: nat)
    requires i < |rs|
    ensures RecordsThen(rs[..i + 1], []) == RecordsThen(rs[..i], []) + RecordThen(rs[i], [])
  {
    RecordsThenSnoc(rs[..i], rs[i]);
    assert rs[..i + 1] == rs[..i] + [rs[i]];
  }

  lemma JoinLeft(a: seq<byte>, b: seq<byte>, c: seq<byte>)
    ensures a + b + c == a + (b + c)
  {
  }

  method AppendRecords(head: seq<byte>, rs: seq<Record>) returns (body: seq<byte>)
    ensures body == head + RecordsThen(rs, [])
  {
    body := head;
    for i := 0 to |rs|
      invariant body == head + RecordsThen(rs[..i], [])
    {
      RecordsThenNext(rs, i);
      body := AppendRecord(body, rs[i]);
      JoinLeft(head, RecordsThen(rs[..i], []), RecordThen(rs[i], []));
    }
    assert rs[..|rs|] == rs;
  }

  lemma HeadThenRecords(a: seq<byte>, b: seq<byte>, c: seq<byte>, d: seq<byte>)
    ensures a + (b + c) + d == a + (b + (c + d))
  {
  }

  /** encode_book_snapshot: build the body, append its CRC, put its length in front. */
  method EncodeSnapshot(s: Snapshot) returns (frame: seq<byte>)
    ensures frame == Frame(s)
  {
    var body := AppendRecords(Magic() + (Put64(s.sequence) + Put32(|s.records|)), s.records);
    HeadThenRecords(Magic(), Put64(s.sequence), Put32(|s.records|), RecordsThen(s.records, []));
    var crc := Checksum(body);
    frame := Put32(|body| + 4) + (body + Put32(crc));
  }

  method ReadSide(p: seq<byte>, spare: nat) returns (side: Option<(seq<Level>, seq<byte>)>)
    requires |p| >= 1
    ensures side == ParseSide(p, spare)
  {
    var n: nat, q := p[0], p[1..];
    if n > MAX_LEVELS || |q| < 12 * n + spare {
      return None;
    }
    var ls := ReadLevels(q, n);
    return Some((ls, q[12 * n..]));
  }

  method ReadRecord(p: seq<byte>) returns (record: Option<(Record, seq<byte>)>)
    ensures record == ParseRecord(p)
  {
    if |p| < 9 {
      return None;
    }
    var bids := ReadSide(p[8..], 1);
    if bids.None? {
      return None;
    }
    var asks := ReadSide(bids.value.1, 0);
    if asks.None? {
      return None;
    }
    return Some((Record(p[..8], bids.value.0, asks.value.0), asks.value.1));
  }

  /** What a whole parse gives when it has read done and goes on with more. */
  function Resume(done: seq<Record>, more: Option<(seq<Record>, seq<byte>)>): Option<(seq<Record>, seq<byte>)> {
    match more
    case None => None
    case Some((rs, rest)) => Some((done + rs, rest))
  }

  lemma ResumeStep(done: seq<Record>, p: seq<byte>, n: nat)
    ensures var one := ParseRecord(p);
            Resume(done, ParseRecords(p, n + 1)) ==
            if one.None? then None else Resume(done + [one.value.0], ParseRecords(one.value.1, n))
  {
    if ParseRecord(p).Some? {
      var r, q := ParseRecord(p).value.0, ParseRecord(p).value.1;
      if ParseRecords(q, n).Some? {
        var rs := ParseRecords(q, n).value.0;
        assert done + [r] + rs == done + ([r] + rs);
      }
    }
  }

  lemma ResumeEnds(done: seq<Record>, p: seq<byte>, more: Option<(seq<Record>, seq<byte>)>)
    ensures Resume(done, ParseRecords(p, 0)) == Some((done, p)) && Resume([], more) == more
  {
    assert done + [] == done;
    if more.Some? {
      assert [] + more.value.0 == more.value.0;
    }
  }

  /** The symbol loop: n records from a cursor, given up at the first one that does not fit. */
  method ReadRecords(start: seq<byte>, n: nat) returns (all: Option<(seq<Record>, seq<byte>)>)
    ensures all == ParseRecords(start, n)
  {
    var p, done, left := start, [], n;
    ghost var whole := ParseRecords(start, n);
    ResumeEnds(done, p, whole);
    while left > 0
      invariant Resume(done, ParseRecords(p, left)) == whole
    {
      left := left - 1;
      ResumeStep(done, p, left);
      var record := ReadRecord(p);
      if record.None? {
        return None;
      }
      done, p := done + [record.value.0], record.value.1;
    }
    ResumeEnds(done, p, whole);
    all := Some((done, p));
  }

  /** decode_book_snapshot: lengths, magic and CRC before any field is trusted. */
  method DecodeSnapshot(bytes: seq<byte>) returns (s: Option<Snapshot>)
    ensures s == Decode(bytes)
  {
    if |bytes| < 4 {
      return None;
    }
    var n := BodyLength(bytes);
    if |bytes| < 4 + n || n < 20 || bytes[4..8] != Magic() {
      return None;
    }
    var crc := Checksum(bytes[4..n]);
    if Take32(bytes[n..n + 4]) != crc {
      return None;
    }
    s := ReadPayload(bytes[8..n]);
  }

  method ReadPayload(p: seq<byte>) returns (s: Option<Snapshot>)
    requires |p| >= 12
    ensures s == ParsePayload(p)
  {
    var q := p[8..];
    var records := ReadRecords(q[4..], Take32(q[..4]));
    if records.None? || records.value.1 != [] {
      return None;
    }
    return Some(Snapshot(Take64(p[..8]), records.value.0));
  }
}
