/** The recovery and book-snapshot frame formats in bytes and offsets. What the decoders accept and what the encoders
    write are exactly the frames described here. */
module WireLayout {
  import opened Bytes
  import opened Ladder
  import opened LevelWire
  import opened GapDetectors
  import RW = RecoveryWire
  import BS = BookSnapshot
  import Crc32

  // ---- Levels -------------------------------------------------------------

  /** A level at offset k: price, total and count, four bytes each. */
  predicate LevelAt(b: seq<byte>, k: nat, l: Level) {
    && k + 12 <= |b|
    && l == Level(Take32(b[k..k + 4]), Take32(b[k + 4..k + 8]), Take32(b[k + 8..k + 12]))
  }

  /** Levels one behind the other from offset k. */
  predicate LevelsAt(b: seq<byte>, k: nat, ls: seq<Level>)
    decreases |ls|
  {
    ls == [] || (LevelAt(b, k, ls[0]) && LevelsAt(b, k + 12, ls[1..]))
  }

  lemma LevelRead(b: seq<byte>, k: nat, end: nat)
    requires k + 12 <= end <= |b|
    ensures LevelAt(b, k, TakeLevel(b[k..end])) && b[k..end][12..] == b[k + 12..end]
  {
    Window(b, k, end, 4);
    Window(b, k + 4, end, 4);
    Window(b, k + 8, end, 4);
    Window(b, k, end, 12);
  }

  /** The levels read between an offset and the end of the frame are spelled there. */
  lemma {:induction false} LevelsRead(b: seq<byte>, k: nat, end: nat, n: nat)
    requires k + 12 * n <= end <= |b|
    ensures LevelsAt(b, k, TakeLevels(b[k..end], n))
    decreases n
  {
    if n > 0 {
      var m, ls := n - 1, TakeLevels(b[k..end], n);
      LevelRead(b, k, end);
      LevelsRead(b, k + 12, end, m);
      assert ls[1..] == TakeLevels(b[k + 12..end], m);
    }
  }

  /** Bytes spell one list of levels of a given length. */
  lemma {:induction false} LevelsUnique(b: seq<byte>, k: nat, ls: seq<Level>, ls': seq<Level>)
    requires LevelsAt(b, k, ls) && LevelsAt(b, k, ls') && |ls| == |ls'|
    ensures ls == ls'
    decreases |ls|
  {
    if ls != [] {
      LevelsUnique(b, k + 12, ls[1..], ls'[1..]);
      assert ls == [ls[0]] + ls[1..] && ls' == [ls'[0]] + ls'[1..];
    }
  }

  /** And levels that are spelled there are the ones read. */
  lemma LevelsSpelled(b: seq<byte>, k: nat, end: nat, ls: seq<Level>)
    requires k + 12 * |ls| <= end <= |b| && LevelsAt(b, k, ls)
    ensures TakeLevels(b[k..end], |ls|) == ls
  {
    LevelsRead(b, k, end, |ls|);
    LevelsUnique(b, k, ls, TakeLevels(b[k..end], |ls|));
  }

  // ---- Recovery frames ----------------------------------------------------

  /** A complete frame: four bytes of length, which counts the opcode and the body. */
  predicate Complete(b: seq<byte>, op: byte, least: nat) {
    |b| >= 5 && |b| >= 4 + Take32(b[..4]) && Take32(b[..4]) >= 1 + least && b[4] == op
  }

  /** The lists of a response: each with its length in four bytes, one behind the other, within the frame. */
  predicate ListsAt(b: seq<byte>, k: nat, bids: seq<Level>, asks: seq<Level>, end: nat) {
    var q := k + 4 + 12 * |bids|;
    && q + 4 + 12 * |asks| <= end <= |b|
    && |bids| == Take32(b[k..k + 4]) && LevelsAt(b, k + 4, bids)
    && |asks| == Take32(b[q..q + 4]) && LevelsAt(b, q + 4, asks)
  }

  /** b begins with this frame. */
  predicate Spells(b: seq<byte>, f: RW.Frame) {
    match f
    case Unrecognised => false
    case Request(loc, from) => Complete(b, 0x51, 10) && loc == Take16(b[5..7]) && from == Take64(b[7..15])
    case Fault(loc, code) => Complete(b, 0x46, 3) && loc == Take16(b[5..7]) && code == b[7]
    case Reply(r) =>
      && Complete(b, 0x53, 22) && r.loc == Take16(b[5..7]) && r.lastSeq == Take64(b[7..15]) && r.symbol == b[15..23]
      && ListsAt(b, 23, r.bids, r.asks, 4 + Take32(b[..4]))
  }

  lemma Window(b: seq<byte>, k: nat, end: nat, n: nat)
    requires k + n <= end <= |b|
    ensures b[k..end][..n] == b[k..k + n] && b[k..end][n..] == b[k + n..end]
  {
  }

  lemma ReplyFields(b: seq<byte>, end: nat, body: seq<byte>)
    requires 27 <= end <= |b| && body == b[5..end]
    ensures body[..2] == b[5..7] && body[2..][..8] == b[7..15] && body[2..][8..][..8] == b[15..23]
    ensures body[2..][8..][8..][..4] == b[23..27] && body[2..][8..][8..][4..] == b[27..end]
  {
    Window(b, 5, end, 2);
    Window(b, 7, end, 8);
    Window(b, 15, end, 8);
    Window(b, 23, end, 4);
  }

  /** got is what the decoder makes of the body of a response, in offsets of the frame: the lengths of its lists are bn,
      and at offset q the other one. */
  predicate ReadAs(b: seq<byte>, end: nat, total: nat, bn: nat, q: nat, got: (RW.Frame, nat))
    requires 27 <= q && 27 <= end <= |b| && q == 27 + 12 * bn
  {
    if q + 4 > end || q + 4 + 12 * Take32(b[q..q + 4]) > end then got.1 == 0
    else
      var bids, asks := TakeLevels(b[27..end], bn), TakeLevels(b[q + 4..end], Take32(b[q..q + 4]));
      got == (RW.Reply(Response(Take16(b[5..7]), Take64(b[7..15]), b[15..23], bids, asks)), total)
  }

  lemma ReplyRead(b: seq<byte>, end: nat, total: nat, bn: nat, q: nat)
    requires 27 <= end <= |b| && bn == Take32(b[23..27]) && q == 27 + 12 * bn
    ensures ReadAs(b, end, total, bn, q, RW.ParseReply(b[5..end], total))
  {
    ReplyFields(b, end, b[5..end]);
    if q + 4 <= end {
      Window(b, 27, end, 12 * bn);
      Window(b, q, end, 4);
    }
  }

  /** Lists that are read are spelled. */
  lemma ListsRead(b: seq<byte>, end: nat, bn: nat, q: nat, an: nat)
    requires 27 <= end <= |b| && bn == Take32(b[23..27]) && q == 27 + 12 * bn
    requires q + 4 <= end && an == Take32(b[q..q + 4]) && q + 4 + 12 * an <= end
    ensures ListsAt(b, 23, TakeLevels(b[27..end], bn), TakeLevels(b[q + 4..end], an), end)
  {
    LevelsRead(b, 27, end, bn);
    LevelsRead(b, q + 4, end, an);
  }

  /** Lists that are spelled are read. */
  lemma ListsSpelled(b: seq<byte>, end: nat, bn: nat, q: nat, bids: seq<Level>, asks: seq<Level>)
    requires 27 <= end <= |b| && bn == Take32(b[23..27]) && q == 27 + 12 * bn && ListsAt(b, 23, bids, asks, end)
    ensures q + 4 <= end && q + 4 + 12 * Take32(b[q..q + 4]) <= end
    ensures bids == TakeLevels(b[27..end], bn) && asks == TakeLevels(b[q + 4..end], Take32(b[q..q + 4]))
  {
    LevelsSpelled(b, 27, end, bids);
    LevelsSpelled(b, q + 4, end, asks);
  }

  /** The lists of a response as the decoder reads them. */
  lemma ListsExact(b: seq<byte>, end: nat, r: Response, total: nat, bn: nat, q: nat, got: (RW.Frame, nat))
    requires 27 <= end <= |b| && bn == Take32(b[23..27]) && q == 27 + 12 * bn
    requires total > 0 && ReadAs(b, end, total, bn, q, got)
    ensures got.1 > 0 && got.0 == RW.Reply(r) <==>
            && r.loc == Take16(b[5..7]) && r.lastSeq == Take64(b[7..15]) && r.symbol == b[15..23]
            && ListsAt(b, 23, r.bids, r.asks, end)
  {
    if q + 4 <= end && q + 4 + 12 * Take32(b[q..q + 4]) <= end {
      ListsRead(b, end, bn, q, Take32(b[q..q + 4]));
    }
    if ListsAt(b, 23, r.bids, r.asks, end) {
      ListsSpelled(b, end, bn, q, r.bids, r.asks);
    }
  }

  lemma ReplyExact(b: seq<byte>, end: nat, r: Response)
    requires 27 <= end <= |b|
    ensures var got := RW.ParseReply(b[5..end], end);
            got.1 > 0 && got.0 == RW.Reply(r) <==>
            && r.loc == Take16(b[5..7]) && r.lastSeq == Take64(b[7..15]) && r.symbol == b[15..23]
            && ListsAt(b, 23, r.bids, r.asks, end)
  {
    var bn: nat := Take32(b[23..27]);
    ReplyRead(b, end, end, bn, 27 + 12 * bn);
    ListsExact(b, end, r, end, bn, 27 + 12 * bn, RW.ParseReply(b[5..end], end));
  }

  lemma ShortFields(b: seq<byte>, end: nat)
    requires 8 <= end <= |b|
    ensures b[5..end][..2] == b[5..7] && b[5..end][2] == b[7]
    ensures end >= 15 ==> b[5..end][2..][..8] == b[7..15]
  {
  }

  /** The decoder consumes exactly the frames described, and reads each as described. */
  lemma RecoveryLayout(b: seq<byte>, f: RW.Frame)
    requires RW.Announced(b)
    ensures RW.Decode(b).1 > 0 && RW.Decode(b).0 == f <==> Spells(b, f)
  {
    if |b| >= 5 && |b| >= 4 + Take32(b[..4]) && Take32(b[..4]) > 0 {
      var end := 4 + Take32(b[..4]);
      if end >= 8 {
        ShortFields(b, end);
      }
      if b[4] == 0x53 && end >= 27 && f.Reply? {
        ReplyExact(b, end, f.r);
      }
    }
  }

  /** The encoders write the frames described, and nothing behind them. */
  lemma RecoveryEncoders(loc: u16, from: u64, code: byte, r: Response)
    ensures Spells(RW.RequestFrame(loc, from), RW.Request(loc, from)) && |RW.RequestFrame(loc, from)| == 15
    ensures Spells(RW.FaultFrame(loc, code), RW.Fault(loc, code)) && |RW.FaultFrame(loc, code)| == 8
    ensures RW.Fits(r) ==>
              Spells(RW.ReplyFrame(r), RW.Reply(r)) && |RW.ReplyFrame(r)| == 31 + 12 * (|r.bids| + |r.asks|)
  {
    var request, fault, reply := RW.RequestFrame(loc, from), RW.FaultFrame(loc, code), RW.ReplyFrame(r);
    assert request + [] == request && fault + [] == fault && reply + [] == reply;
    RW.RequestRoundTrip(loc, from, []);
    RecoveryLayout(request, RW.Request(loc, from));
    RW.FaultRoundTrip(loc, code, []);
    RecoveryLayout(fault, RW.Fault(loc, code));
    if RW.Fits(r) {
      RW.FramesRoundTrip(r, []);
      RecoveryLayout(reply, RW.Reply(r));
    }
  }

  // ---- Book snapshots -----------------------------------------------------

  /** One side of a record: a byte with the number of levels, at most ten, and the levels. */
  predicate SideAt(b: seq<byte>, k: nat, ls: seq<Level>) {
    k < |b| && |ls| == b[k] && |ls| <= 10 && LevelsAt(b, k + 1, ls)
  }

  function RecordEnd(k: nat, r: BS.Record): nat {
    k + 10 + 12 * (|r.bids| + |r.asks|)
  }

  /** A record: eight bytes of symbol and the two sides. */
  predicate RecordAt(b: seq<byte>, k: nat, r: BS.Record) {
    k + 8 <= |b| && r.symbol == b[k..k + 8] && SideAt(b, k + 8, r.bids) && SideAt(b, k + 9 + 12 * |r.bids|, r.asks)
  }

  /** Records one behind the other from offset k, the last one ending at end. */
  predicate RecordsAt(b: seq<byte>, k: nat, rs: seq<BS.Record>, end: nat)
    decreases |rs|
  {
    if rs == [] then k == end
    else RecordAt(b, k, rs[0]) && RecordEnd(k, rs[0]) <= end && RecordsAt(b, RecordEnd(k, rs[0]), rs[1..], end)
  }

  /** b begins with the frame of s: length, "BSN1", sequence, number of records, the records, and the CRC of all that
      lies between length and CRC. */
  ghost predicate SpellsSnapshot(b: seq<byte>, s: BS.Snapshot) {
    && Whole(b) && s.sequence == Take64(b[8..16]) && |s.records| == Take32(b[16..20])
    && RecordsAt(b, 20, s.records, Take32(b[..4]))
  }

  /** The parts of the frame that do not depend on what it says. */
  ghost predicate Whole(b: seq<byte>) {
    && |b| >= 24 && |b| >= 4 + Take32(b[..4])
    && var n := Take32(b[..4]);
       n >= 20 && b[4..8] == [0x42, 0x53, 0x4E, 0x31] && Take32(b[n..n + 4]) == Crc32.Crc(b[4..n])
  }

  lemma WholeExact(b: seq<byte>)
    ensures BS.Intact(b) <==> Whole(b)
  {
  }

  /** One side at offset k, as the decoder takes it: the levels, and the offset behind them. */
  function SideCut(b: seq<byte>, k: nat, end: nat, spare: nat): Option<(seq<Level>, nat)>
    requires k < end <= |b|
  {
    var n: nat := b[k];
    if n > 10 || k + 1 + 12 * n + spare > end then None
    else Some((TakeLevels(b[k + 1..end], n), k + 1 + 12 * n))
  }

  lemma SideParsed(b: seq<byte>, k: nat, end: nat, spare: nat)
    requires k < end <= |b|
    ensures var cut := SideCut(b, k, end, spare);
            BS.ParseSide(b[k..end], spare) == if cut.None? then None else Some((cut.value.0, b[cut.value.1..end]))
  {
    var n: nat := b[k];
    Window(b, k, end, 1);
    if k + 1 + 12 * n <= end {
      Window(b, k + 1, end, 12 * n);
    }
  }

  lemma SideCutSound(b: seq<byte>, k: nat, end: nat, spare: nat, ls: seq<Level>, next: nat)
    requires k < end <= |b| && SideCut(b, k, end, spare) == Some((ls, next))
    ensures SideAt(b, k, ls) && next == k + 1 + 12 * |ls| && next + spare <= end
  {
    LevelsRead(b, k + 1, end, b[k]);
  }

  lemma SideCutComplete(b: seq<byte>, k: nat, end: nat, spare: nat, ls: seq<Level>, next: nat)
    requires k < end <= |b| && SideAt(b, k, ls) && next == k + 1 + 12 * |ls| && next + spare <= end
    ensures SideCut(b, k, end, spare) == Some((ls, next))
  {
    LevelsSpelled(b, k + 1, end, ls);
  }

  /** One record at offset k, and the offset behind it. */
  function RecordCut(b: seq<byte>, k: nat, end: nat): Option<(BS.Record, nat)>
    requires end <= |b|
  {
    if k + 9 > end then None
    else
      var bids := SideCut(b, k + 8, end, 1);
      if bids.None? || bids.value.1 >= end then None
      else
        var asks := SideCut(b, bids.value.1, end, 0);
        if asks.None? then None
        else Some((BS.Record(b[k..k + 8], bids.value.0, asks.value.0), asks.value.1))
  }

  lemma RecordParsed(b: seq<byte>, k: nat, end: nat)
    requires k <= end <= |b|
    ensures var cut := RecordCut(b, k, end);
            BS.ParseRecord(b[k..end]) == if cut.None? then None else Some((cut.value.0, b[cut.value.1..end]))
  {
    if k + 9 <= end {
      Window(b, k, end, 8);
      SideParsed(b, k + 8, end, 1);
      var bids := SideCut(b, k + 8, end, 1);
      if bids.Some? {
        SideParsed(b, bids.value.1, end, 0);
      }
    }
  }

  /** The first half of a record that is cut off, and where the other half is taken from. */
  lemma RecordCutFirst(b: seq<byte>, k: nat, end: nat, r: BS.Record, next: nat) returns (j: nat)
    requires end <= |b| && RecordCut(b, k, end) == Some((r, next))
    ensures r.symbol == b[k..k + 8] && SideAt(b, k + 8, r.bids) && j == k + 9 + 12 * |r.bids|
    ensures j < end && SideCut(b, j, end, 0) == Some((r.asks, next))
  {
    j := SideCut(b, k + 8, end, 1).value.1;
    SideCutSound(b, k + 8, end, 1, r.bids, j);
  }

  lemma RecordFrom(b: seq<byte>, k: nat, r: BS.Record, j: nat, next: nat)
    requires k + 8 <= |b| && r.symbol == b[k..k + 8] && SideAt(b, k + 8, r.bids) && j == k + 9 + 12 * |r.bids|
    requires SideAt(b, j, r.asks) && next == j + 1 + 12 * |r.asks|
    ensures RecordAt(b, k, r) && next == RecordEnd(k, r)
  {
  }

  lemma RecordCutComplete(b: seq<byte>, k: nat, end: nat, r: BS.Record, next: nat)
    requires RecordAt(b, k, r) && next == RecordEnd(k, r) <= end <= |b|
    ensures RecordCut(b, k, end) == Some((r, next))
  {
    var j := k + 9 + 12 * |r.bids|;
    SideCutComplete(b, k + 8, end, 1, r.bids, j);
    SideCutComplete(b, j, end, 0, r.asks, next);
  }

  lemma {:induction false} RecordsRead(b: seq<byte>, k: nat, end: nat, n: nat, rs: seq<BS.Record>)
    requires k <= end <= |b| && BS.Reads(b[k..end], n, rs, [])
    ensures RecordsAt(b, k, rs, end) && |rs| == n
    decreases n
  {
    if n > 0 {
      var m := n - 1;
      var r, more, q := BS.ParseRecordsSplit(b[k..end], m, rs, []);
      var next := FirstRecord(b, k, end, r, q);
      RecordsRead(b, next, end, m, more);
      assert rs[1..] == more;
    }
  }

  lemma FirstRecord(b: seq<byte>, k: nat, end: nat, r: BS.Record, q: seq<byte>) returns (next: nat)
    requires k <= end <= |b| && BS.ParseRecord(b[k..end]) == Some((r, q))
    ensures RecordAt(b, k, r) && next == RecordEnd(k, r) <= end && q == b[next..end]
  {
    RecordParsed(b, k, end);
    next := RecordCut(b, k, end).value.1;
    var j := RecordCutFirst(b, k, end, r, next);
    SideCutSound(b, j, end, 0, r.asks, next);
    RecordFrom(b, k, r, j, next);
  }

  lemma OneRecordMore(b: seq<byte>, k: nat, j: nat, end: nat, r: BS.Record, more: seq<BS.Record>, n: nat,
                      rs: seq<BS.Record>, m: nat)
    requires RecordAt(b, k, r) && j == RecordEnd(k, r) <= end <= |b| && BS.Reads(b[j..end], n, more, [])
    requires rs == [r] + more && m == n + 1
    ensures BS.Reads(b[k..end], m, rs, [])
  {
    RecordParsed(b, k, end);
    RecordCutComplete(b, k, end, r, j);
    BS.ParseRecordsStep(b[k..end], n, r, b[j..end], more, []);
  }

  lemma NoRecords(b: seq<byte>, k: nat)
    requires k <= |b|
    ensures BS.Reads(b[k..k], 0, [], [])
  {
    assert b[k..k] == [];
  }

  lemma FrontAndRest(rs: seq<BS.Record>)
    requires rs != []
    ensures rs == [rs[0]] + rs[1..]
  {
  }

  lemma {:induction false} RecordsSpelled(b: seq<byte>, k: nat, end: nat, n: nat, rs: seq<BS.Record>)
    requires k <= end <= |b| && RecordsAt(b, k, rs, end) && |rs| == n
    ensures BS.Reads(b[k..end], n, rs, [])
    decreases n
  {
    if n > 0 {
      var r, more, m, j := rs[0], rs[1..], n - 1, RecordEnd(k, rs[0]);
      FrontAndRest(rs);
      RecordsSpelled(b, j, end, m, more);
      OneRecordMore(b, k, j, end, r, more, m, rs, n);
    } else {
      NoRecords(b, k);
    }
  }

  lemma RecordsExact(b: seq<byte>, k: nat, end: nat, n: nat, rs: seq<BS.Record>)
    requires k <= end <= |b|
    ensures BS.Reads(b[k..end], n, rs, []) <==> RecordsAt(b, k, rs, end) && |rs| == n
  {
    if BS.Reads(b[k..end], n, rs, []) {
      RecordsRead(b, k, end, n, rs);
    }
    if RecordsAt(b, k, rs, end) && |rs| == n {
      RecordsSpelled(b, k, end, n, rs);
    }
  }

  lemma PayloadExact(b: seq<byte>, n: nat, s: BS.Snapshot)
    requires 20 <= n <= |b|
    ensures BS.ParsePayload(b[8..n]) == Some(s) <==>
            s.sequence == Take64(b[8..16]) && |s.records| == Take32(b[16..20]) && RecordsAt(b, 20, s.records, n)
  {
    Window(b, 8, n, 8);
    Window(b, 16, n, 4);
    RecordsExact(b, 20, n, Take32(b[16..20]), s.records);
  }

  /** The decoder accepts exactly the frames described, and reads each as described. */
  lemma SnapshotLayout(b: seq<byte>, s: BS.Snapshot)
    ensures BS.Decode(b) == Some(s) <==> SpellsSnapshot(b, s)
  {
    WholeExact(b);
    if Whole(b) {
      PayloadExact(b, Take32(b[..4]), s);
    }
  }

  /** The encoder writes the frame described, whenever no side has more than ten levels and the length fits its
      field. */
  lemma SnapshotEncoder(s: BS.Snapshot)
    requires BS.Announceable(s)
    requires forall i :: 0 <= i < |s.records| ==> |s.records[i].bids| <= 10 && |s.records[i].asks| <= 10
    ensures SpellsSnapshot(BS.Frame(s), s)
  {
    BS.DecodeEncoded(s);
    SnapshotLayout(BS.Frame(s), s);
  }
}
