/** The TCP recovery protocol: [u32 length][op][body] frames for requests, snapshots and faults. */
module RecoveryWire {
  import opened Bytes
  import opened Ladder
  import opened LevelWire
  import opened GapDetectors

  const Q: byte := 0x51
  const S: byte := 0x53
  const F: byte := 0x46

  datatype Frame = Unrecognised | Request(loc: u16, from: u64) | Reply(r: Response) | Fault(loc: u16, code: byte)

  function WithHeader(op: byte, body: seq<byte>): seq<byte> {
    Put32(1 + |body|) + ([op] + body)
  }

  function RequestFrame(loc: u16, from: u64): seq<byte> {
    WithHeader(Q, Put16(loc) + Put64(from))
  }

  function FaultFrame(loc: u16, code: byte): seq<byte> {
    WithHeader(F, Put16(loc) + [code])
  }

  function SideThen(ls: seq<Level>, tail: seq<byte>): seq<byte> {
    Put32(|ls|) + (PutLevels(ls) + tail)
  }

  function ReplyBody(r: Response): (s: seq<byte>)
    ensures |s| == 26 + 12 * (|r.bids| + |r.asks|)
  {
    Put16(r.loc) + (Put64(r.lastSeq) + (r.symbol + SideThen(r.bids, SideThen(r.asks, []))))
  }

  function ReplyFrame(r: Response): seq<byte> {
    WithHeader(S, ReplyBody(r))
  }

  /** The body length plus the four bytes of the length field stay within 32 bits. */
  predicate Fits(r: Response) {
    4 + 1 + |ReplyBody(r)| < TWO32
  }

  /** A snapshot body. A list that is too short ends the decode with what was read so far and nothing consumed. */
  function ParseReply(body: seq<byte>, total: nat): (Frame, nat)
    requires |body| >= 22
  {
    var b1 := body[2..];
    var b2 := b1[8..];
    var b3 := b2[8..];
    var loc, last, symbol, bn, p := Take16(body[..2]), Take64(b1[..8]), b2[..8], Take32(b3[..4]), b3[4..];
    if |p| < 12 * bn + 4 then (Reply(Response(loc, last, symbol, [], [])), 0)
    else
      var bids, q := TakeLevels(p, bn), p[12 * bn..];
      var an, t := Take32(q[..4]), q[4..];
      if |t| < 12 * an then (Reply(Response(loc, last, symbol, bids, [])), 0)
      else (Reply(Response(loc, last, symbol, bids, TakeLevels(t, an))), total)
  }

  /** The announced length leaves 4 + length within 32 bits, as every frame accepted from a socket does. */
  predicate Announced(bytes: seq<byte>) {
    |bytes| >= 4 ==> 4 + Take32(bytes[..4]) < TWO32
  }

  /** The body of a complete frame, by its opcode. */
  function ParseBody(op: byte, body: seq<byte>, total: nat): (r: (Frame, nat))
    ensures r.1 == 0 || r.1 == total
  {
    if op == Q then
      if |body| < 10 then (Unrecognised, 0)
      else (Request(Take16(body[..2]), Take64(body[2..][..8])), total)
    else if op == F then
      if |body| < 3 then (Unrecognised, 0)
      else (Fault(Take16(body[..2]), body[2]), total)
    else if op == S then
      if |body| < 22 then (Unrecognised, 0) else ParseReply(body, total)
    else (Unrecognised, 0)
  }

  /** decode_frame: the frame at the front of the buffer, and the bytes used. */
  function Decode(bytes: seq<byte>): (r: (Frame, nat))
    requires Announced(bytes)
    ensures r.1 <= |bytes|
    ensures r.1 > 0 ==> |bytes| >= 5 && r.1 == 4 + Take32(bytes[..4])
  {
    if |bytes| < 5 then (Unrecognised, 0)
    else
      var len := Take32(bytes[..4]);
      if |bytes| < 4 + len || len == 0 then (Unrecognised, 0)
      else ParseBody(bytes[4], bytes[5..4 + len], 4 + len)
  }

  // ---- Round trips --------------------------------------------------------

  lemma SideRoundTrip(ls: seq<Level>, tail: seq<byte>)
    requires |ls| < TWO32
    ensures var p := SideThen(ls, tail);
            |p| == 4 + 12 * |ls| + |tail| && Take32(p[..4]) == |ls| && p[4..] == PutLevels(ls) + tail &&
            TakeLevels(p[4..], |ls|) == ls && p[4..][12 * |ls|..] == tail
  {
    Back32(|ls|);
    LevelsRoundTrip(ls, tail);
  }

  lemma ReplyRoundTrip(r: Response, total: nat)
    requires Fits(r)
    ensures ParseReply(ReplyBody(r), total) == (Reply(r), total)
  {
    Back16(r.loc);
    Back64(r.lastSeq);
    SideRoundTrip(r.bids, SideThen(r.asks, []));
    SideRoundTrip(r.asks, []);
    var b3 := SideThen(r.bids, SideThen(r.asks, []));
    var b2 := r.symbol + b3;
    var b1 := Put64(r.lastSeq) + b2;
    assert ReplyBody(r)[2..] == b1 && b1[8..] == b2 && b2[8..] == b3;
  }

  lemma HeaderRoundTrip(op: byte, body: seq<byte>, tail: seq<byte>)
    requires 4 + 1 + |body| < TWO32
    ensures var bytes := WithHeader(op, body) + tail;
            && |bytes| >= 5 + |body| && Take32(bytes[..4]) == 1 + |body| && bytes[4] == op
            && bytes[5..5 + |body|] == body && Announced(bytes)
  {
    Back32(1 + |body|);
    var bytes := WithHeader(op, body) + tail;
    assert bytes[..4] == Put32(1 + |body|);
    assert bytes[4..] == [op] + body + tail;
  }

  /** Every frame decodes to what it was made from, using exactly its own bytes, whatever follows it. */
  lemma FramesRoundTrip(r: Response, tail: seq<byte>)
    requires Fits(r)
    ensures Announced(ReplyFrame(r) + tail) && Decode(ReplyFrame(r) + tail) == (Reply(r), |ReplyFrame(r)|)
  {
    HeaderRoundTrip(S, ReplyBody(r), tail);
    ReplyRoundTrip(r, |ReplyFrame(r)|);
    ReplyDecoded(ReplyFrame(r) + tail, ReplyBody(r), |ReplyFrame(r)|);
  }

  /** A complete frame with the snapshot opcode is decided by its body. */
  lemma ReplyDecoded(bytes: seq<byte>, body: seq<byte>, total: nat)
    requires Announced(bytes) && 22 <= |body| && |bytes| >= total == 5 + |body|
    requires Take32(bytes[..4]) == 1 + |body| && bytes[4] == S && bytes[5..5 + |body|] == body
    ensures Decode(bytes) == ParseReply(body, total)
  {
  }

  lemma RequestRoundTrip(loc: u16, from: u64, tail: seq<byte>)
    ensures Announced(RequestFrame(loc, from) + tail)
    ensures Decode(RequestFrame(loc, from) + tail) == (Request(loc, from), |RequestFrame(loc, from)|)
  {
    var body := Put16(loc) + Put64(from);
    HeaderRoundTrip(Q, body, tail);
    Back16(loc);
    Back64(from);
    assert body[2..][..8] == Put64(from);
  }

  lemma FaultRoundTrip(loc: u16, code: byte, tail: seq<byte>)
    ensures Announced(FaultFrame(loc, code) + tail)
    ensures Decode(FaultFrame(loc, code) + tail) == (Fault(loc, code), |FaultFrame(loc, code)|)
  {
    HeaderRoundTrip(F, Put16(loc) + [code], tail);
    Back16(loc);
  }

  // ---- Which frames are canonical -----------------------------------------

  /** The frame that the encoders write for what a frame says. */
  function FrameOf(f: Frame): seq<byte>
    requires !f.Unrecognised?
  {
    match f
    case Request(loc, from) => RequestFrame(loc, from)
    case Fault(loc, code) => FaultFrame(loc, code)
    case Reply(r) => ReplyFrame(r)
  }

  lemma SideCanonical(p: seq<byte>)
    requires |p| >= 4 && |p| - 4 >= 12 * Take32(p[..4])
    ensures var n: nat := Take32(p[..4]); p == SideThen(TakeLevels(p[4..], n), p[4..][12 * n..])
  {
    var n: nat := Take32(p[..4]);
    Cut32(p);
    LevelsCanonical(p[4..], n);
    Cut(p[4..], 12 * n);
  }

  /** The bytes after the last level. */
  lemma SideThenTail(ls: seq<Level>, rest: seq<byte>)
    ensures SideThen(ls, rest) == SideThen(ls, []) + rest
  {
    assert PutLevels(ls) + [] == PutLevels(ls);
  }

  lemma ReplyBodyPrefix(body: seq<byte>, total: nat)
    requires |body| >= 22 && total > 0 && ParseReply(body, total).1 > 0
    ensures ParseReply(body, total).0.Reply? && ReplyBody(ParseReply(body, total).0.r) <= body
  {
    var b1 := body[2..];
    var b2 := b1[8..];
    var b3 := b2[8..];
    Cut16(body);
    Cut64(b1);
    Cut(b2, 8);
    SideCanonical(b3);
    var n: nat := Take32(b3[..4]);
    var q := b3[4..][12 * n..];
    SideCanonical(q);
    var m: nat := Take32(q[..4]);
    var bids, asks, rest := TakeLevels(b3[4..], n), TakeLevels(q[4..], m), q[4..][12 * m..];
    SideThenTail(asks, rest);
    BodyTail(body[..2], b1[..8], b2[..8], bids, SideThen(asks, []), rest);
    PutTake(body[..2]);
    PutTake(b1[..8]);
  }

  lemma BodyTail(a: seq<byte>, b: seq<byte>, c: seq<byte>, ls: seq<Level>, asks: seq<byte>, rest: seq<byte>)
    ensures a + (b + (c + SideThen(ls, asks))) <= a + (b + (c + SideThen(ls, asks + rest)))
  {
    var x := SideThen(ls, asks);
    assert SideThen(ls, asks + rest) == x + rest;
    assert a + (b + (c + (x + rest))) == a + (b + (c + x)) + rest;
  }

  /** A body that is consumed starts with the encoded one. */
  lemma BodyPrefix(op: byte, body: seq<byte>, total: nat, f: Frame)
    requires total > 0 && ParseBody(op, body, total) == (f, total)
    ensures !f.Unrecognised? && FrameOf(f)[4..] <= [op] + body
  {
    if op == Q {
      RequestPrefix(body, f.loc, f.from);
    } else if op == F {
      FaultPrefix(body, f.loc, f.code);
    } else {
      ReplyPrefix(body, total, f.r);
    }
  }

  lemma FaultPrefix(body: seq<byte>, loc: u16, code: byte)
    requires |body| >= 3 && loc == Take16(body[..2]) && code == body[2]
    ensures FaultFrame(loc, code)[4..] <= [F] + body
  {
    Cut16(body);
    AfterHeader(F, Put16(loc) + [code]);
  }

  lemma ReplyPrefix(body: seq<byte>, total: nat, r: Response)
    requires |body| >= 22 && total > 0 && ParseReply(body, total) == (Reply(r), total)
    ensures ReplyFrame(r)[4..] <= [S] + body
  {
    ReplyBodyPrefix(body, total);
    AfterHeader(S, ReplyBody(r));
    assert [S] + ReplyBody(r) <= [S] + body;
  }

  lemma RequestPrefix(body: seq<byte>, loc: u16, from: u64)
    requires |body| >= 10 && loc == Take16(body[..2]) && from == Take64(body[2..][..8])
    ensures RequestFrame(loc, from)[4..] <= [Q] + body
  {
    Cut16(body);
    Cut64(body[2..]);
    AfterHeader(Q, Put16(loc) + Put64(from));
  }

  lemma ConsumedParts(bytes: seq<byte>, f: Frame, n: nat)
    requires Announced(bytes) && Decode(bytes) == (f, n) && n > 0
    ensures 5 <= n <= |bytes| && n == 4 + Take32(bytes[..4])
    ensures ParseBody(bytes[4], bytes[5..n], n) == (f, n) && bytes[4..n] == [bytes[4]] + bytes[5..n]
  {
  }

  lemma AfterHeader(op: byte, body: seq<byte>)
    ensures WithHeader(op, body)[4..] == [op] + body
  {
  }

  lemma HeaderLength(f: Frame)
    requires !f.Unrecognised?
    ensures |FrameOf(f)| >= 5 && FrameOf(f)[..4] == Put32(|FrameOf(f)| - 4)
  {
  }

  /** The encoded frame, and how the consumed bytes relate to it. */
  lemma ConsumedShape(op: byte, body: seq<byte>, n: nat, f: Frame) returns (frame: seq<byte>)
    requires n > 0 && ParseBody(op, body, n) == (f, n)
    ensures !f.Unrecognised? && frame == FrameOf(f) && |frame| >= 5
    ensures frame[..4] == Put32(|frame| - 4) && frame[4..] <= [op] + body
  {
    BodyPrefix(op, body, n, f);
    HeaderLength(f);
    frame := FrameOf(f);
  }

  /** Every frame the decoder consumes starts, after its length field, with what the encoder writes for it; and the
      encoder reproduces it exactly if and only if it is no longer than that. */
  lemma DecodeCanonical(bytes: seq<byte>, f: Frame, n: nat)
    requires Announced(bytes) && Decode(bytes) == (f, n) && n > 0
    ensures !f.Unrecognised? && |FrameOf(f)| <= n <= |bytes|
    ensures bytes[4..|FrameOf(f)|] == FrameOf(f)[4..]
    ensures bytes[..n] == FrameOf(f) <==> n == |FrameOf(f)|
  {
    ConsumedParts(bytes, f, n);
    var frame := ConsumedShape(bytes[4], bytes[5..n], n, f);
    CanonicalParts(bytes, frame, n);
  }

  lemma CanonicalParts(bytes: seq<byte>, frame: seq<byte>, n: nat)
    requires 5 <= n <= |bytes| && n == 4 + Take32(bytes[..4]) && |frame| >= 5
    requires frame[..4] == Put32(|frame| - 4) && frame[4..] <= bytes[4..n]
    ensures |frame| <= n && bytes[4..|frame|] == frame[4..] && (bytes[..n] == frame <==> n == |frame|)
  {
    PutTake(bytes[..4]);
    Cut(frame, 4);
    assert bytes[4..n][..|frame| - 4] == bytes[4..|frame|];
    if n == |frame| {
      assert bytes[..n] == bytes[..4] + bytes[4..n];
    }
  }

  /** A request with one byte too many is accepted, and is not what the encoder writes. */
  lemma LongRequestAccepted(loc: u16, from: u64, extra: byte)
    ensures var bytes := WithHeader(Q, Put16(loc) + (Put64(from) + [extra]));
            Announced(bytes) && Decode(bytes) == (Request(loc, from), 16) && bytes != RequestFrame(loc, from)
  {
    var body := Put16(loc) + (Put64(from) + [extra]);
    HeaderRoundTrip(Q, body, []);
    assert WithHeader(Q, body) + [] == WithHeader(Q, body);
    Back16(loc);
    Back64(from);
    assert body[2..][..8] == Put64(from);
  }

  // ---- The code -----------------------------------------------------------

  method EncodeReply(r: Response) returns (out: seq<byte>)
    ensures out == ReplyFrame(r)
  {
    var body := Put16(r.loc) + Put64(r.lastSeq) + r.symbol;
    ghost var head := body;
    body := AppendLevels(body + Put32(|r.bids|), r.bids);
    body := AppendLevels(body + Put32(|r.asks|), r.asks);
    assert body == ReplyBody(r) by {
      var asks := SideThen(r.asks, []);
      assert asks == Put32(|r.asks|) + PutLevels(r.asks);
      var bids := SideThen(r.bids, asks);
      assert body == head + bids;
    }
    out := Put32(1 + |body|) + [S] + body;
  }

  method DecodeReply(body: seq<byte>, total: nat) returns (f: Frame, consumed: nat)
    requires |body| >= 22
    ensures (f, consumed) == ParseReply(body, total)
  {
    var b1 := body[2..];
    var b2 := b1[8..];
    var b3 := b2[8..];
    var r := Response(Take16(body[..2]), Take64(b1[..8]), b2[..8], [], []);
    var bn: nat, p := Take32(b3[..4]), b3[4..];
    if |p| < 12 * bn + 4 {
      return Reply(r), 0;
    }
    var bids := ReadLevels(p, bn);
    r := r.(bids := bids);
    var q := p[12 * bn..];
    var an: nat, t := Take32(q[..4]), q[4..];
    if |t| < 12 * an {
      return Reply(r), 0;
    }
    var asks := ReadLevels(t, an);
    r := r.(asks := asks);
    return Reply(r), total;
  }

  method DecodeFrame(bytes: seq<byte>) returns (f: Frame, consumed: nat)
    requires Announced(bytes)
    ensures (f, consumed) == Decode(bytes)
  {
    f, consumed := Unrecognised, 0;
    if |bytes| < 5 {
      return;
    }
    var len := Take32(bytes[..4]);
    if |bytes| < 4 + len || len == 0 {
      return;
    }
    var op, body := bytes[4], bytes[5..4 + len];
    if op == Q && |body| >= 10 {
      return Request(Take16(body[..2]), Take64(body[2..][..8])), 4 + len;
    } else if op == F && |body| >= 3 {
      return Fault(Take16(body[..2]), body[2]), 4 + len;
    } else if op == S && |body| >= 22 {
      f, consumed := DecodeReply(body, 4 + len);
    }
  }
}
