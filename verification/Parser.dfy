/** The ITCH frame codec: [u16 length][type][body], all integers big-endian. */
module Parser {
  import opened Bytes
  import opened Itch

  datatype Status = Ok | ShortBuffer | UnknownType | LengthMismatch
  datatype ParseResult = ParseResult(status: Status, consumed: nat, message: Option<Message>)

  // ---- Wire layout --------------------------------------------------------

  const S: byte := 0x53
  const R: byte := 0x52
  const A: byte := 0x41
  const F: byte := 0x46
  const E: byte := 0x45
  const C: byte := 0x43
  const X: byte := 0x58
  const D: byte := 0x44
  const U: byte := 0x55
  const P: byte := 0x50

  function TypeCode(b: Body): byte {
    match b
    case SystemEvent(_) => S
    case StockDirectory(_, _, _, _) => R
    case AddOrder(_) => A
    case AddOrderMpid(_, _) => F
    case Executed(_) => E
    case ExecutedWithPrice(_, _, _) => C
    case Cancel(_, _) => X
    case Delete(_) => D
    case Replace(_, _, _, _) => U
    case Trade(_, _) => P
  }

  /** Wire size including the type byte; 0 for a type this handler does not know. */
  function WireSize(t: byte): u16 {
    if t == S then 12 else if t == R then 39 else if t == A then 36 else if t == F then 40 else if t == E then 31
    else if t == C then 36 else if t == X then 23 else if t == D then 19 else if t == U then 35
    else if t == P then 44 else 0
  }

  /** Bytes of a frame that neither side reads or writes: the tail of a Stock Directory body. */
  function Unused(t: byte): nat {
    if t == R then 14 else 0
  }

  /** Bytes of type-specific fields. */
  function FieldSize(t: byte): nat
    requires WireSize(t) > 0
  {
    WireSize(t) - 11 - Unused(t)
  }

  function FramedSize(m: Message): nat {
    2 + WireSize(TypeCode(m.body))
  }

  /** Bytes that the encoder stores. */
  function Written(m: Message): nat {
    FramedSize(m) - Unused(TypeCode(m.body))
  }

  function OrderThen(o: NewOrder, tail: seq<byte>): seq<byte> {
    Put64(o.id) + ([o.side] + (Put32(o.shares) + (o.symbol + (Put32(o.price) + tail))))
  }

  function ExecutionThen(e: Execution, tail: seq<byte>): seq<byte> {
    Put64(e.id) + (Put32(e.shares) + (Put64(e.matchNo) + tail))
  }

  /** The type-specific fields followed by whatever comes after them. */
  function FieldsThen(b: Body, tail: seq<byte>): seq<byte> {
    match b
    case SystemEvent(event) => [event] + tail
    case StockDirectory(symbol, category, status, lot) => symbol + ([category] + ([status] + (Put32(lot) + tail)))
    case AddOrder(o) => OrderThen(o, tail)
    case AddOrderMpid(o, mpid) => OrderThen(o, mpid + tail)
    case Executed(e) => ExecutionThen(e, tail)
    case ExecutedWithPrice(e, printable, price) => ExecutionThen(e, [printable] + (Put32(price) + tail))
    case Cancel(id, shares) => Put64(id) + (Put32(shares) + tail)
    case Delete(id) => Put64(id) + tail
    case Replace(id, newId, shares, price) => Put64(id) + (Put64(newId) + (Put32(shares) + (Put32(price) + tail)))
    case Trade(o, matchNo) => OrderThen(o, Put64(matchNo) + tail)
  }

  /** Locate, tracking number and 48-bit timestamp, followed by the rest of the body. */
  function HeaderThen(m: Message, rest: seq<byte>): seq<byte> {
    Put16(m.loc) + (Put16(m.track) + (Put48(m.ts) + rest))
  }

  /** The frame of m followed by tail. */
  function FrameThen(m: Message, tail: seq<byte>): seq<byte> {
    var t := TypeCode(m.body);
    Put16(WireSize(t)) + ([t] + HeaderThen(m, FieldsThen(m.body, tail)))
  }

  /** What encode_frame leaves in a buffer, and its return value. */
  function EncodeInto(m: Message, out: seq<byte>): (seq<byte>, nat) {
    if |out| < FramedSize(m) then (out, 0) else (FrameThen(m, out[Written(m)..]), FramedSize(m))
  }

  // ---- Decoding -----------------------------------------------------------

  function ParseOrder(p: seq<byte>): NewOrder
    requires |p| >= 25
  {
    var p1 := p[8..];
    var p2 := p1[1..];
    var p3 := p2[4..];
    var p4 := p3[8..];
    NewOrder(Take64(p[..8]), p1[0], Take32(p2[..4]), p3[..8], Take32(p4[..4]))
  }

  function ParseExecution(p: seq<byte>): Execution
    requires |p| >= 20
  {
    var p1 := p[8..];
    Execution(Take64(p[..8]), Take32(p1[..4]), Take64(p1[4..][..8]))
  }

  /** Read the type-specific fields at the cursor p. */
  function ParseFields(t: byte, p: seq<byte>): Body
    requires WireSize(t) > 0 && |p| >= FieldSize(t)
  {
    if t == S then SystemEvent(p[0])
    else if t == R then
      var q := p[8..];
      var r := q[1..];
      StockDirectory(p[..8], q[0], r[0], Take32(r[1..][..4]))
    else if t == A then AddOrder(ParseOrder(p))
    else if t == F then AddOrderMpid(ParseOrder(p), p[25..][..4])
    else if t == E then Executed(ParseExecution(p))
    else if t == C then
      var q := p[20..];
      ExecutedWithPrice(ParseExecution(p), q[0], Take32(q[1..][..4]))
    else if t == X then Cancel(Take64(p[..8]), Take32(p[8..][..4]))
    else if t == D then Delete(Take64(p[..8]))
    else if t == U then
      var q := p[8..];
      var r := q[8..];
      Replace(Take64(p[..8]), Take64(q[..8]), Take32(r[..4]), Take32(r[4..][..4]))
    else Trade(ParseOrder(p), Take64(p[25..][..8]))
  }

  /** Read the common header, then the rest. */
  function ParseBody(t: byte, p: seq<byte>): Message
    requires WireSize(t) > 0 && |p| >= 10 + FieldSize(t)
  {
    var p1 := p[2..];
    var p2 := p1[2..];
    Message(Take16(p[..2]), Take16(p1[..2]), Take48(p2[..6]), ParseFields(t, p2[6..]))
  }

  /** decode_frame. It always makes progress unless the buffer is short, and never reads past the frame. */
  function Decode(bytes: seq<byte>): (r: ParseResult)
    ensures r.consumed == 0 <==> r.status == ShortBuffer
    ensures r.consumed != 0 ==> 2 <= r.consumed <= |bytes|
    ensures r.message.Some? <==> r.status == Ok
  {
    if |bytes| < 2 then ParseResult(ShortBuffer, 0, None)
    else
      var length := Take16(bytes[..2]);
      if |bytes| < 2 + length then ParseResult(ShortBuffer, 0, None)
      else if length < 1 then ParseResult(LengthMismatch, 2 + length, None)
      else
        var body := bytes[2..];
        if WireSize(body[0]) == 0 then ParseResult(UnknownType, 2 + length, None)
        else if length != WireSize(body[0]) then ParseResult(LengthMismatch, 2 + length, None)
        else ParseResult(Ok, 2 + length, Some(ParseBody(body[0], body[1..])))
  }

  // ---- Round trip ---------------------------------------------------------

  /** The wire carries 48 bits of the timestamp. */
  function OnWire(m: Message): Message {
    m.(ts := m.ts % TWO48)
  }

  lemma OnWireFixed(m: Message)
    ensures OnWire(m) == m <==> m.ts < TWO48
  {
    assert OnWire(m).ts == m.ts % TWO48;
  }

  lemma OrderRoundTrip(o: NewOrder, tail: seq<byte>)
    ensures |OrderThen(o, tail)| == 25 + |tail| && ParseOrder(OrderThen(o, tail)) == o
    ensures OrderThen(o, tail)[25..] == tail
  {
    Back64(o.id);
    Back32(o.shares);
    Back32(o.price);
    var p4 := Put32(o.price) + tail;
    var p3 := o.symbol + p4;
    var p2 := Put32(o.shares) + p3;
    var p1 := [o.side] + p2;
    var p := Put64(o.id) + p1;
    assert p[8..] == p1 && p1[1..] == p2 && p2[4..] == p3 && p3[8..] == p4 && p4[4..] == tail;
  }

  lemma ExecutionRoundTrip(e: Execution, tail: seq<byte>)
    ensures |ExecutionThen(e, tail)| == 20 + |tail| && ParseExecution(ExecutionThen(e, tail)) == e
    ensures ExecutionThen(e, tail)[20..] == tail
  {
    Back64(e.id);
    Back32(e.shares);
    Back64(e.matchNo);
    var p2 := Put64(e.matchNo) + tail;
    var p1 := Put32(e.shares) + p2;
    var p := Put64(e.id) + p1;
    assert p[8..] == p1 && p1[4..] == p2 && p2[8..] == tail;
  }

  lemma FieldsRoundTrip(b: Body, tail: seq<byte>)
    ensures |FieldsThen(b, tail)| == FieldSize(TypeCode(b)) + |tail|
    ensures ParseFields(TypeCode(b), FieldsThen(b, tail)) == b
  {
    match b
    case SystemEvent(event) =>
    case StockDirectory(symbol, category, status, lot) => Back32(lot);
    case AddOrder(o) => OrderRoundTrip(o, tail);
    case AddOrderMpid(o, mpid) => OrderRoundTrip(o, mpid + tail);
    case Executed(e) => ExecutionRoundTrip(e, tail);
    case ExecutedWithPrice(e, printable, price) =>
      ExecutionRoundTrip(e, [printable] + (Put32(price) + tail));
      Back32(price);
    case Cancel(id, shares) =>
      Back64(id);
      Back32(shares);
    case Delete(id) => Back64(id);
    case Replace(id, newId, shares, price) =>
      Back64(id);
      Back64(newId);
      Back32(shares);
      Back32(price);
    case Trade(o, matchNo) =>
      OrderRoundTrip(o, Put64(matchNo) + tail);
      Back64(matchNo);
  }

  lemma FrameLength(m: Message, tail: seq<byte>)
    ensures |FrameThen(m, tail)| == Written(m) + |tail|
  {
    FieldsRoundTrip(m.body, tail);
  }

  lemma HeaderRoundTrip(m: Message, tail: seq<byte>)
    ensures var p := HeaderThen(m, FieldsThen(m.body, tail));
            |p| == 10 + FieldSize(TypeCode(m.body)) + |tail| && ParseBody(TypeCode(m.body), p) == OnWire(m)
  {
    var rest := FieldsThen(m.body, tail);
    FieldsRoundTrip(m.body, tail);
    Back16(m.loc);
    Back16(m.track);
    Back48(m.ts);
    var p2 := Put48(m.ts) + rest;
    var p1 := Put16(m.track) + p2;
    var p := Put16(m.loc) + p1;
    assert p[2..] == p1 && p1[2..] == p2 && p2[6..] == rest;
  }

  /** Decoding what the encoder wrote gives the message back, with its timestamp cut to 48 bits, whatever
      follows the frame in the buffer. */
  lemma DecodeFrameThen(m: Message, tail: seq<byte>)
    requires |tail| >= Unused(TypeCode(m.body))
    ensures Decode(FrameThen(m, tail)) == ParseResult(Ok, FramedSize(m), Some(OnWire(m)))
  {
    var t := TypeCode(m.body);
    var p := HeaderThen(m, FieldsThen(m.body, tail));
    HeaderRoundTrip(m, tail);
    FrameLength(m, tail);
    Back16(WireSize(t));
    assert FrameThen(m, tail)[2..] == [t] + p;
    assert ([t] + p)[1..] == p;
  }

  /** The message itself comes back exactly when its timestamp fits the 48 bits the wire has for it. */
  lemma ExactRoundTrip(m: Message, out: seq<byte>)
    requires |out| >= FramedSize(m)
    ensures EncodeInto(m, out).1 == FramedSize(m) && |EncodeInto(m, out).0| == |out|
    ensures Decode(EncodeInto(m, out).0).message == Some(m) <==> m.ts < TWO48
  {
    DecodeFrameThen(m, out[Written(m)..]);
    FrameLength(m, out[Written(m)..]);
    OnWireFixed(m);
  }

  // ---- Streams of frames --------------------------------------------------

  lemma OrderAppend(o: NewOrder, tail: seq<byte>, more: seq<byte>)
    ensures OrderThen(o, tail) + more == OrderThen(o, tail + more)
  {
    var p4 := Put32(o.price) + tail;
    var p3 := o.symbol + p4;
    var p2 := Put32(o.shares) + p3;
    var p1 := [o.side] + p2;
    assert p4 + more == Put32(o.price) + (tail + more);
    assert p3 + more == o.symbol + (p4 + more);
    assert p2 + more == Put32(o.shares) + (p3 + more);
    assert p1 + more == [o.side] + (p2 + more);
  }

  lemma ExecutionAppend(e: Execution, tail: seq<byte>, more: seq<byte>)
    ensures ExecutionThen(e, tail) + more == ExecutionThen(e, tail + more)
  {
    var p2 := Put64(e.matchNo) + tail;
    var p1 := Put32(e.shares) + p2;
    assert p2 + more == Put64(e.matchNo) + (tail + more);
    assert p1 + more == Put32(e.shares) + (p2 + more);
  }

  lemma Assoc(a: seq<byte>, b: seq<byte>, c: seq<byte>)
    ensures (a + b) + c == a + (b + c)
  {
  }

  lemma FieldsAppend(b: Body, tail: seq<byte>, more: seq<byte>)
    ensures FieldsThen(b, tail) + more == FieldsThen(b, tail + more)
  {
    match b
    case SystemEvent(event) => Assoc([event], tail, more);
    case StockDirectory(symbol, category, status, lot) =>
      var p2 := Put32(lot) + tail;
      var p1 := [status] + p2;
      Assoc(Put32(lot), tail, more);
      Assoc([status], p2, more);
      Assoc([category], p1, more);
      Assoc(symbol, [category] + p1, more);
    case AddOrder(o) => OrderAppend(o, tail, more);
    case AddOrderMpid(o, mpid) =>
      OrderAppend(o, mpid + tail, more);
      Assoc(mpid, tail, more);
    case Executed(e) => ExecutionAppend(e, tail, more);
    case ExecutedWithPrice(e, printable, price) =>
      ExecutionAppend(e, [printable] + (Put32(price) + tail), more);
      Assoc(Put32(price), tail, more);
      Assoc([printable], Put32(price) + tail, more);
    case Cancel(id, shares) =>
      Assoc(Put32(shares), tail, more);
      Assoc(Put64(id), Put32(shares) + tail, more);
    case Delete(id) => Assoc(Put64(id), tail, more);
    case Replace(id, newId, shares, price) =>
      var p2 := Put32(price) + tail;
      var p1 := Put32(shares) + p2;
      Assoc(Put32(price), tail, more);
      Assoc(Put32(shares), p2, more);
      Assoc(Put64(newId), p1, more);
      Assoc(Put64(id), Put64(newId) + p1, more);
    case Trade(o, matchNo) =>
      OrderAppend(o, Put64(matchNo) + tail, more);
      Assoc(Put64(matchNo), tail, more);
  }

  lemma FrameAppend(m: Message, tail: seq<byte>, more: seq<byte>)
    ensures FrameThen(m, tail) + more == FrameThen(m, tail + more)
  {
    var rest := FieldsThen(m.body, tail);
    FieldsAppend(m.body, tail, more);
    var p2 := Put48(m.ts) + rest;
    var p1 := Put16(m.track) + p2;
    var t := TypeCode(m.body);
    Assoc(Put48(m.ts), rest, more);
    Assoc(Put16(m.track), p2, more);
    Assoc(Put16(m.loc), p1, more);
    Assoc([t], HeaderThen(m, rest), more);
    Assoc(Put16(WireSize(t)), [t] + HeaderThen(m, rest), more);
  }

  /** One message encoded into a zeroed buffer of its framed size. */
  function Frame(m: Message): seq<byte> {
    FrameThen(m, seq(Unused(TypeCode(m.body)), i => 0))
  }

  /** The frames of a list of messages, back to back. */
  function Stream(ms: seq<Message>): seq<byte> {
    if ms == [] then [] else Frame(ms[0]) + Stream(ms[1..])
  }

  function Got(r: ParseResult): seq<Message> {
    if r.message.Some? then [r.message.value] else []
  }

  /** Decode by consumed until the buffer is short, keeping the messages that parse. */
  function DecodeAll(bytes: seq<byte>): seq<Message> {
    var r := Decode(bytes);
    if r.consumed == 0 then []
    else Got(r) + DecodeAll(bytes[r.consumed..])
  }

  function OnWireAll(ms: seq<Message>): (r: seq<Message>)
    ensures |r| == |ms| && forall i :: 0 <= i < |ms| ==> r[i] == OnWire(ms[i])
  {
    if ms == [] then [] else [OnWire(ms[0])] + OnWireAll(ms[1..])
  }

  lemma {:induction false} StreamDecodes(ms: seq<Message>)
    ensures DecodeAll(Stream(ms)) == OnWireAll(ms)
  {
    if ms != [] {
      var m, rest := ms[0], Stream(ms[1..]);
      var pad := seq(Unused(TypeCode(m.body)), i => 0);
      FrameAppend(m, pad, rest);
      DecodeFrameThen(m, pad + rest);
      FrameLength(m, pad);
      assert Stream(ms)[FramedSize(m)..] == rest;
      StreamDecodes(ms[1..]);
    }
  }

  lemma OnWireAllFixed(ms: seq<Message>)
    ensures OnWireAll(ms) == ms <==> forall i :: 0 <= i < |ms| ==> ms[i].ts < TWO48
  {
    forall i | 0 <= i < |ms|
      ensures OnWireAll(ms)[i] == ms[i] <==> ms[i].ts < TWO48
    {
      OnWireFixed(ms[i]);
    }
  }

  /** A stream of frames decodes to exactly the messages it was made from, if and only if every timestamp fits
      48 bits. */
  lemma StreamRoundTrip(ms: seq<Message>)
    ensures DecodeAll(Stream(ms)) == ms <==> forall i :: 0 <= i < |ms| ==> ms[i].ts < TWO48
  {
    StreamDecodes(ms);
    OnWireAllFixed(ms);
  }

  lemma Regroup(a: seq<Message>, b: seq<Message>, c: seq<Message>)
    ensures (a + b) + c == a + (b + c) && a + [] == a
  {
  }

  /** One round of the decode loop. */
  method NextFrame(bytes: seq<byte>, off: nat, ms: seq<Message>) returns (ms': seq<Message>, off': nat)
    requires off <= |bytes|
    ensures off <= off' <= |bytes|
    ensures off' == off ==> Decode(bytes[off..]).status == ShortBuffer && ms' == ms == ms + DecodeAll(bytes[off..])
    ensures ms' + DecodeAll(bytes[off'..]) == ms + DecodeAll(bytes[off..])
  {
    var r := Decode(bytes[off..]);
    off' := off + r.consumed;
    ms' := ms + Got(r);
    Regroup(ms, Got(r), DecodeAll(bytes[off'..]));
    DropDrop(bytes, off, r.consumed);
  }

  lemma DropDrop(bytes: seq<byte>, i: nat, j: nat)
    requires i + j <= |bytes|
    ensures bytes[i..][j..] == bytes[i + j..]
  {
  }

  /** The decode loop over an arbitrary buffer: it terminates, and collects what DecodeAll says. */
  method Drain(bytes: seq<byte>) returns (ms: seq<Message>, off: nat)
    ensures off <= |bytes| && Decode(bytes[off..]).status == ShortBuffer
    ensures ms == DecodeAll(bytes)
  {
    ms, off := [], 0;
    assert bytes[0..] == bytes;
    while true
      invariant off <= |bytes|
      invariant ms + DecodeAll(bytes[off..]) == DecodeAll(bytes)
      decreases |bytes| - off
    {
      var before := off;
      ms, off := NextFrame(bytes, off, ms);
      if off == before {
        break;
      }
    }
  }

  // ---- Canonicity ---------------------------------------------------------

  lemma OrderCanonical(p: seq<byte>)
    requires |p| >= 25
    ensures OrderThen(ParseOrder(p), p[25..]) == p
  {
    var p1 := p[8..];
    var p2 := p1[1..];
    var p3 := p2[4..];
    var p4 := p3[8..];
    Cut64(p);
    CutByte(p1);
    Cut32(p2);
    Cut(p3, 8);
    Cut32(p4);
    assert p4[4..] == p[25..];
  }

  lemma ExecutionCanonical(p: seq<byte>)
    requires |p| >= 20
    ensures ExecutionThen(ParseExecution(p), p[20..]) == p
  {
    var p1 := p[8..];
    var p2 := p1[4..];
    Cut64(p);
    Cut32(p1);
    Cut64(p2);
    assert p2[8..] == p[20..];
  }

  lemma DirectoryCanonical(p: seq<byte>)
    requires |p| >= 14
    ensures FieldsThen(ParseFields(R, p), p[14..]) == p
  {
    var q := p[8..];
    var r := q[1..];
    Cut(p, 8);
    CutByte(q);
    CutByte(r);
    Cut32(r[1..]);
    assert r[1..][4..] == p[14..];
  }

  lemma ReplaceCanonical(p: seq<byte>)
    requires |p| >= 24
    ensures FieldsThen(ParseFields(U, p), p[24..]) == p
  {
    var q := p[8..];
    var r := q[8..];
    Cut64(p);
    Cut64(q);
    Cut32(r);
    Cut32(r[4..]);
    assert r[4..][4..] == p[24..];
  }

  lemma MpidCanonical(p: seq<byte>)
    requires |p| >= 29
    ensures FieldsThen(ParseFields(F, p), p[29..]) == p
  {
    OrderCanonical(p);
    Cut(p[25..], 4);
    assert p[25..][4..] == p[29..];
  }

  lemma PricedCanonical(p: seq<byte>)
    requires |p| >= 25
    ensures FieldsThen(ParseFields(C, p), p[25..]) == p
  {
    var q := p[20..];
    ExecutionCanonical(p);
    CutByte(q);
    Cut32(q[1..]);
    assert q[1..][4..] == p[25..];
  }

  lemma CancelCanonical(p: seq<byte>)
    requires |p| >= 12
    ensures FieldsThen(ParseFields(X, p), p[12..]) == p
  {
    Cut64(p);
    Cut32(p[8..]);
    assert p[8..][4..] == p[12..];
  }

  lemma TradeCanonical(p: seq<byte>)
    requires |p| >= 33
    ensures FieldsThen(ParseFields(P, p), p[33..]) == p
  {
    OrderCanonical(p);
    Cut64(p[25..]);
    assert p[25..][8..] == p[33..];
  }

  lemma FieldsCanonical(t: byte, p: seq<byte>)
    requires WireSize(t) > 0 && |p| >= FieldSize(t)
    ensures TypeCode(ParseFields(t, p)) == t
    ensures FieldsThen(ParseFields(t, p), p[FieldSize(t)..]) == p
  {
    if t == S {
      CutByte(p);
    } else if t == R {
      DirectoryCanonical(p);
    } else if t == A {
      OrderCanonical(p);
    } else if t == F {
      MpidCanonical(p);
    } else if t == E {
      ExecutionCanonical(p);
    } else if t == C {
      PricedCanonical(p);
    } else if t == X {
      CancelCanonical(p);
    } else if t == D {
      Cut64(p);
    } else if t == U {
      ReplaceCanonical(p);
    } else {
      TradeCanonical(p);
    }
  }

  lemma FrontCanonical(bytes: seq<byte>, n: nat)
    requires |bytes| >= 3 + n
    ensures var body := bytes[2..];
            bytes == Put16(Take16(bytes[..2])) + ([body[0]] + body[1..]) && body[1..][n..] == bytes[3 + n..]
  {
    Cut16(bytes);
    CutByte(bytes[2..]);
  }

  /** Whatever decodes is what the encoder would have written: every byte it stores, which is the whole frame
      except for the 14 unused bytes of a Stock Directory. */
  lemma DecodeCanonical(bytes: seq<byte>)
    requires Decode(bytes).status == Ok
    ensures var r := Decode(bytes);
            var m := r.message.value;
            r.consumed == FramedSize(m) && bytes == FrameThen(m, bytes[Written(m)..])
  {
    var body := bytes[2..];
    HeaderCanonical(body[0], body[1..]);
    FrontCanonical(bytes, 10 + FieldSize(body[0]));
  }

  lemma HeaderCanonical(t: byte, p: seq<byte>)
    requires WireSize(t) > 0 && |p| >= 10 + FieldSize(t)
    ensures var m := ParseBody(t, p);
            TypeCode(m.body) == t && HeaderThen(m, FieldsThen(m.body, p[10 + FieldSize(t)..])) == p
  {
    var p1 := p[2..];
    var p2 := p1[2..];
    FieldsCanonical(t, p2[6..]);
    assert p2[6..][FieldSize(t)..] == p[10 + FieldSize(t)..];
    Cut16(p);
    Cut16(p1);
    Cut48(p2);
  }

  /** Re-encoding a decoded message into any buffer reproduces those bytes and leaves the rest alone. */
  lemma ReencodeReproduces(bytes: seq<byte>, m: Message, out: seq<byte>)
    requires Decode(bytes).message == Some(m) && |out| >= Decode(bytes).consumed
    ensures FramedSize(m) == Decode(bytes).consumed
    ensures Written(m) == if m.body.StockDirectory? then 27 else Decode(bytes).consumed
    ensures EncodeInto(m, out) == (bytes[..Written(m)] + out[Written(m)..], Decode(bytes).consumed)
  {
    var w := Written(m);
    DecodeCanonical(bytes);
    FrameSplit(m, bytes[w..]);
    FrameSplit(m, out[w..]);
  }

  lemma FrameSplit(m: Message, tail: seq<byte>)
    ensures FrameThen(m, tail) == FrameThen(m, []) + tail && |FrameThen(m, [])| == Written(m)
  {
    FrameLength(m, []);
    EmptyFront(tail);
    FrameAppendTo(m, [], tail, tail);
  }

  lemma EmptyFront(tail: seq<byte>)
    ensures [] + tail == tail
  {
  }

  lemma FrameAppendTo(m: Message, tail: seq<byte>, more: seq<byte>, all: seq<byte>)
    requires all == tail + more
    ensures FrameThen(m, all) == FrameThen(m, tail) + more
  {
    FrameAppend(m, tail, more);
  }

  /** Store bytes at the front of a buffer. */
  method Store(out: array<byte>, bytes: seq<byte>)
    requires |bytes| <= out.Length
    modifies out
    ensures out[..] == bytes + old(out[..])[|bytes|..]
  {
    ghost var was := out[..];
    for i := 0 to |bytes|
      invariant forall j :: 0 <= j < out.Length ==> out[j] == if j < i then bytes[j] else was[j]
    {
      out[i] := bytes[i];
    }
  }

  /** encode_frame stores the frame at the front of the caller's buffer, or nothing when it does not fit. */
  method EncodeFrame(m: Message, out: array<byte>) returns (n: nat)
    modifies out
    ensures (out[..], n) == EncodeInto(m, old(out[..]))
  {
    if out.Length < FramedSize(m) {
      return 0;
    }
    FrameSplit(m, out[..][Written(m)..]);
    Store(out, FrameThen(m, []));
    n := FramedSize(m);
  }
}
