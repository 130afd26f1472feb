/** The ITCH frame format in bytes and offsets: [u16 length][type][u16 locate][u16 tracking][u48 time], then the fields
    of the type. What the decoder accepts and what the encoder writes are exactly the frames of this table. */
module ItchLayout {
  import opened Bytes
  import opened Itch
  import opened Parser

  /** A complete frame of a type, at the front of b: n bytes behind the length. */
  predicate Framed(b: seq<byte>, n: byte, t: byte) {
    |b| >= 2 + n && |b| >= 3 && b[0] == 0 && b[1] == n && b[2] == t
  }

  predicate Header(b: seq<byte>, m: Message)
    requires |b| >= 13
  {
    m.loc == Take16(b[3..5]) && m.track == Take16(b[5..7]) && m.ts == Take48(b[7..13])
  }

  predicate OrderAt(b: seq<byte>, o: NewOrder)
    requires |b| >= 38
  {
    && o.id == Take64(b[13..21]) && o.side == b[21] && o.shares == Take32(b[22..26])
    && o.symbol == b[26..34] && o.price == Take32(b[34..38])
  }

  predicate ExecutionAt(b: seq<byte>, e: Execution)
    requires |b| >= 33
  {
    e.id == Take64(b[13..21]) && e.shares == Take32(b[21..25]) && e.matchNo == Take64(b[25..33])
  }

  /** b begins with the frame of m. */
  predicate Spells(b: seq<byte>, m: Message) {
    match m.body
    case SystemEvent(event) => Framed(b, 12, 0x53) && Header(b, m) && event == b[13]
    case StockDirectory(symbol, category, status, lot) =>
      && Framed(b, 39, 0x52) && Header(b, m) && symbol == b[13..21] && category == b[21] && status == b[22]
      && lot == Take32(b[23..27])
    case AddOrder(o) => Framed(b, 36, 0x41) && Header(b, m) && OrderAt(b, o)
    case AddOrderMpid(o, mpid) => Framed(b, 40, 0x46) && Header(b, m) && OrderAt(b, o) && mpid == b[38..42]
    case Executed(e) => Framed(b, 31, 0x45) && Header(b, m) && ExecutionAt(b, e)
    case ExecutedWithPrice(e, printable, price) =>
      && Framed(b, 36, 0x43) && Header(b, m) && ExecutionAt(b, e) && printable == b[33]
      && price == Take32(b[34..38])
    case Cancel(id, shares) =>
      Framed(b, 23, 0x58) && Header(b, m) && id == Take64(b[13..21]) && shares == Take32(b[21..25])
    case Delete(id) => Framed(b, 19, 0x44) && Header(b, m) && id == Take64(b[13..21])
    case Replace(id, newId, shares, price) =>
      && Framed(b, 35, 0x55) && Header(b, m) && id == Take64(b[13..21]) && newId == Take64(b[21..29])
      && shares == Take32(b[29..33]) && price == Take32(b[33..37])
    case Trade(o, matchNo) => Framed(b, 44, 0x50) && Header(b, m) && OrderAt(b, o) && matchNo == Take64(b[38..46])
  }

  /** The ten types and their lengths. */
  predicate Listed(n: nat, t: byte) {
    || (t == 0x53 && n == 12) || (t == 0x52 && n == 39) || (t == 0x41 && n == 36) || (t == 0x46 && n == 40)
    || (t == 0x45 && n == 31) || (t == 0x43 && n == 36) || (t == 0x58 && n == 23) || (t == 0x44 && n == 19)
    || (t == 0x55 && n == 35) || (t == 0x50 && n == 44)
  }

  predicate Known(t: byte) {
    || t == 0x53 || t == 0x52 || t == 0x41 || t == 0x46 || t == 0x45 || t == 0x43 || t == 0x58 || t == 0x44
    || t == 0x55 || t == 0x50
  }

  function Announced(b: seq<byte>): nat
    requires |b| >= 2
  {
    Big16(b[0], b[1])
  }

  /** What the decoder reports for any buffer: wait for more, skip, or a message; and how far to move on. */
  lemma StatusExact(b: seq<byte>)
    ensures var r := Decode(b);
            if |b| < 2 || |b| < 2 + Announced(b) then r.status == ShortBuffer && r.consumed == 0
            else
              var n := Announced(b);
              && r.consumed == 2 + n
              && (r.status == Ok <==> n > 0 && Listed(n, b[2]))
              && (r.status == UnknownType <==> n > 0 && !Known(b[2]))
              && (r.status == LengthMismatch <==> n == 0 || (Known(b[2]) && !Listed(n, b[2])))
  {
    if |b| >= 2 {
      BigEndian16(b[..2]);
    }
  }

  // ---- The decoder reads this table ---------------------------------------

  /** A field read at a cursor, and the cursor behind it. */
  lemma Cursor(b: seq<byte>, k: nat, n: nat)
    requires k + n <= |b|
    ensures b[k..][..n] == b[k..k + n] && b[k..][n..] == b[k + n..]
  {
  }

  lemma HeaderFields(b: seq<byte>, t: byte)
    requires WireSize(t) > 0 && |b| >= 13 + FieldSize(t)
    ensures var m := ParseBody(t, b[3..]);
            Header(b, m) && m.body == ParseFields(t, b[13..])
  {
    Cursor(b, 3, 2);
    Cursor(b, 5, 2);
    Cursor(b, 7, 6);
  }

  lemma OrderFields(b: seq<byte>)
    requires |b| >= 38
    ensures OrderAt(b, ParseOrder(b[13..]))
  {
    Cursor(b, 13, 8);
    Cursor(b, 21, 1);
    Cursor(b, 22, 4);
    Cursor(b, 26, 8);
    Cursor(b, 34, 4);
  }

  lemma ExecutionFields(b: seq<byte>)
    requires |b| >= 33
    ensures ExecutionAt(b, ParseExecution(b[13..]))
  {
    Cursor(b, 13, 8);
    Cursor(b, 21, 4);
    Cursor(b, 25, 8);
  }

  lemma SpellsOrders(b: seq<byte>, m: Message, t: byte)
    requires t == A || t == F || t == P
    requires Framed(b, WireSize(t), t) && Header(b, m) && m.body == ParseFields(t, b[13..])
    ensures Spells(b, m)
  {
    OrderFields(b);
    if t != A {
      Cursor(b, 13, 25);
      Cursor(b, 38, if t == F then 4 else 8);
    }
  }

  lemma SpellsExecutions(b: seq<byte>, m: Message, t: byte)
    requires t == E || t == C
    requires Framed(b, WireSize(t), t) && Header(b, m) && m.body == ParseFields(t, b[13..])
    ensures Spells(b, m)
  {
    ExecutionFields(b);
    if t == C {
      Cursor(b, 13, 20);
      Cursor(b, 33, 1);
      Cursor(b, 34, 4);
    }
  }

  lemma SpellsIds(b: seq<byte>, m: Message, t: byte)
    requires t == X || t == D || t == U
    requires Framed(b, WireSize(t), t) && Header(b, m) && m.body == ParseFields(t, b[13..])
    ensures Spells(b, m)
  {
    Cursor(b, 13, 8);
    if t == X {
      Cursor(b, 21, 4);
    } else if t == U {
      Cursor(b, 21, 8);
      Cursor(b, 29, 4);
      Cursor(b, 33, 4);
    }
  }

  lemma SpellsNotices(b: seq<byte>, m: Message, t: byte)
    requires t == S || t == R
    requires Framed(b, WireSize(t), t) && Header(b, m) && m.body == ParseFields(t, b[13..])
    ensures Spells(b, m)
  {
    if t == R {
      Cursor(b, 13, 8);
      Cursor(b, 21, 1);
      Cursor(b, 22, 1);
      Cursor(b, 23, 4);
    }
  }

  lemma DecodedParts(b: seq<byte>)
    requires Decode(b).status == Ok
    ensures |b| >= 3 && WireSize(b[2]) > 0 && Framed(b, WireSize(b[2]), b[2])
    ensures |b| >= 13 + FieldSize(b[2]) && Decode(b).message == Some(ParseBody(b[2], b[3..]))
  {
    BigEndian16(b[..2]);
    StatusExact(b);
    Cursor(b, 2, 1);
  }

  /** Whatever decodes is spelled out by the bytes. */
  lemma DecodeSpells(b: seq<byte>)
    requires Decode(b).status == Ok
    ensures Spells(b, Decode(b).message.value)
  {
    DecodedParts(b);
    var t, m := b[2], ParseBody(b[2], b[3..]);
    HeaderFields(b, t);
    if t == A || t == F || t == P {
      SpellsOrders(b, m, t);
    } else if t == E || t == C {
      SpellsExecutions(b, m, t);
    } else if t == X || t == D || t == U {
      SpellsIds(b, m, t);
    } else {
      SpellsNotices(b, m, t);
    }
  }

  /** Bytes spell at most one message. */
  lemma SpellsOne(b: seq<byte>, m: Message, m': Message)
    requires Spells(b, m) && Spells(b, m')
    ensures m == m'
  {
  }

  lemma SpellsListed(b: seq<byte>, m: Message)
    requires Spells(b, m)
    ensures |b| >= 3 && Announced(b) > 0 && |b| >= 2 + Announced(b) && Listed(Announced(b), b[2])
  {
  }

  /** The decoder accepts exactly the frames of the table, and reads each as the table says. */
  lemma DecodeLayout(b: seq<byte>, m: Message)
    ensures Decode(b).message == Some(m) <==> Spells(b, m)
  {
    if Spells(b, m) {
      SpellsListed(b, m);
      StatusExact(b);
    }
    if Decode(b).status == Ok {
      DecodeSpells(b);
      if Spells(b, m) {
        SpellsOne(b, m, Decode(b).message.value);
      }
    }
  }

  /** The encoder writes the frame of the table, with the timestamp cut to 48 bits, and returns its length. */
  lemma EncodeLayout(m: Message, out: seq<byte>)
    requires |out| >= FramedSize(m)
    ensures Spells(EncodeInto(m, out).0, m.(ts := m.ts % 0x1_0000_0000_0000))
    ensures EncodeInto(m, out).1 == 2 + Announced(EncodeInto(m, out).0)
  {
    var b := EncodeInto(m, out).0;
    DecodeFrameThen(m, out[Written(m)..]);
    DecodeLayout(b, OnWire(m));
    SpellsListed(b, OnWire(m));
    StatusExact(b);
  }

  /** It leaves what lies behind the frame alone. */
  lemma EncodeKeeps(m: Message, out: seq<byte>)
    requires |out| >= FramedSize(m)
    ensures |EncodeInto(m, out).0| == |out| && EncodeInto(m, out).0[FramedSize(m)..] == out[FramedSize(m)..]
  {
    FrameLength(m, out[Written(m)..]);
    TailKept(m, out);
  }

  lemma TailKept(m: Message, out: seq<byte>)
    requires |out| >= FramedSize(m)
    ensures FrameThen(m, out[Written(m)..])[Written(m)..] == out[Written(m)..]
  {
    FrameAppend(m, [], out[Written(m)..]);
    FrameLength(m, []);
    assert [] + out[Written(m)..] == out[Written(m)..];
  }
}
