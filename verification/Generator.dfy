/** The message generator: every random draw is an arbitrary in-range input. */
module Generator {
  import opened Bytes
  import opened Itch
  import Parser

  const BASE_LOCATE: nat := 100

  /** Parallel vectors describe the orders the generator believes to be live. */
  datatype Gen = Gen(symbols: seq<Symbol>, ids: seq<nat>, prices: seq<Price>, qtys: seq<Quantity>, sides: seq<byte>,
                     locs: seq<u16>, nextId: nat, nextSeq: map<u16, u64>)

  function NewGen(symbols: seq<Symbol>): Gen {
    Gen(symbols, [], [], [], [], [], 1, map[])
  }

  /** One call's draws: symbol, action in 0..99, side, quantity, price, the order picked and the shares cut. */
  datatype Draw = Draw(sym: nat, action: nat, buy: bool, qty: Quantity, price: Price, pick: nat, cut: Quantity)

  ghost predicate Distinct(ids: seq<nat>) {
    forall i, j :: 0 <= i < j < |ids| ==> ids[i] != ids[j]
  }

  ghost predicate Ok(g: Gen) {
    && 1 <= |g.symbols| <= 10
    && |g.ids| == |g.prices| == |g.qtys| == |g.sides| == |g.locs|
    && Distinct(g.ids)
    && (forall i :: 0 <= i < |g.ids| ==> g.ids[i] < g.nextId && g.qtys[i] >= 1)
    && (forall i :: 0 <= i < |g.locs| ==> BASE_LOCATE <= g.locs[i] < BASE_LOCATE + |g.symbols|)
    && (forall l :: l in g.nextSeq ==> g.nextSeq[l] >= 2)
  }

  /** What the distributions can return in state g. */
  ghost predicate InRange(g: Gen, dr: Draw) {
    && dr.sym < |g.symbols| && dr.action < 100
    && 100 <= dr.qty <= 1000 && 100000 <= dr.price <= 200000
    && (g.ids != [] ==> dr.pick < |g.ids| == |g.qtys| && 1 <= dr.cut <= g.qtys[dr.pick])
  }

  /** Counters have room for one more call. */
  ghost predicate Room(g: Gen) {
    g.nextId + 2 <= TWO64 && forall l :: l in g.nextSeq ==> g.nextSeq[l] + 1 < TWO64
  }

  function Without<T>(s: seq<T>, i: nat): seq<T>
    requires i < |s|
  {
    s[..i] + s[i + 1..]
  }

  function Erase(g: Gen, i: nat): Gen
    requires i < |g.ids| == |g.prices| == |g.qtys| == |g.sides| == |g.locs|
  {
    g.(ids := Without(g.ids, i), prices := Without(g.prices, i), qtys := Without(g.qtys, i),
       sides := Without(g.sides, i), locs := Without(g.locs, i))
  }

  /** Take shares off a live order, dropping it when none are left. */
  function CutDown(g: Gen, i: nat, cut: Quantity): Gen
    requires i < |g.ids| == |g.prices| == |g.qtys| == |g.sides| == |g.locs|
  {
    if cut >= g.qtys[i] then Erase(g, i) else g.(qtys := g.qtys[i := g.qtys[i] - cut])
  }

  datatype Kind = KAdd | KCancel | KExecute | KDelete | KReplace

  function KindOf(g: Gen, dr: Draw): Kind {
    if g.ids == [] || dr.action < 50 then KAdd
    else if dr.action < 70 then KCancel
    else if dr.action < 85 then KExecute
    else if dr.action < 95 then KDelete
    else KReplace
  }

  function LocateFor(dr: Draw): u16
    requires dr.sym < 10
  {
    BASE_LOCATE + dr.sym
  }

  /** The message of one call. */
  ghost function MessageOf(g: Gen, dr: Draw): Message
    requires Ok(g) && InRange(g, dr) && Room(g)
  {
    match KindOf(g, dr)
    case KAdd =>
      Message(LocateFor(dr), 0, g.nextId,
              AddOrder(NewOrder(g.nextId, if dr.buy then BUY else SELL, dr.qty, g.symbols[dr.sym], dr.price)))
    case KCancel => Message(g.locs[dr.pick], 0, g.nextId, Cancel(g.ids[dr.pick], dr.cut))
    case KExecute => Message(g.locs[dr.pick], 0, g.nextId, Executed(Execution(g.ids[dr.pick], dr.cut, g.nextId + 1)))
    case KDelete => Message(g.locs[dr.pick], 0, g.nextId, Delete(g.ids[dr.pick]))
    case KReplace =>
      Message(g.locs[dr.pick], 0, g.nextId, Replace(g.ids[dr.pick], g.nextId + 1, dr.qty, dr.price))
  }

  /** The live vectors after one call. */
  ghost function Tracked(g: Gen, dr: Draw): Gen
    requires Ok(g) && InRange(g, dr)
  {
    match KindOf(g, dr)
    case KAdd =>
      g.(ids := g.ids + [g.nextId], prices := g.prices + [dr.price], qtys := g.qtys + [dr.qty],
         sides := g.sides + [if dr.buy then BUY else SELL], locs := g.locs + [LocateFor(dr)], nextId := g.nextId + 1)
    case KCancel => CutDown(g, dr.pick, dr.cut).(nextId := g.nextId + 1)
    case KExecute => CutDown(g, dr.pick, dr.cut).(nextId := g.nextId + 1)
    case KDelete => Erase(g, dr.pick).(nextId := g.nextId + 1)
    case KReplace =>
      g.(ids := g.ids[dr.pick := g.nextId + 1], prices := g.prices[dr.pick := dr.price],
         qtys := g.qtys[dr.pick := dr.qty], nextId := g.nextId + 2)
  }

  /** The transport number of the datagram: per locate, from 1. */
  function NumberFor(g: Gen, loc: u16): u64 {
    if loc in g.nextSeq then g.nextSeq[loc] else 1
  }

  ghost function After(g: Gen, dr: Draw): Gen
    requires Ok(g) && InRange(g, dr) && Room(g)
  {
    var loc := LocateFor(dr);
    Tracked(g, dr).(nextSeq := g.nextSeq[loc := NumberFor(g, loc) + 1])
  }

  function Payload(loc: u16, num: u64, m: Message): seq<byte> {
    Put16(loc) + (Put64(num) + Parser.Frame(m))
  }

  /** The datagram of one call. The header carries the drawn symbol's locate, whichever order was picked. */
  ghost function Emit(g: Gen, dr: Draw): seq<byte>
    requires Ok(g) && InRange(g, dr) && Room(g)
  {
    Payload(LocateFor(dr), NumberFor(g, LocateFor(dr)), MessageOf(g, dr))
  }

  function DirectoryMessage(symbols: seq<Symbol>, i: nat): Message
    requires i < |symbols| <= 10
  {
    Message(BASE_LOCATE + i, 0, 0, StockDirectory(symbols[i], 0x51, 0x4E, 100))
  }

  function Directories(symbols: seq<Symbol>, n: nat): seq<seq<byte>>
    requires n <= |symbols| <= 10
  {
    if n == 0 then []
    else Directories(symbols, n - 1) + [Payload(BASE_LOCATE + (n - 1), 0, DirectoryMessage(symbols, n - 1))]
  }

  lemma DistinctWithout(ids: seq<nat>, i: nat)
    requires Distinct(ids) && i < |ids|
    ensures Distinct(Without(ids, i)) && forall k :: k in Without(ids, i) <==> k in ids && k != ids[i]
  {
    var s := Without(ids, i);
    forall k | k in ids && k != ids[i]
      ensures k in s
    {
      var j :| 0 <= j < |ids| && ids[j] == k;
      assert s[if j < i then j else j - 1] == k;
    }
  }

  lemma EraseOk(g: Gen, i: nat, nextId: nat)
    requires Ok(g) && i < |g.ids| && nextId >= g.nextId
    ensures Ok(Erase(g, i).(nextId := nextId))
  {
    DistinctWithout(g.ids, i);
    var e := Erase(g, i);
    forall j | 0 <= j < |e.ids|
      ensures e.ids[j] < nextId && e.qtys[j] >= 1 && BASE_LOCATE <= e.locs[j] < BASE_LOCATE + |g.symbols|
    {
      var k := if j < i then j else j + 1;
      assert e.ids[j] == g.ids[k] && e.qtys[j] == g.qtys[k] && e.locs[j] == g.locs[k];
    }
  }

  lemma CutDownOk(g: Gen, i: nat, cut: Quantity, nextId: nat)
    requires Ok(g) && i < |g.ids| && nextId >= g.nextId
    ensures Ok(CutDown(g, i, cut).(nextId := nextId))
  {
    if cut >= g.qtys[i] {
      EraseOk(g, i, nextId);
    }
  }

  lemma AppendOk(g: Gen, price: Price, qty: Quantity, side: byte, loc: u16)
    requires Ok(g) && qty >= 1 && BASE_LOCATE <= loc < BASE_LOCATE + |g.symbols|
    ensures Ok(g.(ids := g.ids + [g.nextId], prices := g.prices + [price], qtys := g.qtys + [qty],
                  sides := g.sides + [side], locs := g.locs + [loc], nextId := g.nextId + 1))
  {
  }

  lemma SwapOk(g: Gen, i: nat, price: Price, qty: Quantity)
    requires Ok(g) && i < |g.ids| && qty >= 1
    ensures Ok(g.(ids := g.ids[i := g.nextId + 1], prices := g.prices[i := price], qtys := g.qtys[i := qty],
                  nextId := g.nextId + 2))
  {
  }

  lemma TrackedOk(g: Gen, dr: Draw)
    requires Ok(g) && InRange(g, dr)
    ensures Ok(Tracked(g, dr))
  {
    match KindOf(g, dr)
    case KAdd => AppendOk(g, dr.price, dr.qty, if dr.buy then BUY else SELL, LocateFor(dr));
    case KCancel => CutDownOk(g, dr.pick, dr.cut, g.nextId + 1);
    case KExecute => CutDownOk(g, dr.pick, dr.cut, g.nextId + 1);
    case KDelete => EraseOk(g, dr.pick, g.nextId + 1);
    case KReplace => SwapOk(g, dr.pick, dr.price, dr.qty);
  }

  /** The generator's own bookkeeping stays consistent. */
  lemma AfterOk(g: Gen, dr: Draw)
    requires Ok(g) && InRange(g, dr) && Room(g)
    ensures Ok(After(g, dr)) && After(g, dr).nextId <= g.nextId + 2 && After(g, dr).symbols == g.symbols
  {
    TrackedOk(g, dr);
  }

  lemma TrackedKeepsNumbers(g: Gen, dr: Draw)
    requires Ok(g) && InRange(g, dr)
    ensures Tracked(g, dr).nextSeq == g.nextSeq
  {
  }

  // ---- The code -----------------------------------------------------------

  lemma ZeroBufferFrame(m: Message, buffer: seq<byte>)
    requires |buffer| == Parser.FramedSize(m) && forall i :: 0 <= i < |buffer| ==> buffer[i] == 0
    ensures Parser.EncodeInto(m, buffer) == (Parser.Frame(m), Parser.FramedSize(m))
  {
    var w := Parser.Written(m);
    assert buffer[w..] == seq(Parser.Unused(Parser.TypeCode(m.body)), i => 0);
  }

  /** encode_frame into a zeroed buffer of the message's framed size. */
  method Encoded(m: Message) returns (frame: seq<byte>)
    ensures frame == Parser.Frame(m)
  {
    var buffer := new byte[Parser.FramedSize(m)](i => 0);
    ZeroBufferFrame(m, buffer[..]);
    var n := Parser.EncodeFrame(m, buffer);
    frame := buffer[..];
  }

  class MessageGenerator {
    const symbols: seq<Symbol>
    var liveOrders: seq<nat>
    var livePrices: seq<Price>
    var liveQtys: seq<Quantity>
    var liveSides: seq<byte>
    var liveLocs: seq<u16>
    var nextOrderId: nat
    var nextSeq: map<u16, u64>

    function View(): Gen
      reads this
    {
      Gen(symbols, liveOrders, livePrices, liveQtys, liveSides, liveLocs, nextOrderId, nextSeq)
    }

    constructor (symbols: seq<Symbol>)
      ensures View() == NewGen(symbols)
    {
      this.symbols := symbols;
      liveOrders, livePrices, liveQtys, liveSides, liveLocs := [], [], [], [], [];
      nextOrderId, nextSeq := 1, map[];
    }

    /** A stock directory message for every symbol, under sequence number 0. */
    method DirectoryMessages() returns (out: seq<seq<byte>>)
      requires |symbols| <= 10
      ensures out == Directories(symbols, |symbols|)
    {
      out := [];
      for i := 0 to |symbols|
        invariant out == Directories(symbols, i)
      {
        var frame := Encoded(DirectoryMessage(symbols, i));
        out := out + [Put16(BASE_LOCATE + i) + (Put64(0) + frame)];
      }
    }

    method EraseAt(i: nat)
      requires i < |liveOrders| == |livePrices| == |liveQtys| == |liveSides| == |liveLocs|
      modifies this
      ensures View() == Erase(old(View()), i)
    {
      liveOrders := liveOrders[..i] + liveOrders[i + 1..];
      livePrices := livePrices[..i] + livePrices[i + 1..];
      liveQtys := liveQtys[..i] + liveQtys[i + 1..];
      liveSides := liveSides[..i] + liveSides[i + 1..];
      liveLocs := liveLocs[..i] + liveLocs[i + 1..];
    }

    method TakeOff(i: nat, cut: Quantity)
      requires i < |liveOrders| == |livePrices| == |liveQtys| == |liveSides| == |liveLocs|
      modifies this
      ensures View() == CutDown(old(View()), i, cut)
    {
      if cut >= liveQtys[i] {
        EraseAt(i);
      } else {
        liveQtys := liveQtys[i := liveQtys[i] - cut];
      }
    }

    /** Choose an action, build its message and update the live vectors. */
    method Act(dr: Draw) returns (m: Message)
      requires Ok(View()) && InRange(View(), dr) && Room(View())
      modifies this
      ensures m == MessageOf(old(View()), dr) && View() == Tracked(old(View()), dr)
    {
      var stamp := nextOrderId;
      if liveOrders == [] || dr.action < 50 {
        var side := if dr.buy then BUY else SELL;
        nextOrderId := nextOrderId + 1;
        liveOrders := liveOrders + [stamp];
        livePrices := livePrices + [dr.price];
        liveQtys := liveQtys + [dr.qty];
        liveSides := liveSides + [side];
        liveLocs := liveLocs + [LocateFor(dr)];
        return Message(LocateFor(dr), 0, stamp, AddOrder(NewOrder(stamp, side, dr.qty, symbols[dr.sym], dr.price)));
      }
      var id, loc := liveOrders[dr.pick], liveLocs[dr.pick];
      nextOrderId := nextOrderId + 1;
      if dr.action < 70 {
        TakeOff(dr.pick, dr.cut);
        m := Message(loc, 0, stamp, Cancel(id, dr.cut));
      } else if dr.action < 85 {
        m := Message(loc, 0, stamp, Executed(Execution(id, dr.cut, nextOrderId)));
        TakeOff(dr.pick, dr.cut);
      } else if dr.action < 95 {
        EraseAt(dr.pick);
        m := Message(loc, 0, stamp, Delete(id));
      } else {
        var newId := nextOrderId;
        nextOrderId := nextOrderId + 1;
        liveOrders := liveOrders[dr.pick := newId];
        livePrices := livePrices[dr.pick := dr.price];
        liveQtys := liveQtys[dr.pick := dr.qty];
        m := Message(loc, 0, stamp, Replace(id, newId, dr.qty, dr.price));
      }
    }

    /** The locate's next transport number, counted from 1. */
    method TakeNumber(loc: u16) returns (num: u64)
      requires NumberFor(View(), loc) + 1 < TWO64
      modifies this`nextSeq
      ensures num == NumberFor(old(View()), loc)
      ensures View() == old(View()).(nextSeq := old(nextSeq)[loc := num + 1])
    {
      num := if loc in nextSeq then nextSeq[loc] else 1;
      nextSeq := nextSeq[loc := num + 1];
    }

    /** One transport-framed datagram. */
    method NextDatagram(dr: Draw) returns (out: seq<byte>, loc: u16, num: u64)
      requires Ok(View()) && InRange(View(), dr) && Room(View())
      modifies this
      ensures out == Emit(old(View()), dr) && View() == After(old(View()), dr)
      ensures loc == LocateFor(dr) && num == NumberFor(old(View()), loc)
    {
      ghost var g := View();
      var m := Act(dr);
      loc := LocateFor(dr);
      TrackedKeepsNumbers(g, dr);
      num := TakeNumber(loc);
      var frame := Encoded(m);
      out := Put16(loc) + (Put64(num) + frame);
    }
  }
}
