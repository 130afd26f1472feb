/** The generator's datagrams in bytes: what each draw puts on the wire, and how the hundred draws are shared out. */
module GeneratorWire {
  import opened Bytes
  import opened Itch
  import opened Generator
  import Parser
  import ItchLayout
  import Feed
  import EndToEnd

  /** The message of a draw: 0 to 49 add, 50 to 69 cancel, 70 to 84 execute, 85 to 94 delete, 95 to 99 replace. With
      nothing live every draw adds. */
  predicate Says(g: Gen, dr: Draw, b: Body)
    requires dr.sym < |g.symbols| && (g.ids != [] ==> dr.pick < |g.ids|) && g.nextId + 1 < TWO64
    requires forall i :: 0 <= i < |g.ids| ==> g.ids[i] < TWO64
  {
    if g.ids == [] || dr.action <= 49 then
      b == AddOrder(NewOrder(g.nextId, if dr.buy then 0x42 else 0x53, dr.qty, g.symbols[dr.sym], dr.price))
    else
      var id := g.ids[dr.pick];
      if dr.action <= 69 then b == Cancel(id, dr.cut)
      else if dr.action <= 84 then b == Executed(Execution(id, dr.cut, g.nextId + 1))
      else if dr.action <= 94 then b == Delete(id)
      else b == Replace(id, g.nextId + 1, dr.qty, dr.price)
  }

  lemma DrawSays(g: Gen, dr: Draw)
    requires Ok(g) && InRange(g, dr) && Room(g)
    ensures Says(g, dr, MessageOf(g, dr).body) && MessageOf(g, dr).ts == g.nextId && MessageOf(g, dr).track == 0
    ensures MessageOf(g, dr).loc == if g.ids == [] || dr.action <= 49 then 100 + dr.sym else g.locs[dr.pick]
  {
  }

  /** A payload is the locate, the number and the frame, in bytes 0 to 2, 2 to 10 and from 10 on. */
  lemma PayloadParts(loc: u16, num: u64, m: Message)
    ensures var data := Payload(loc, num, m);
            |data| >= 12 && Feed.LocateOf(data) == loc && Feed.NumberOf(data) == num && data[10..] == Parser.Frame(m)
  {
    var data, frame := Payload(loc, num, m), Parser.Frame(m);
    Back16(loc);
    Back64(num);
    Parser.FrameLength(m, seq(Parser.Unused(Parser.TypeCode(m.body)), i => 0));
    assert data[..2] == Put16(loc) && data[2..] == Put64(num) + frame && data[2..][8..] == frame;
  }

  lemma FrameSpells(m: Message)
    ensures ItchLayout.Spells(Parser.Frame(m), Parser.OnWire(m))
  {
    Parser.DecodeFrameThen(m, seq(Parser.Unused(Parser.TypeCode(m.body)), i => 0));
    ItchLayout.DecodeLayout(Parser.Frame(m), Parser.OnWire(m));
  }

  /** For every draw: the datagram carries the drawn symbol's locate, 100 on, and that locate's next number, from 1 on,
      and then spells out the message of the draw. */
  lemma EmitExact(g: Gen, dr: Draw)
    requires Ok(g) && InRange(g, dr) && Room(g)
    ensures var data, m := Emit(g, dr), MessageOf(g, dr);
            && |data| >= 12 && Feed.LocateOf(data) == 100 + dr.sym
            && Feed.NumberOf(data) == (if 100 + dr.sym in g.nextSeq then g.nextSeq[100 + dr.sym] else 1)
            && ItchLayout.Spells(data[10..], m.(ts := g.nextId % 0x1_0000_0000_0000)) && Says(g, dr, m.body)
  {
    var m := MessageOf(g, dr);
    DrawSays(g, dr);
    PayloadParts(LocateFor(dr), NumberFor(g, LocateFor(dr)), m);
    FrameSpells(m);
  }

  /** The drawn symbol's locate moves on to the next number, the others stay. */
  lemma NumbersMoveOn(g: Gen, dr: Draw)
    requires Ok(g) && InRange(g, dr) && Room(g)
    ensures After(g, dr).nextSeq == g.nextSeq[100 + dr.sym := if 100 + dr.sym in g.nextSeq
                                                              then g.nextSeq[100 + dr.sym] + 1 else 2]
  {
  }

  /** The directory of symbol i: unnumbered, under locate 100 + i, category Q, status N, lots of 100. */
  lemma DirectoryExact(symbols: seq<Symbol>, i: nat)
    requires i < |symbols| <= 10
    ensures var dirs := Directories(symbols, |symbols|);
            && |dirs| == |symbols| && |dirs[i]| >= 12
            && Feed.LocateOf(dirs[i]) == 100 + i && Feed.NumberOf(dirs[i]) == 0
            && ItchLayout.Spells(dirs[i][10..], Message(100 + i, 0, 0, StockDirectory(symbols[i], 0x51, 0x4E, 100)))
  {
    EndToEnd.DirectoriesAt(symbols, |symbols|, i);
    PayloadParts(BASE_LOCATE + i, 0, DirectoryMessage(symbols, i));
    FrameSpells(DirectoryMessage(symbols, i));
  }

  // ---- How often each kind is drawn ---------------------------------------

  /** How many of the actions below n are of a kind. */
  function Drawn(g: Gen, dr: Draw, k: Kind, n: nat): nat {
    if n == 0 then 0 else Drawn(g, dr, k, n - 1) + if KindOf(g, dr.(action := n - 1)) == k then 1 else 0
  }

  /** The actions of a kind form a range. */
  function Range(k: Kind): (nat, nat) {
    match k
    case KAdd => (0, 50)
    case KCancel => (50, 70)
    case KExecute => (70, 85)
    case KDelete => (85, 95)
    case KReplace => (95, 100)
  }

  function Within(n: nat, lo: nat, hi: nat): nat {
    if n <= lo || hi <= lo then 0 else if n <= hi then n - lo else hi - lo
  }

  lemma {:induction false} DrawnRange(g: Gen, dr: Draw, k: Kind, n: nat)
    requires g.ids != [] && n <= 100
    ensures Drawn(g, dr, k, n) == Within(n, Range(k).0, Range(k).1)
    decreases n
  {
    if n > 0 {
      var m := n - 1;
      DrawnRange(g, dr, k, m);
    }
  }

  /** With orders live, half of the hundred draws add, 20 cancel, 15 execute, 10 delete and 5 replace. */
  lemma DrawShares(g: Gen, dr: Draw, n: nat)
    requires g.ids != [] && n == 100
    ensures Drawn(g, dr, KAdd, n) == 50 && Drawn(g, dr, KCancel, n) == 20 && Drawn(g, dr, KExecute, n) == 15
    ensures Drawn(g, dr, KDelete, n) == 10 && Drawn(g, dr, KReplace, n) == 5
  {
    DrawnRange(g, dr, KAdd, n);
    DrawnRange(g, dr, KCancel, n);
    DrawnRange(g, dr, KExecute, n);
    DrawnRange(g, dr, KDelete, n);
    DrawnRange(g, dr, KReplace, n);
  }
}
