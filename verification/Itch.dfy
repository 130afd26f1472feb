/** ITCH 5.0 messages as the parser decodes them, and the identifiers the rest of the handler uses. */
module Itch {
  import opened Bytes

  type Symbol = s: seq<byte> | |s| == 8 witness [0, 0, 0, 0, 0, 0, 0, 0]
  type Attribution = s: seq<byte> | |s| == 4 witness [0, 0, 0, 0]
  type OrderId = u64
  type Price = u32
  type Quantity = u32

  const BUY: byte := 0x42   // 'B'
  const SELL: byte := 0x53  // 'S'

  /** What an add message (or a trade) says about an order. The side travels as a raw byte; every value other
      than 'B' is treated as the ask side. */
  datatype NewOrder = NewOrder(id: OrderId, side: byte, shares: Quantity, symbol: Symbol, price: Price)

  datatype Execution = Execution(id: OrderId, shares: Quantity, matchNo: u64)

  datatype Body =
    | SystemEvent(event: byte)
    | StockDirectory(symbol: Symbol, category: byte, status: byte, lot: u32)
    | AddOrder(order: NewOrder)
    | AddOrderMpid(order: NewOrder, mpid: Attribution)
    | Executed(exec: Execution)
    | ExecutedWithPrice(exec: Execution, printable: byte, price: Price)
    | Cancel(id: OrderId, shares: Quantity)
    | Delete(id: OrderId)
    | Replace(id: OrderId, newId: OrderId, shares: Quantity, price: Price)
    | Trade(order: NewOrder, matchNo: u64)

  datatype Message = Message(loc: u16, track: u16, ts: u64, body: Body)

  type SymbolKey = u64

  /** The eight symbol bytes packed big-endian into one integer: the key of every per-symbol map. */
  function KeyOf(s: Symbol): SymbolKey {
    Take64(s)
  }

  lemma KeyInjective(s: Symbol, t: Symbol)
    requires KeyOf(s) == KeyOf(t)
    ensures s == t
  {
    PutTake(s);
    PutTake(t);
  }
}
