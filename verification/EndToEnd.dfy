/** Generator and handler together: on a lossless run the handler's live orders are the generator's. */
module EndToEnd {
  import opened Bytes
  import opened Itch
  import OB = OrderBook
  import opened Routing
  import opened GapDetectors
  import opened Feed
  import opened Generator
  import Parser

  /** A live order as both ends see it. */
  datatype LiveOrder = LiveOrder(key: SymbolKey, side: byte, price: Price, qty: Quantity)

  /** The handler's live order under an id. */
  ghost function LiveAt(d: Depth, id: nat): Option<LiveOrder>
    requires Wf(d)
  {
    if Reaches(d, id) then
      var o := d.books[d.routes[id]].orders[id];
      Some(LiveOrder(d.routes[id], o.side, o.price, o.qty))
    else None
  }

  /** The generator's i-th live order. */
  ghost function Believed(g: Gen, i: nat): LiveOrder
    requires Ok(g) && i < |g.ids|
  {
    LiveOrder(KeyOf(g.symbols[g.locs[i] - BASE_LOCATE]), g.sides[i], g.prices[i], g.qtys[i])
  }

  type LiveMap = map<nat, LiveOrder>

  /** All of the handler's live orders, by id. */
  ghost function LiveOf(d: Depth): (live: LiveMap)
    requires Wf(d)
    ensures forall id :: id in live <==> LiveAt(d, id).Some?
    ensures forall id :: id in live ==> live[id] == LiveAt(d, id).value
  {
    map id | id in d.routes && Reaches(d, id) :: LiveAt(d, id).value
  }

  type Table = seq<(nat, LiveOrder)>

  /** The parallel vectors as one table of ids and orders. */
  ghost function TableOf(g: Gen): (t: Table)
    requires Ok(g)
    ensures |t| == |g.ids|
    ensures forall i :: 0 <= i < |t| ==> t[i] == (g.ids[i], Believed(g, i))
  {
    seq(|g.ids|, i requires 0 <= i < |g.ids| => (g.ids[i], Believed(g, i)))
  }

  /** The table lists exactly these live orders, each once: the same ids, each with the same symbol, side, price
      and quantity. */
  ghost predicate Lists(t: Table, live: LiveMap) {
    && (forall i, j :: 0 <= i < j < |t| ==> t[i].0 != t[j].0)
    && (forall i :: 0 <= i < |t| ==> t[i].0 in live && live[t[i].0] == t[i].1)
    && (forall id :: id in live ==> (id, live[id]) in t)
  }

  ghost predicate Describes(g: Gen, live: LiveMap)
    requires Ok(g)
  {
    Lists(TableOf(g), live)
  }

  // ---- How one operation changes the live orders --------------------------

  ghost predicate Applies(live: LiveMap, op: OB.Op, k: SymbolKey) {
    match op
    case OpAdd(id, _, _, qty, _) => id !in live && qty > 0
    case OpReduce(id, _, _) => id in live && live[id].key == k
    case OpDelete(id, _) => id in live && live[id].key == k
    case OpReplace(id, newId, _, qty, _) => id in live && live[id].key == k && newId !in live && qty > 0
    case OpModify(_, _, _) => false
  }

  /** The operation on a flat table of live orders. */
  ghost function LiveStep(live: LiveMap, op: OB.Op, k: SymbolKey): LiveMap
    requires Applies(live, op, k)
  {
    match op
    case OpAdd(id, side, price, qty, _) => live[id := LiveOrder(k, side, price, qty)]
    case OpReduce(id, qty, _) =>
      if qty >= live[id].qty then live - {id} else live[id := live[id].(qty := live[id].qty - qty)]
    case OpDelete(id, _) => live - {id}
    case OpReplace(id, newId, price, qty, _) => (live - {id})[newId := LiveOrder(k, live[id].side, price, qty)]
  }

  /** d' is d after op acted on book k, by the plain-map semantics. */
  ghost predicate ActedOn(d: Depth, d': Depth, k: SymbolKey, op: OB.Op) {
    && k in d'.books && d'.books == d.books[k := d'.books[k]]
    && d'.books[k].orders == OB.NaiveStep(BookAt(d, k).orders, op)
    && d'.routes == Reroute(d.routes, op, k, d'.books[k])
  }

  lemma ApplyActs(d: Depth, m: Message)
    requires Wf(d) && AllPositive(d) && Target(d, m).Some?
    ensures CommandOf(m) != Nothing && ActedOn(d, Apply(d, m).0, Target(d, m).value, CommandOf(m).op)
    ensures Apply(d, m).1
  {
    ApplyLocal(d, m);
    OB.OrdersTrackNaive(BookAt(d, Target(d, m).value), CommandOf(m).op);
  }

  /** Orders that the operation does not name keep their route and their state. */
  lemma Untouched(d: Depth, d': Depth, k: SymbolKey, op: OB.Op, j: nat)
    requires Wf(d) && Wf(d') && ActedOn(d, d', k, op) && !op.OpModify?
    requires j != op.id && (op.OpReplace? ==> j != op.newId)
    ensures LiveAt(d', j) == LiveAt(d, j)
  {
    assert j in d'.routes <==> j in d.routes;
    if j in d.routes {
      assert d'.routes[j] == d.routes[j];
    }
  }

  ghost function Entry(live: LiveMap, id: nat): Option<LiveOrder> {
    if id in live then Some(live[id]) else None
  }

  lemma SameEntries(m: LiveMap, n: LiveMap)
    requires forall id :: Entry(m, id) == Entry(n, id)
    ensures m == n
  {
    forall id
      ensures (id in m <==> id in n) && (id in m ==> m[id] == n[id])
    {
      assert Entry(m, id) == Entry(n, id);
    }
  }

  predicate Names(op: OB.Op, j: nat) {
    j == op.id || (op.OpReplace? && j == op.newId)
  }

  lemma StepElsewhere(live: LiveMap, op: OB.Op, k: SymbolKey, j: nat)
    requires Applies(live, op, k) && !Names(op, j)
    ensures Entry(LiveStep(live, op, k), j) == Entry(live, j)
  {
  }

  /** The order an operation names ends as the flat table says. */
  ghost predicate Sets(d': Depth, k: SymbolKey, op: OB.Op, live: LiveMap, j: nat)
    requires Wf(d') && Applies(live, op, k)
  {
    LiveAt(d', j) == Entry(LiveStep(live, op, k), j)
  }

  lemma LiveEntered(d: Depth, d': Depth, k: SymbolKey, op: OB.Op, live: LiveMap)
    requires Solid(d) && Wf(d') && ActedOn(d, d', k, op) && live == LiveOf(d) && Applies(live, op, k)
    requires op.OpAdd? && op.id !in d.routes
    ensures Sets(d', k, op, live, op.id)
  {
    assert op.id !in BookAt(d, k).orders;
  }

  lemma LiveReduced(d: Depth, d': Depth, k: SymbolKey, op: OB.Op, live: LiveMap)
    requires Solid(d) && Wf(d') && ActedOn(d, d', k, op) && live == LiveOf(d) && Applies(live, op, k)
    requires op.OpReduce?
    ensures Sets(d', k, op, live, op.id)
  {
    assert LiveAt(d, op.id) == Some(live[op.id]);
  }

  lemma LiveDeleted(d: Depth, d': Depth, k: SymbolKey, op: OB.Op, live: LiveMap)
    requires Solid(d) && Wf(d') && ActedOn(d, d', k, op) && live == LiveOf(d) && Applies(live, op, k)
    requires op.OpDelete?
    ensures Sets(d', k, op, live, op.id)
  {
  }

  lemma LiveReplacedOld(d: Depth, d': Depth, k: SymbolKey, op: OB.Op, live: LiveMap)
    requires Solid(d) && Wf(d') && ActedOn(d, d', k, op) && live == LiveOf(d) && Applies(live, op, k)
    requires op.OpReplace? && op.newId !in d.routes
    ensures Sets(d', k, op, live, op.id)
  {
    assert LiveAt(d, op.id) == Some(live[op.id]);
  }

  lemma LiveReplacedNew(d: Depth, d': Depth, k: SymbolKey, op: OB.Op, live: LiveMap)
    requires Solid(d) && Wf(d') && ActedOn(d, d', k, op) && live == LiveOf(d) && Applies(live, op, k)
    requires op.OpReplace? && op.newId !in d.routes
    ensures Sets(d', k, op, live, op.newId)
  {
    RoutedHere(d, op.id, live, k);
    assert op.newId !in d.books[k].orders;
    ReplacedOrder(d.books[k].orders, op);
    ReplacedEntry(live, op, k);
  }

  /** A live order filed under a symbol rests in that symbol's book. */
  lemma RoutedHere(d: Depth, id: nat, live: LiveMap, k: SymbolKey)
    requires Wf(d) && live == LiveOf(d) && id in live && live[id].key == k
    ensures k in d.books && id in d.books[k].orders && live[id].side == d.books[k].orders[id].side
  {
    assert LiveAt(d, id) == Some(live[id]);
  }

  lemma ReplacedOrder(orders: OB.Orders, op: OB.Op)
    requires op.OpReplace? && op.id in orders && op.newId !in orders && op.qty > 0
    ensures op.newId in OB.NaiveStep(orders, op)
    ensures OB.NaiveStep(orders, op)[op.newId] == OB.Order(orders[op.id].side, op.price, op.qty, op.ts)
  {
  }

  lemma ReplacedEntry(live: LiveMap, op: OB.Op, k: SymbolKey)
    requires op.OpReplace? && Applies(live, op, k)
    ensures Entry(LiveStep(live, op, k), op.newId) == Some(LiveOrder(k, live[op.id].side, op.price, op.qty))
  {
  }

  lemma LiveHere(d: Depth, d': Depth, k: SymbolKey, op: OB.Op, live: LiveMap, j: nat)
    requires Solid(d) && Wf(d') && ActedOn(d, d', k, op) && live == LiveOf(d) && Applies(live, op, k)
    requires op.OpAdd? ==> op.id !in d.routes
    requires op.OpReplace? ==> op.newId !in d.routes
    requires Names(op, j)
    ensures Sets(d', k, op, live, j)
  {
    match op
    case OpAdd(_, _, _, _, _) => LiveEntered(d, d', k, op, live);
    case OpReduce(_, _, _) => LiveReduced(d, d', k, op, live);
    case OpDelete(_, _) => LiveDeleted(d, d', k, op, live);
    case OpReplace(_, _, _, _, _) =>
      LiveReplacedOld(d, d', k, op, live);
      LiveReplacedNew(d, d', k, op, live);
  }

  /** The handler's live orders change as the flat table does. */
  lemma LiveFollows(d: Depth, d': Depth, k: SymbolKey, op: OB.Op)
    requires Solid(d) && Wf(d') && ActedOn(d, d', k, op) && Applies(LiveOf(d), op, k)
    requires op.OpAdd? ==> op.id !in d.routes
    requires op.OpReplace? ==> op.newId !in d.routes
    ensures LiveOf(d') == LiveStep(LiveOf(d), op, k)
  {
    var live, live' := LiveOf(d), LiveOf(d');
    forall j
      ensures Entry(live', j) == Entry(LiveStep(live, op, k), j)
    {
      assert Entry(live', j) == LiveAt(d', j);
      if Names(op, j) {
        LiveHere(d, d', k, op, live, j);
      } else {
        StepElsewhere(live, op, k, j);
        Untouched(d, d', k, op, j);
      }
    }
    SameEntries(live', LiveStep(live, op, k));
  }

  // ---- The vectors follow -------------------------------------------------

  lemma ListsAppend(t: Table, live: LiveMap, id: nat, l: LiveOrder)
    requires Lists(t, live) && id !in live
    ensures Lists(t + [(id, l)], live[id := l])
  {
    var t' := t + [(id, l)];
    assert forall i :: 0 <= i < |t| ==> t'[i] == t[i];
    assert t'[|t|] == (id, l);
    forall x | x in live && x != id
      ensures (x, live[x]) in t'
    {
      assert (x, live[x]) in t;
    }
  }

  lemma ListsErase(t: Table, live: LiveMap, i: nat)
    requires Lists(t, live) && i < |t|
    ensures Lists(Without(t, i), live - {t[i].0})
  {
    var t', live' := Without(t, i), live - {t[i].0};
    forall j | 0 <= j < |t'|
      ensures t'[j] == t[if j < i then j else j + 1]
    {
    }
    forall x | x in live'
      ensures (x, live'[x]) in t'
    {
      var j :| 0 <= j < |t| && t[j] == (x, live[x]);
      assert t'[if j < i then j else j - 1] == t[j];
    }
  }

  lemma ListsUpdate(t: Table, live: LiveMap, i: nat, id: nat, l: LiveOrder)
    requires Lists(t, live) && i < |t| && (id == t[i].0 || id !in live)
    ensures Lists(t[i := (id, l)], (live - {t[i].0})[id := l])
  {
    var t', live' := t[i := (id, l)], (live - {t[i].0})[id := l];
    assert t'[i] == (id, l);
    assert forall j :: 0 <= j < |t| && j != i ==> t'[j] == t[j] && t[j].0 != t[i].0;
    forall x | x in live'
      ensures (x, live'[x]) in t'
    {
      if x != id {
        var j :| 0 <= j < |t| && t[j] == (x, live[x]);
        assert t'[j] == t[j];
      }
    }
  }

  lemma TableAppend(g: Gen, g': Gen, price: Price, qty: Quantity, side: byte, loc: u16)
    requires Ok(g) && Ok(g') && BASE_LOCATE <= loc < BASE_LOCATE + |g.symbols|
    requires g' == g.(ids := g.ids + [g.nextId], prices := g.prices + [price], qtys := g.qtys + [qty],
                      sides := g.sides + [side], locs := g.locs + [loc], nextId := g'.nextId)
    ensures TableOf(g') ==
            TableOf(g) + [(g.nextId, LiveOrder(KeyOf(g.symbols[loc - BASE_LOCATE]), side, price, qty))]
  {
    var n := |g.ids|;
    assert Believed(g', n) == LiveOrder(KeyOf(g.symbols[loc - BASE_LOCATE]), side, price, qty);
    forall i | 0 <= i < n
      ensures TableOf(g')[i] == TableOf(g)[i]
    {
      assert Believed(g', i) == Believed(g, i);
    }
  }

  lemma WithoutAt<T>(s: seq<T>, i: nat, j: nat)
    requires i < |s| && j < |s| - 1
    ensures Without(s, i)[j] == s[if j < i then j else j + 1]
  {
  }

  lemma TableErase(g: Gen, g': Gen, i: nat)
    requires Ok(g) && Ok(g') && i < |g.ids| && g' == Erase(g, i).(nextId := g'.nextId)
    ensures TableOf(g') == Without(TableOf(g), i)
  {
    forall j | 0 <= j < |g'.ids|
      ensures TableOf(g')[j] == Without(TableOf(g), i)[j]
    {
      WithoutAt(TableOf(g), i, j);
      BelievedErase(g, g', i, j);
    }
  }

  lemma BelievedErase(g: Gen, g': Gen, i: nat, j: nat)
    requires Ok(g) && Ok(g') && i < |g.ids| && g' == Erase(g, i).(nextId := g'.nextId) && j < |g'.ids|
    ensures var k := if j < i then j else j + 1;
            g'.ids[j] == g.ids[k] && Believed(g', j) == Believed(g, k)
  {
    WithoutAt(g.ids, i, j);
    WithoutAt(g.prices, i, j);
    WithoutAt(g.qtys, i, j);
    WithoutAt(g.sides, i, j);
    WithoutAt(g.locs, i, j);
  }

  lemma TableUpdate(g: Gen, g': Gen, i: nat, id: nat, price: Price, qty: Quantity)
    requires Ok(g) && Ok(g') && i < |g.ids|
    requires g' == g.(ids := g.ids[i := id], prices := g.prices[i := price], qtys := g.qtys[i := qty],
                      nextId := g'.nextId)
    ensures TableOf(g') == TableOf(g)[i := (id, Believed(g, i).(price := price, qty := qty))]
  {
    forall j | 0 <= j < |g.ids|
      ensures TableOf(g')[j] == TableOf(g)[i := (id, Believed(g, i).(price := price, qty := qty))][j]
    {
    }
  }

  /** The operation of a call, as it appears in its message. */
  ghost function OpFor(g: Gen, dr: Draw, ts: u64): OB.Op
    requires Ok(g) && InRange(g, dr)
  {
    match KindOf(g, dr)
    case KAdd => OB.OpAdd(g.nextId, if dr.buy then BUY else SELL, dr.price, dr.qty, ts)
    case KCancel => OB.OpReduce(g.ids[dr.pick], dr.cut, ts)
    case KExecute => OB.OpReduce(g.ids[dr.pick], dr.cut, ts)
    case KDelete => OB.OpDelete(g.ids[dr.pick], ts)
    case KReplace => OB.OpReplace(g.ids[dr.pick], g.nextId + 1, dr.price, dr.qty, ts)
  }

  ghost function KeyFor(g: Gen, dr: Draw): SymbolKey
    requires Ok(g) && InRange(g, dr)
  {
    if KindOf(g, dr) == KAdd then KeyOf(g.symbols[dr.sym]) else Believed(g, dr.pick).key
  }

  /** After a call of this kind the vectors describe what its operation makes of the live orders. */
  ghost predicate Follows(g: Gen, dr: Draw, live: LiveMap, ts: u64)
    requires Ok(g) && InRange(g, dr)
  {
    && Applies(live, OpFor(g, dr, ts), KeyFor(g, dr)) && Ok(Tracked(g, dr))
    && Describes(Tracked(g, dr), LiveStep(live, OpFor(g, dr, ts), KeyFor(g, dr)))
  }

  lemma AddFollows(g: Gen, dr: Draw, live: LiveMap, ts: u64)
    requires Ok(g) && InRange(g, dr) && Describes(g, live) && KindOf(g, dr) == KAdd && g.nextId !in live
    ensures Follows(g, dr, live, ts)
  {
    TrackedOk(g, dr);
    var side := if dr.buy then BUY else SELL;
    TableAppend(g, Tracked(g, dr), dr.price, dr.qty, side, LocateFor(dr));
    ListsAppend(TableOf(g), live, g.nextId, LiveOrder(KeyOf(g.symbols[dr.sym]), side, dr.price, dr.qty));
  }

  lemma EraseFollows(g: Gen, dr: Draw, live: LiveMap, ts: u64)
    requires Ok(g) && InRange(g, dr) && Describes(g, live)
    requires KindOf(g, dr) == KDelete ||
             ((KindOf(g, dr) == KCancel || KindOf(g, dr) == KExecute) && dr.cut >= g.qtys[dr.pick])
    ensures Follows(g, dr, live, ts)
  {
    TrackedOk(g, dr);
    TableErase(g, Tracked(g, dr), dr.pick);
    ListsErase(TableOf(g), live, dr.pick);
    assert TableOf(g)[dr.pick] == (g.ids[dr.pick], Believed(g, dr.pick));
  }

  lemma TableCut(g: Gen, g': Gen, i: nat, q: Quantity)
    requires Ok(g) && Ok(g') && i < |g.ids| && g' == g.(qtys := g.qtys[i := q], nextId := g'.nextId)
    ensures TableOf(g') == TableOf(g)[i := (g.ids[i], Believed(g, i).(qty := q))]
  {
    forall j | 0 <= j < |g.ids|
      ensures TableOf(g')[j] == TableOf(g)[i := (g.ids[i], Believed(g, i).(qty := q))][j]
    {
    }
  }

  lemma ListsCut(t: Table, live: LiveMap, i: nat, l: LiveOrder)
    requires Lists(t, live) && i < |t|
    ensures t[i].0 in live && live[t[i].0] == t[i].1 && Lists(t[i := (t[i].0, l)], live[t[i].0 := l])
  {
    ListsUpdate(t, live, i, t[i].0, l);
    UpdateInPlace(live, t[i].0, l);
  }

  /** What a partial cancel or execution is: its operation, its symbol, and the vectors after it. */
  lemma CutShape(g: Gen, dr: Draw, ts: u64, i: nat)
    requires Ok(g) && InRange(g, dr) && i == dr.pick
    requires (KindOf(g, dr) == KCancel || KindOf(g, dr) == KExecute) && dr.cut < g.qtys[dr.pick]
    ensures i < |g.ids| && OpFor(g, dr, ts) == OB.OpReduce(g.ids[i], dr.cut, ts) && KeyFor(g, dr) == Believed(g, i).key
    ensures Tracked(g, dr) == g.(qtys := g.qtys[i := g.qtys[i] - dr.cut], nextId := g.nextId + 1)
  {
  }

  lemma CutDescribed(g: Gen, g': Gen, live: LiveMap, i: nat, cut: Quantity)
    requires Ok(g) && Ok(g') && Describes(g, live) && i < |g.ids| && cut < g.qtys[i]
    requires g' == g.(qtys := g.qtys[i := g.qtys[i] - cut], nextId := g'.nextId)
    ensures g.ids[i] in live && live[g.ids[i]] == Believed(g, i)
    ensures Describes(g', live[g.ids[i] := Believed(g, i).(qty := g.qtys[i] - cut)])
  {
    TableCut(g, g', i, g.qtys[i] - cut);
    ListsCut(TableOf(g), live, i, Believed(g, i).(qty := g.qtys[i] - cut));
  }

  lemma CutFollows(g: Gen, dr: Draw, live: LiveMap, ts: u64)
    requires Ok(g) && InRange(g, dr) && Describes(g, live)
    requires (KindOf(g, dr) == KCancel || KindOf(g, dr) == KExecute) && dr.cut < g.qtys[dr.pick]
    ensures Follows(g, dr, live, ts)
  {
    TrackedOk(g, dr);
    CutShape(g, dr, ts, dr.pick);
    CutDescribed(g, Tracked(g, dr), live, dr.pick, dr.cut);
    CutStep(live, g.ids[dr.pick], dr.cut, ts);
  }

  lemma CutStep(live: LiveMap, id: nat, cut: Quantity, ts: u64)
    requires id in live && cut < live[id].qty
    ensures var op, l := OB.OpReduce(id, cut, ts), live[id];
            Applies(live, op, l.key) && LiveStep(live, op, l.key) == live[id := l.(qty := l.qty - cut)]
  {
  }

  lemma UpdateInPlace(live: LiveMap, id: nat, l: LiveOrder)
    ensures (live - {id})[id := l] == live[id := l]
  {
  }

  lemma ReplaceShape(g: Gen, dr: Draw, ts: u64, i: nat, newId: nat)
    requires Ok(g) && InRange(g, dr) && i == dr.pick && newId == g.nextId + 1 && KindOf(g, dr) == KReplace
    ensures i < |g.ids| && OpFor(g, dr, ts) == OB.OpReplace(g.ids[i], newId, dr.price, dr.qty, ts)
    ensures KeyFor(g, dr) == Believed(g, i).key && dr.qty > 0
    ensures Tracked(g, dr) == g.(ids := g.ids[i := newId], prices := g.prices[i := dr.price],
                                 qtys := g.qtys[i := dr.qty], nextId := g.nextId + 2)
  {
  }

  lemma ReplaceDescribed(g: Gen, g': Gen, live: LiveMap, i: nat, newId: nat, price: Price, qty: Quantity)
    requires Ok(g) && Ok(g') && Describes(g, live) && i < |g.ids| && newId !in live
    requires g' == g.(ids := g.ids[i := newId], prices := g.prices[i := price], qtys := g.qtys[i := qty],
                      nextId := g'.nextId)
    ensures g.ids[i] in live && live[g.ids[i]] == Believed(g, i)
    ensures Describes(g', (live - {g.ids[i]})[newId := Believed(g, i).(price := price, qty := qty)])
  {
    assert TableOf(g)[i] == (g.ids[i], Believed(g, i));
    TableUpdate(g, g', i, newId, price, qty);
    ListsUpdate(TableOf(g), live, i, newId, Believed(g, i).(price := price, qty := qty));
  }

  lemma ReplaceFollows(g: Gen, dr: Draw, live: LiveMap, ts: u64)
    requires Ok(g) && InRange(g, dr) && Describes(g, live) && KindOf(g, dr) == KReplace && g.nextId + 1 !in live
    ensures Follows(g, dr, live, ts)
  {
    var newId := g.nextId + 1;
    TrackedOk(g, dr);
    ReplaceShape(g, dr, ts, dr.pick, newId);
    ReplaceDescribed(g, Tracked(g, dr), live, dr.pick, newId, dr.price, dr.qty);
    ReplaceStep(live, g.ids[dr.pick], newId, dr.price, dr.qty, ts);
  }

  lemma ReplaceStep(live: LiveMap, id: nat, newId: nat, price: Price, qty: Quantity, ts: u64)
    requires id in live && newId !in live && qty > 0
    ensures var op, l := OB.OpReplace(id, newId, price, qty, ts), live[id];
            Applies(live, op, l.key) &&
            LiveStep(live, op, l.key) == (live - {id})[newId := l.(price := price, qty := qty)]
  {
  }

  lemma VectorsFollow(g: Gen, dr: Draw, live: LiveMap, ts: u64)
    requires Ok(g) && InRange(g, dr) && Describes(g, live) && forall id :: id in live ==> id < g.nextId
    ensures Follows(g, dr, live, ts)
  {
    match KindOf(g, dr)
    case KAdd => AddFollows(g, dr, live, ts);
    case KDelete => EraseFollows(g, dr, live, ts);
    case KReplace => ReplaceFollows(g, dr, live, ts);
    case _ =>
      if dr.cut >= g.qtys[dr.pick] {
        EraseFollows(g, dr, live, ts);
      } else {
        CutFollows(g, dr, live, ts);
      }
  }

  // ---- One datagram -------------------------------------------------------

  /** The message the handler decodes: the generator's, with 48 bits of timestamp. */
  ghost function Sent(g: Gen, dr: Draw): Message
    requires Ok(g) && InRange(g, dr) && Room(g)
  {
    Parser.OnWire(MessageOf(g, dr))
  }

  ghost predicate IdsBelow(d: Depth, n: nat) {
    forall id: nat :: id in d.routes ==> id < n
  }

  ghost predicate Synced(g: Gen, d: Depth) {
    Ok(g) && Solid(d) && IdsBelow(d, g.nextId) && Describes(g, LiveOf(d))
  }

  /** The decoded message asks for the call's operation: an entry under the drawn symbol, or an action by id. */
  lemma SentCommand(g: Gen, dr: Draw)
    requires Ok(g) && InRange(g, dr) && Room(g)
    ensures var m := Sent(g, dr);
            CommandOf(m) == if KindOf(g, dr) == KAdd then Enter(g.symbols[dr.sym], OpFor(g, dr, m.ts))
                            else ById(OpFor(g, dr, m.ts))
  {
  }

  lemma SentTarget(g: Gen, dr: Draw, d: Depth)
    requires Synced(g, d) && InRange(g, dr) && Room(g)
    ensures Target(d, Sent(g, dr)) == Some(KeyFor(g, dr))
  {
    SentCommand(g, dr);
    if KindOf(g, dr) != KAdd {
      PickedIsLive(g, d, dr.pick);
    }
  }

  lemma PickedIsLive(g: Gen, d: Depth, i: nat)
    requires Synced(g, d) && i < |g.ids|
    ensures LiveAt(d, g.ids[i]) == Some(Believed(g, i))
  {
    assert TableOf(g)[i] == (g.ids[i], Believed(g, i));
  }

  lemma OpBringsFresh(g: Gen, dr: Draw, ts: u64, id: nat)
    requires Ok(g) && InRange(g, dr) && Brings(OpFor(g, dr, ts), id)
    ensures g.nextId <= id < Tracked(g, dr).nextId
  {
  }

  lemma FreshExclusive(d: Depth, m: Message)
    requires Solid(d) && CommandOf(m) != Nothing && forall id: nat :: Brings(CommandOf(m).op, id) ==> id !in d.routes
    ensures Exclusive(d, m)
  {
  }

  lemma RoutesGrow(d: Depth, d': Depth, k: SymbolKey, op: OB.Op, n: nat, n': nat)
    requires ActedOn(d, d', k, op) && IdsBelow(d, n) && n <= n' && forall id: nat :: Brings(op, id) ==> id < n'
    ensures IdsBelow(d', n')
  {
    forall id | id in d'.routes
      ensures id < n'
    {
      assert id in d.routes || Brings(op, id);
    }
  }

  lemma SolidKept(d: Depth, m: Message)
    requires Solid(d) && Exclusive(d, m)
    ensures Solid(Apply(d, m).0)
  {
    PositiveKept(d, m);
    RoutedExact(d, m);
  }

  /** One call of the generator, applied by the handler, leaves both in agreement. */
  lemma MessageKeepsSync(g: Gen, dr: Draw, d: Depth)
    requires Synced(g, d) && InRange(g, dr) && Room(g)
    ensures Apply(d, Sent(g, dr)).1 && Synced(After(g, dr), Apply(d, Sent(g, dr)).0)
  {
    var m := Sent(g, dr);
    SentCommand(g, dr);
    SentTarget(g, dr, d);
    forall id: nat | Brings(CommandOf(m).op, id)
      ensures g.nextId <= id < Tracked(g, dr).nextId
    {
      OpBringsFresh(g, dr, m.ts, id);
    }
    FreshExclusive(d, m);
    SolidKept(d, m);
    ApplyActs(d, m);
    AfterOk(g, dr);
    SyncFollows(g, dr, d, Apply(d, m).0, m.ts);
  }

  lemma SyncFollows(g: Gen, dr: Draw, d: Depth, d': Depth, ts: u64)
    requires Synced(g, d) && InRange(g, dr) && Room(g) && Solid(d') && Ok(After(g, dr))
    requires ActedOn(d, d', KeyFor(g, dr), OpFor(g, dr, ts))
    requires forall id: nat :: Brings(OpFor(g, dr, ts), id) ==> g.nextId <= id < Tracked(g, dr).nextId
    ensures Synced(After(g, dr), d')
  {
    var k, op := KeyFor(g, dr), OpFor(g, dr, ts);
    LiveIdsBelow(d, g.nextId);
    VectorsFollow(g, dr, LiveOf(d), ts);
    assert op.OpAdd? ==> Brings(op, op.id);
    assert op.OpReplace? ==> Brings(op, op.newId);
    LiveFollows(d, d', k, op);
    RoutesGrow(d, d', k, op, g.nextId, Tracked(g, dr).nextId);
    SameTable(Tracked(g, dr), After(g, dr));
  }

  lemma LiveIdsBelow(d: Depth, n: nat)
    requires Wf(d) && IdsBelow(d, n)
    ensures forall id :: id in LiveOf(d) ==> id < n
  {
    forall id | id in LiveOf(d)
      ensures id < n
    {
      assert LiveAt(d, id).Some?;
    }
  }

  lemma SameTable(g: Gen, g': Gen)
    requires Ok(g) && Ok(g') && g' == g.(nextSeq := g'.nextSeq)
    ensures TableOf(g') == TableOf(g)
  {
  }

  lemma PayloadParses(loc: u16, num: u64, m: Message)
    ensures var data := Payload(loc, num, m);
            && |data| >= HEADER + 2 && LocateOf(data) == loc && NumberOf(data) == num
            && Parser.Decode(data[HEADER..]) ==
               Parser.ParseResult(Parser.Ok, Parser.FramedSize(m), Some(Parser.OnWire(m)))
  {
    Back16(loc);
    Back64(num);
    var frame := Parser.Frame(m);
    var data := Payload(loc, num, m);
    var pad := seq(Parser.Unused(Parser.TypeCode(m.body)), i => 0);
    Parser.DecodeFrameThen(m, pad);
    Parser.FrameLength(m, pad);
    assert data[2..] == Put64(num) + frame;
    assert data[HEADER..] == data[2..][8..] == frame;
  }

  ghost predicate Quiet(s: Stats) {
    s.gaps == 0 && s.stale == 0 && s.parseErrors == 0
  }

  /** Generator and handler in agreement, down to the sequence numbers. */
  ghost predicate InStep(g: Gen, f: Feed) {
    Synced(g, f.book) && f.expected == g.nextSeq && Quiet(f.stats)
  }

  lemma NumberInOrder(g: Gen, dr: Draw, mode: Mode, reply: Option<Response>)
    requires Ok(g) && InRange(g, dr) && Room(g)
    ensures var loc := LocateFor(dr);
            var num := NumberFor(g, loc);
            && 1 <= num < MAX_SEQ
            && Gate(g.nextSeq, mode, Arrival(loc, num, reply)) ==
               GateResult(g.nextSeq[loc := num + 1], Pass, None, None)
  {
  }

  /** The handler takes the next datagram in whatever mode, without a gap, a stale number or a parse error. */
  lemma DatagramKeepsStep(g: Gen, f: Feed, dr: Draw, mode: Mode, dg: Datagram)
    requires InStep(g, f) && InRange(g, dr) && Room(g) && dg.data == Emit(g, dr)
    ensures var f' := OnDatagram(f, mode, dg).0;
            InStep(After(g, dr), f') && f'.stats.applied == f.stats.applied + 1
  {
    var loc := LocateFor(dr);
    var num := NumberFor(g, loc);
    var m := MessageOf(g, dr);
    PayloadParses(loc, num, m);
    NumberInOrder(g, dr, mode, dg.reply);
    MessageKeepsSync(g, dr, f.book);
    DatagramEffect(f, mode, dg, num, g.nextSeq[loc := num + 1], Parser.OnWire(m));
  }

  /** An in-order datagram that parses goes straight to the book. */
  lemma DatagramEffect(f: Feed, mode: Mode, dg: Datagram, num: u64, expected: Expected, m: Message)
    requires Wf(f.book) && |dg.data| >= HEADER + 2 && NumberOf(dg.data) == num != 0
    requires Gate(f.expected, mode, Arrival(LocateOf(dg.data), num, dg.reply)) == GateResult(expected, Pass, None, None)
    requires Parser.Decode(dg.data[HEADER..]).status == Parser.Ok
    requires Parser.Decode(dg.data[HEADER..]).message == Some(m) && Apply(f.book, m).1
    ensures var f' := OnDatagram(f, mode, dg).0;
            && f'.book == Apply(f.book, m).0 && f'.expected == expected
            && f'.stats.applied == f.stats.applied + 1 && (Quiet(f.stats) ==> Quiet(f'.stats))
  {
  }

  // ---- Whole runs ---------------------------------------------------------

  /** One call: the draws are in range, and the datagram and the next state are the generator's. */
  ghost predicate Call(g: Gen, dr: Draw, dg: Datagram, g': Gen) {
    Ok(g) && Room(g) ==> InRange(g, dr) && dg.data == Emit(g, dr) && g' == After(g, dr)
  }

  /** Consecutive calls of next(), starting from the first state. */
  ghost predicate Calls(gens: seq<Gen>, draws: seq<Draw>, dgs: seq<Datagram>) {
    && |gens| == |draws| + 1 && |dgs| == |draws|
    && forall i :: 0 <= i < |draws| ==> Call(gens[i], draws[i], dgs[i], gens[i + 1])
  }

  /** Counters after n calls. */
  ghost predicate CountersAfter(g: Gen, n: nat) {
    g.nextId <= 1 + 2 * n && forall l :: l in g.nextSeq ==> g.nextSeq[l] <= 1 + n
  }

  const CALL_LIMIT: nat := 0x4000_0000_0000_0000

  lemma CountedStep(g: Gen, dr: Draw, n: nat)
    requires Ok(g) && InRange(g, dr) && CountersAfter(g, n) && n < CALL_LIMIT
    ensures Room(g) && CountersAfter(After(g, dr), n + 1)
  {
    AfterOk(g, dr);
  }

  lemma RunNext(f: Feed, mode: Mode, dgs: seq<Datagram>, n: nat)
    requires Wf(f.book) && n < |dgs|
    ensures FeedRun(f, mode, dgs[..n + 1]) == OnDatagram(FeedRun(f, mode, dgs[..n]), mode, dgs[n]).0
  {
    assert dgs[..n + 1][..n] == dgs[..n];
  }

  lemma {:induction false} CallsKeepStep(gens: seq<Gen>, draws: seq<Draw>, dgs: seq<Datagram>, f: Feed, mode: Mode,
                                         n: nat)
    requires Calls(gens, draws, dgs) && n <= |draws| <= CALL_LIMIT
    requires InStep(gens[0], f) && CountersAfter(gens[0], 0)
    ensures var f' := FeedRun(f, mode, dgs[..n]);
            InStep(gens[n], f') && CountersAfter(gens[n], n) && f'.stats.applied == f.stats.applied + n
    decreases n
  {
    if n > 0 {
      var i := n - 1;
      CallsKeepStep(gens, draws, dgs, f, mode, i);
      RunNext(f, mode, dgs, i);
      assert Call(gens[i], draws[i], dgs[i], gens[n]);
      RoomLeft(gens[i], i);
      CountedStep(gens[i], draws[i], i);
      DatagramKeepsStep(gens[i], FeedRun(f, mode, dgs[..i]), draws[i], mode, dgs[i]);
    }
  }

  lemma RoomLeft(g: Gen, n: nat)
    requires CountersAfter(g, n) && n < CALL_LIMIT
    ensures Room(g)
  {
  }

  lemma {:induction false} FeedRunAppend(f: Feed, mode: Mode, a: seq<Datagram>, b: seq<Datagram>)
    requires Wf(f.book)
    ensures FeedRun(f, mode, a + b) == FeedRun(FeedRun(f, mode, a), mode, b)
    decreases |b|
  {
    if b == [] {
      assert a + b == a;
    } else {
      assert (a + b)[..|a + b| - 1] == a + b[..|b| - 1];
      FeedRunAppend(f, mode, a, b[..|b| - 1]);
    }
  }

  // ---- Directory messages -------------------------------------------------

  lemma DirectoryEffect(f: Feed, mode: Mode, dg: Datagram, symbols: seq<Symbol>, i: nat)
    requires Wf(f.book) && i < |symbols| <= 10
    requires dg.data == Payload(BASE_LOCATE + i, 0, DirectoryMessage(symbols, i))
    ensures var f' := OnDatagram(f, mode, dg).0;
            f'.book == f.book && f'.expected == f.expected && f'.stats.applied == f.stats.applied &&
            (Quiet(f.stats) ==> Quiet(f'.stats))
  {
    PayloadParses(BASE_LOCATE + i, 0, DirectoryMessage(symbols, i));
  }

  lemma {:induction false} DirectoriesAt(symbols: seq<Symbol>, n: nat, i: nat)
    requires i < n <= |symbols| <= 10
    ensures |Directories(symbols, n)| == n
    ensures Directories(symbols, n)[i] == Payload(BASE_LOCATE + i, 0, DirectoryMessage(symbols, i))
    decreases n
  {
    if n > 1 {
      DirectoriesAt(symbols, n - 1, if i < n - 1 then i else 0);
    }
  }

  lemma {:induction false} DirectoriesQuiet(depth: nat, mode: Mode, symbols: seq<Symbol>, dirs: seq<Datagram>)
    requires |dirs| <= |symbols| <= 10
    requires forall i :: 0 <= i < |dirs| ==> dirs[i].data == Payload(BASE_LOCATE + i, 0, DirectoryMessage(symbols, i))
    ensures var f := FeedRun(Start(depth), mode, dirs);
            f.book == Fresh(depth) && f.expected == map[] && f.stats.applied == 0 && Quiet(f.stats)
    decreases |dirs|
  {
    if dirs != [] {
      var init := dirs[..|dirs| - 1];
      DirectoriesQuiet(depth, mode, symbols, init);
      DirectoryEffect(FeedRun(Start(depth), mode, init), mode, dirs[|dirs| - 1], symbols, |dirs| - 1);
    }
  }

  lemma StartInStep(depth: nat, symbols: seq<Symbol>, f: Feed)
    requires 1 <= |symbols| <= 10 && f.book == Fresh(depth) && f.expected == map[] && Quiet(f.stats)
    ensures InStep(NewGen(symbols), f)
  {
    assert LiveOf(f.book) == map[];
  }

  /** The lossless run: whatever the generator draws, in every mode and at every depth, feeding a fresh handler the
      directory messages and then each emitted datagram produces no gap, no stale number and no parse error, counts
      exactly one applied message per call, and leaves the handler's live orders equal to the generator's vectors. Every
      order in any book is routed to it, so there are no live orders besides those compared. */
  lemma LosslessRun(depth: nat, mode: Mode, symbols: seq<Symbol>, dirs: seq<Datagram>, gens: seq<Gen>,
                    draws: seq<Draw>, dgs: seq<Datagram>)
    requires 1 <= |symbols| <= 10 && |dirs| == |symbols| == |Directories(symbols, |symbols|)|
    requires forall i :: 0 <= i < |dirs| ==> dirs[i].data == Directories(symbols, |symbols|)[i]
    requires Calls(gens, draws, dgs) && gens[0] == NewGen(symbols) && |draws| <= CALL_LIMIT
    ensures var f := FeedRun(Start(depth), mode, dirs + dgs);
            && f.stats.gaps == 0 && f.stats.stale == 0 && f.stats.parseErrors == 0
            && f.stats.applied == |draws|
            && Ok(gens[|draws|]) && Describes(gens[|draws|], LiveOf(f.book)) && Routed(f.book)
  {
    forall i | 0 <= i < |dirs|
      ensures dirs[i].data == Payload(BASE_LOCATE + i, 0, DirectoryMessage(symbols, i))
    {
      DirectoriesAt(symbols, |symbols|, i);
    }
    DirectoriesQuiet(depth, mode, symbols, dirs);
    var f0 := FeedRun(Start(depth), mode, dirs);
    StartInStep(depth, symbols, f0);
    CallsKeepStep(gens, draws, dgs, f0, mode, |draws|);
    assert dgs[..|draws|] == dgs;
    FeedRunAppend(Start(depth), mode, dirs, dgs);
  }
}
