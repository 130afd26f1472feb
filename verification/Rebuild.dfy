/** Rebuilding a symbol's book from aggregated levels: each level is split into as many synthetic orders as it
    counts, and the question is when the result shows the same levels again. */
module Rebuild {
  import opened Bytes
  import opened Itch
  import opened Ladder
  import opened OrderBook

  const FIRST_SYNTHETIC: nat := 0x1000_0000_0000_0000

  /** The number of synthetic orders aimed at, the equal share of each, and the remainder for the first. */
  function Slices(l: Level): (n: nat)
    ensures n >= 1
  {
    if l.count >= 1 then l.count else 1
  }

  function Share(l: Level): nat {
    l.total / Slices(l)
  }

  function Remainder(l: Level): int {
    l.total - Share(l) * Slices(l)
  }

  lemma Division(t: nat, n: nat)
    requires n >= 1
    ensures 0 <= t - t / n * n < n && t / n + (t - t / n * n) <= t
    ensures t / n == 0 <==> t < n
  {
    var s := t / n;
    assert t == s * n + t % n;
    assert s * n == s + s * (n - 1);
    assert s * (n - 1) >= 0;
  }

  /** The sizes of the first i slices, leaving out the empty ones. */
  function Sizes(per: nat, rem: nat, i: nat): seq<nat> {
    if i == 0 then []
    else
      var q := per + if i == 1 then rem else 0;
      Sizes(per, rem, i - 1) + if q == 0 then [] else [q]
  }

  lemma SizesNext(per: nat, rem: nat, i: nat, k: nat)
    requires k == i + 1
    ensures var q := per + (if i == 0 then rem else 0);
            Sizes(per, rem, k) == Sizes(per, rem, i) + if q == 0 then [] else [q]
  {
  }

  function SizesOf(l: Level): seq<nat> {
    Division(l.total, Slices(l));
    Sizes(Share(l), Remainder(l), Slices(l))
  }

  lemma RemainderFits(l: Level)
    ensures 0 <= Remainder(l) && Share(l) + Remainder(l) < TWO32
    ensures SizesOf(l) == Sizes(Share(l), Remainder(l), Slices(l))
  {
    Division(l.total, Slices(l));
  }

  ghost function Sum(qs: seq<nat>): nat {
    if qs == [] then 0 else Sum(qs[..|qs| - 1]) + qs[|qs| - 1]
  }

  /** One order per size, under consecutive ids from id on. */
  ghost function AddAll(b: Book, id: nat, side: byte, price: Price, qs: seq<nat>): Book
    requires forall i :: 0 <= i < |qs| ==> qs[i] < TWO32
  {
    if qs == [] then b
    else Add(AddAll(b, id, side, price, qs[..|qs| - 1]), id + |qs| - 1, side, price, qs[|qs| - 1], 0)
  }

  lemma AddAllSnoc(b: Book, id: nat, side: byte, price: Price, qs: seq<nat>, q: Quantity)
    requires forall i :: 0 <= i < |qs| ==> qs[i] < TWO32
    ensures forall i :: 0 <= i < |qs + [q]| ==> (qs + [q])[i] < TWO32
    ensures AddAll(b, id, side, price, qs + [q]) == Add(AddAll(b, id, side, price, qs), id + |qs|, side, price, q, 0)
  {
    assert (qs + [q])[..|qs|] == qs;
  }

  ghost function AddLevel(b: Book, id: nat, side: byte, l: Level): (Book, nat) {
    SizesFit(l);
    (AddAll(b, id, side, l.price, SizesOf(l)), id + |SizesOf(l)|)
  }

  ghost function AddLevels(b: Book, id: nat, side: byte, ls: seq<Level>): (Book, nat) {
    if ls == [] then (b, id)
    else
      var (b1, id1) := AddLevels(b, id, side, ls[..|ls| - 1]);
      AddLevel(b1, id1, side, ls[|ls| - 1])
  }

  function Bigger(m: nat, n: nat): nat {
    if m > n then m else n
  }

  /** The book installed for a snapshot: fresh, as deep as the longer side, filled level by level. */
  ghost function Rebuilt(bids: seq<Level>, asks: seq<Level>): Book {
    var (b, id) := AddLevels(Empty(Bigger(|bids|, |asks|)), FIRST_SYNTHETIC, BUY, bids);
    AddLevels(b, id, SELL, asks).0
  }

  // ---- What adding does, seen from the ladders ----------------------------

  ghost function SideOf(b: Book, buy: bool): Levels {
    if buy then b.bids else b.asks
  }

  /** Bookkeeping that every synthetic add keeps: fresh ids ahead, refreshed tops, levels filed by price. */
  ghost predicate Ready(b: Book, id: nat) {
    && (forall k :: k in b.orders ==> k < id)
    && b.topBids == Top(b.bids, true, b.depth) && b.topAsks == Top(b.asks, false, b.depth)
    && Keyed(b.bids) && Keyed(b.asks)
  }

  /** b became b' by a change of one side's ladder alone. */
  ghost predicate Became(b: Book, b': Book, id': nat, buy: bool, levels: Levels) {
    && Ready(b', id') && b'.depth == b.depth
    && SideOf(b', buy) == levels && SideOf(b', !buy) == SideOf(b, !buy)
  }

  lemma AddReady(b: Book, id: nat, side: byte, price: Price, qty: Quantity)
    requires Ready(b, id) && qty > 0
    ensures Became(b, Add(b, id, side, price, qty, 0), id + 1, side == BUY,
                   Delta(SideOf(b, side == BUY), price, qty, 1))
  {
  }

  /** One more order on an existing level. */
  lemma AddOnLevel(b: Book, id: nat, side: byte, l: Level, qty: Quantity)
    requires Ready(b, id) && qty > 0 && l.total + qty < TWO32 && l.count + 1 < TWO32 && l.total > 0 && l.count > 0
    requires l.price in SideOf(b, side == BUY) && SideOf(b, side == BUY)[l.price] == l
    ensures Became(b, Add(b, id, side, l.price, qty, 0), id + 1, side == BUY,
                   SideOf(b, side == BUY)[l.price := Level(l.price, l.total + qty, l.count + 1)])
  {
    AddReady(b, id, side, l.price, qty);
  }

  // ---- The sizes add up ---------------------------------------------------

  lemma {:induction false} SizesPositive(per: nat, rem: nat, i: nat)
    ensures forall k :: 0 <= k < |Sizes(per, rem, i)| ==> 1 <= Sizes(per, rem, i)[k] <= per + rem
  {
    if i > 0 {
      SizesPositive(per, rem, i - 1);
    }
  }

  lemma SizesFit(l: Level)
    ensures forall k :: 0 <= k < |SizesOf(l)| ==> 1 <= SizesOf(l)[k] < TWO32
  {
    Division(l.total, Slices(l));
    SizesPositive(Share(l), Remainder(l), Slices(l));
  }

  /** k times q, by repeated addition. */
  function Times(q: nat, k: nat): nat
    decreases k
  {
    if k == 0 then 0 else q + Times(q, k - 1)
  }

  lemma {:induction false} TimesIsProduct(q: nat, k: nat)
    ensures Times(q, k) == q * k
    decreases k
  {
    if k > 0 {
      TimesIsProduct(q, k - 1);
    }
  }

  /** With a share of at least one, every slice counts and they make up the whole. */
  lemma {:induction false} SizesFull(per: nat, rem: nat, i: nat)
    requires per >= 1 && i >= 1
    ensures |Sizes(per, rem, i)| == i && Sum(Sizes(per, rem, i)) == Times(per, i) + rem
    decreases i
  {
    var k, q := i - 1, per + if i == 1 then rem else 0;
    SizesNext(per, rem, k, i);
    SumSnoc(Sizes(per, rem, k), q);
    if i > 1 {
      SizesFull(per, rem, k);
    }
  }

  lemma SumSnoc(qs: seq<nat>, q: nat)
    ensures Sum(qs + [q]) == Sum(qs) + q
  {
    assert (qs + [q])[..|qs|] == qs;
  }

  /** With no equal share, only the remainder is left. */
  lemma {:induction false} SizesThin(rem: nat, i: nat)
    requires i >= 1
    ensures Sizes(0, rem, i) == if rem == 0 then [] else [rem]
    decreases i
  {
    if i > 1 {
      SizesThin(rem, i - 1);
    }
  }

  /** A level with at least one share per order keeps its count; a thinner one collapses into one order. */
  lemma SizesAddUp(l: Level)
    ensures Sum(SizesOf(l)) == l.total
    ensures |SizesOf(l)| == if l.total == 0 then 0 else if l.total < Slices(l) then 1 else Slices(l)
  {
    Division(l.total, Slices(l));
    if Share(l) == 0 {
      SizesThin(l.total, Slices(l));
      SumSnoc([], l.total);
      assert [] + [l.total] == [l.total];
    } else {
      SizesFull(Share(l), Remainder(l), Slices(l));
      TimesIsProduct(Share(l), Slices(l));
    }
  }

  lemma {:induction false} SizesEven(per: nat, rem: nat, i: nat, j: nat)
    requires per >= 1 && j < i
    ensures |Sizes(per, rem, i)| == i && Sizes(per, rem, i)[j] == per + if j == 0 then rem else 0
    decreases i
  {
    var k := i - 1;
    SizesNext(per, rem, k, i);
    if j < k {
      SizesEven(per, rem, k, j);
    } else if k > 0 {
      SizesEven(per, rem, k, 0);
    }
  }

  /** A level with at least one share per order is split evenly, and the first order gets what is left over. */
  lemma SlicesExact(l: Level, j: nat)
    requires 1 <= l.count <= l.total && j < l.count
    ensures |SizesOf(l)| == l.count
    ensures SizesOf(l)[j] == l.total / l.count + if j == 0 then l.total % l.count else 0
  {
    Division(l.total, l.count);
    SizesEven(Share(l), Remainder(l), l.count, j);
  }

  /** What one level of a snapshot turns into: nothing if it has no shares, one order if it has fewer shares than
      orders, otherwise the level itself (with at least one order). */
  function Normal(l: Level): Level {
    l.(count := if l.total < Slices(l) then 1 else Slices(l))
  }

  function Install(levels: Levels, l: Level): Levels {
    if l.total == 0 then levels else levels[l.price := Normal(l)]
  }

  lemma AddFirst(b: Book, id: nat, side: byte, price: Price, qty: Quantity)
    requires Ready(b, id) && qty > 0 && price !in SideOf(b, side == BUY)
    ensures Became(b, Add(b, id, side, price, qty, 0), id + 1, side == BUY,
                   SideOf(b, side == BUY)[price := Level(price, qty, 1)])
  {
    AddReady(b, id, side, price, qty);
  }

  lemma BecameThen(b: Book, b1: Book, b2: Book, id1: nat, id2: nat, buy: bool, p: Price, l1: Level, l2: Level)
    requires Became(b, b1, id1, buy, SideOf(b, buy)[p := l1])
    requires Became(b1, b2, id2, buy, SideOf(b1, buy)[p := l2])
    ensures Became(b, b2, id2, buy, SideOf(b, buy)[p := l2])
  {
    assert SideOf(b, buy)[p := l1][p := l2] == SideOf(b, buy)[p := l2];
  }

  ghost predicate Positives(qs: seq<nat>) {
    forall i :: 0 <= i < |qs| ==> qs[i] >= 1
  }

  lemma {:induction false} CountAtMostSum(qs: seq<nat>)
    requires Positives(qs)
    ensures |qs| <= Sum(qs) && forall i :: 0 <= i < |qs| ==> qs[i] <= Sum(qs)
  {
    if qs != [] {
      CountAtMostSum(qs[..|qs| - 1]);
      assert forall i :: 0 <= i < |qs| - 1 ==> qs[i] == qs[..|qs| - 1][i];
    }
  }

  lemma AddAllLast(b: Book, id: nat, side: byte, price: Price, qs: seq<nat>, mid: nat)
    requires qs != [] && mid + 1 == id + |qs| && forall i :: 0 <= i < |qs| ==> qs[i] < TWO32
    ensures AddAll(b, id, side, price, qs) ==
            Add(AddAll(b, id, side, price, qs[..|qs| - 1]), mid, side, price, qs[|qs| - 1], 0)
  {
  }

  /** Orders entered at a new price show up as one level with their sum and number. */
  lemma {:induction false} AllAdded(b: Book, id: nat, side: byte, qs: seq<nat>, next: nat, l: Level)
    requires Ready(b, id) && l.price !in SideOf(b, side == BUY)
    requires qs != [] && Positives(qs) && |qs| <= Sum(qs) < TWO32 && forall i :: 0 <= i < |qs| ==> qs[i] < TWO32
    requires next == id + |qs| && l.total == Sum(qs) && l.count == |qs|
    ensures Became(b, AddAll(b, id, side, l.price, qs), next, side == BUY, SideOf(b, side == BUY)[l.price := l])
    decreases |qs|
  {
    var init, q, mid := qs[..|qs| - 1], qs[|qs| - 1], next - 1;
    AddAllLast(b, id, side, l.price, qs, mid);
    if init == [] {
      AddFirst(b, id, side, l.price, q);
    } else {
      CountAtMostSum(init);
      var l1 := Level(l.price, Sum(init), |init|);
      AllAdded(b, id, side, init, mid, l1);
      AddOneMore(b, AddAll(b, id, side, l.price, init), mid, next, side, l1, q, l);
    }
  }

  lemma AddOneMore(b: Book, b1: Book, id: nat, next: nat, side: byte, l: Level, qty: Quantity, l': Level)
    requires Became(b, b1, id, side == BUY, SideOf(b, side == BUY)[l.price := l])
    requires qty > 0 && l.total > 0 && l.count > 0
    requires next == id + 1 && l'.price == l.price && l'.total == l.total + qty && l'.count == l.count + 1
    ensures Became(b, Add(b1, id, side, l.price, qty, 0), next, side == BUY, SideOf(b, side == BUY)[l.price := l'])
  {
    AddOnLevel(b1, id, side, l, qty);
    BecameThen(b, b1, Add(b1, id, side, l.price, qty, 0), id, next, side == BUY, l.price, l, l');
  }

  lemma LevelInstalled(b: Book, id: nat, side: byte, l: Level)
    requires Ready(b, id) && l.price !in SideOf(b, side == BUY)
    ensures var (b', id') := AddLevel(b, id, side, l);
            Became(b, b', id', side == BUY, Install(SideOf(b, side == BUY), l))
  {
    SizesFit(l);
    SizesAddUp(l);
    if l.total > 0 {
      AllAdded(b, id, side, SizesOf(l), id + |SizesOf(l)|, Normal(l));
    }
  }

  // ---- Whole sides --------------------------------------------------------

  /** The ladder that a list of levels with distinct prices turns into. */
  function Installed(ls: seq<Level>): Levels {
    if ls == [] then map[] else Install(Installed(ls[..|ls| - 1]), ls[|ls| - 1])
  }

  lemma {:induction false} InstalledKeys(ls: seq<Level>, desc: bool)
    requires Sorted(ls, desc)
    ensures forall p :: p in Installed(ls) ==> exists i :: 0 <= i < |ls| && ls[i].price == p
    ensures forall i :: 0 <= i < |ls| ==>
              (ls[i].price in Installed(ls) <==> ls[i].total > 0) &&
              (ls[i].total > 0 ==> Installed(ls)[ls[i].price] == Normal(ls[i]))
    decreases |ls|
  {
    if ls != [] {
      var init, last := ls[..|ls| - 1], ls[|ls| - 1];
      InstalledKeys(init, desc);
      assert forall i :: 0 <= i < |init| ==> init[i] == ls[i] && ls[i].price != last.price;
      forall i | 0 <= i < |ls|
        ensures ls[i].price in Installed(ls) <==> ls[i].total > 0
        ensures ls[i].total > 0 ==> Installed(ls)[ls[i].price] == Normal(ls[i])
      {
        if i < |init| {
          assert ls[i] == init[i];
        }
      }
      forall p | p in Installed(ls)
        ensures exists i :: 0 <= i < |ls| && ls[i].price == p
      {
        if p in Installed(init) {
          var i :| 0 <= i < |init| && init[i].price == p;
          assert ls[i].price == p;
        } else {
          assert ls[|ls| - 1].price == p;
        }
      }
    }
  }

  /** Levels in strict price order rebuild to their installed ladder, leaving the other side alone. */
  lemma {:induction false} SideInstalled(b: Book, id: nat, side: byte, ls: seq<Level>, desc: bool)
    requires Ready(b, id) && SideOf(b, side == BUY) == map[] && Sorted(ls, desc)
    ensures var (b', id') := AddLevels(b, id, side, ls); Became(b, b', id', side == BUY, Installed(ls))
    decreases |ls|
  {
    if ls != [] {
      var init, last := ls[..|ls| - 1], ls[|ls| - 1];
      SideInstalled(b, id, side, init, desc);
      InstalledKeys(init, desc);
      var (b1, id1) := AddLevels(b, id, side, init);
      assert forall i :: 0 <= i < |init| ==> init[i] == ls[i];
      LevelInstalled(b1, id1, side, last);
    }
  }

  /** Whatever the levels, the rebuilt tops are the refreshed ranking of a ladder filed by price. */
  lemma {:induction false} AllReady(b: Book, id: nat, side: byte, price: Price, qs: seq<nat>)
    requires Ready(b, id) && Positives(qs) && forall i :: 0 <= i < |qs| ==> qs[i] < TWO32
    ensures var b' := AddAll(b, id, side, price, qs);
            Ready(b', id + |qs|) && b'.depth == b.depth && SideOf(b', side != BUY) == SideOf(b, side != BUY)
    decreases |qs|
  {
    if qs != [] {
      var init := qs[..|qs| - 1];
      AllReady(b, id, side, price, init);
      AddReady(AddAll(b, id, side, price, init), id + |init|, side, price, qs[|qs| - 1]);
    }
  }

  lemma {:induction false} LevelsReady(b: Book, id: nat, side: byte, ls: seq<Level>)
    requires Ready(b, id)
    ensures var (b', id') := AddLevels(b, id, side, ls);
            Ready(b', id') && b'.depth == b.depth && SideOf(b', side != BUY) == SideOf(b, side != BUY)
    decreases |ls|
  {
    if ls != [] {
      LevelsReady(b, id, side, ls[..|ls| - 1]);
      var (b1, id1) := AddLevels(b, id, side, ls[..|ls| - 1]);
      var l := ls[|ls| - 1];
      SizesFit(l);
      AllReady(b1, id1, side, l.price, SizesOf(l));
    }
  }

  /** A side can be rebuilt faithfully: strict price order, and in every level at least one order and at least
      one share per order. */
  ghost predicate Rebuildable(ls: seq<Level>, desc: bool) {
    Sorted(ls, desc) && forall i :: 0 <= i < |ls| ==> Sound(ls[i])
  }

  lemma SoundIsNormal(l: Level)
    ensures l.total > 0 && Normal(l) == l <==> Sound(l)
  {
  }

  lemma InstalledTop(ls: seq<Level>, desc: bool, depth: nat)
    requires Sorted(ls, desc) && |ls| <= depth
    ensures Keyed(Installed(ls)) && (Top(Installed(ls), desc, depth) == ls <==> Rebuildable(ls, desc))
  {
    InstalledKeys(ls, desc);
    var levels := Installed(ls);
    assert Keyed(levels) by {
      forall p | p in levels
        ensures levels[p].price == p
      {
        var i :| 0 <= i < |ls| && ls[i].price == p;
      }
    }
    if Top(levels, desc, depth) == ls {
      TopSound(levels, desc, depth);
      forall i | 0 <= i < |ls|
        ensures Sound(ls[i])
      {
        assert ls[i].price in levels && levels[ls[i].price] == ls[i];
        SoundIsNormal(ls[i]);
      }
    }
    if Rebuildable(ls, desc) {
      InstalledRanked(ls, desc);
    }
  }

  lemma InstalledRanked(ls: seq<Level>, desc: bool)
    requires Rebuildable(ls, desc) && Keyed(Installed(ls))
    ensures Ranked(Installed(ls), desc) == ls
  {
    InstalledKeys(ls, desc);
    var levels := Installed(ls);
    forall i | 0 <= i < |ls|
      ensures ls[i].price in levels && levels[ls[i].price] == ls[i]
    {
      assert Sound(ls[i]);
      SoundIsNormal(ls[i]);
    }
    forall p | p in levels
      ensures levels[p] in ls
    {
      var i :| 0 <= i < |ls| && ls[i].price == p;
      assert levels[p] == ls[i];
    }
    RankedUnique(levels, desc, ls);
  }

  lemma EmptyReady(depth: nat)
    ensures Ready(Empty(depth), FIRST_SYNTHETIC)
  {
  }

  /** The book rebuilt from a snapshot shows exactly the snapshot's levels, price, total and count, if and only if
      both sides are in strict price order and every level has at least one order and one share per order. */
  lemma RebuildExact(bids: seq<Level>, asks: seq<Level>)
    ensures var b := Rebuilt(bids, asks);
            b.topBids == bids && b.topAsks == asks <==> Rebuildable(bids, true) && Rebuildable(asks, false)
  {
    var depth := Bigger(|bids|, |asks|);
    var b0 := Empty(depth);
    EmptyReady(depth);
    var (b1, id1) := AddLevels(b0, FIRST_SYNTHETIC, BUY, bids);
    var (b2, id2) := AddLevels(b1, id1, SELL, asks);
    LevelsReady(b0, FIRST_SYNTHETIC, BUY, bids);
    LevelsReady(b1, id1, SELL, asks);
    TopSound(b2.bids, true, depth);
    TopSound(b2.asks, false, depth);
    if Sorted(bids, true) && Sorted(asks, false) {
      SideInstalled(b0, FIRST_SYNTHETIC, BUY, bids, true);
      SideInstalled(b1, id1, SELL, asks, false);
      InstalledTop(bids, true, depth);
      InstalledTop(asks, false, depth);
    }
  }

  // ---- When the rebuilt book is a book in step ----------------------------

  /** The shares a list of levels announces for a price. */
  ghost function PriceTotal(ls: seq<Level>, p: Price): nat {
    if ls == [] then 0
    else PriceTotal(ls[..|ls| - 1], p) + if ls[|ls| - 1].price == p then ls[|ls| - 1].total else 0
  }

  ghost function AtPrice(side: byte, price: Price, buy: bool, p: Price, qty: nat): nat {
    if (side == BUY) == buy && price == p then qty else 0
  }

  lemma AddQty(b: Book, id: nat, side: byte, price: Price, qty: Quantity, buy: bool, p: Price)
    requires id !in b.orders && qty > 0
    ensures Qty(Add(b, id, side, price, qty, 0).orders, buy, p) ==
            Qty(b.orders, buy, p) + AtPrice(side, price, buy, p, qty)
  {
    Inserted(b.orders, id, Order(side, price, qty, 0), buy, p);
  }

  /** An add leaves a book in step if its level sums still fit; and if they fit afterwards they fitted before. */
  lemma AddInStep(b: Book, id: nat, side: byte, price: Price, qty: Quantity)
    requires id !in b.orders && qty > 0 && Fits(Add(b, id, side, price, qty, 0).orders)
    ensures Fits(b.orders) && (Refines(b) ==> Refines(Add(b, id, side, price, qty, 0)))
  {
    var b' := Add(b, id, side, price, qty, 0);
    forall buy, p: Price
      ensures Qty(b.orders, buy, p) < TWO32
    {
      AddQty(b, id, side, price, qty, buy, p);
      assert Qty(b'.orders, buy, p) < TWO32;
    }
    if Refines(b) {
      AddRefines(b, id, side, price, qty, 0);
    }
  }

  lemma {:induction false} AllQty(b: Book, id: nat, side: byte, price: Price, qs: seq<nat>, buy: bool, p: Price)
    requires Ready(b, id) && Positives(qs) && forall i :: 0 <= i < |qs| ==> qs[i] < TWO32
    ensures Qty(AddAll(b, id, side, price, qs).orders, buy, p) ==
            Qty(b.orders, buy, p) + AtPrice(side, price, buy, p, Sum(qs))
    decreases |qs|
  {
    if qs != [] {
      var init, mid := qs[..|qs| - 1], id + |qs| - 1;
      AllQty(b, id, side, price, init, buy, p);
      AddAllLast(b, id, side, price, qs, mid);
      AllReady(b, id, side, price, init);
      AddQty(AddAll(b, id, side, price, init), mid, side, price, qs[|qs| - 1], buy, p);
    }
  }

  lemma {:induction false} AllInStep(b: Book, id: nat, side: byte, price: Price, qs: seq<nat>)
    requires Ready(b, id) && Positives(qs) && forall i :: 0 <= i < |qs| ==> qs[i] < TWO32
    requires Refines(b) && Fits(AddAll(b, id, side, price, qs).orders)
    ensures Refines(AddAll(b, id, side, price, qs))
    decreases |qs|
  {
    if qs != [] {
      var init, mid := qs[..|qs| - 1], id + |qs| - 1;
      AddAllLast(b, id, side, price, qs, mid);
      AllReady(b, id, side, price, init);
      AddInStep(AddAll(b, id, side, price, init), mid, side, price, qs[|qs| - 1]);
      AllInStep(b, id, side, price, init);
    }
  }

  lemma {:induction false} LevelsQty(b: Book, id: nat, side: byte, ls: seq<Level>, buy: bool, p: Price)
    requires Ready(b, id)
    ensures Qty(AddLevels(b, id, side, ls).0.orders, buy, p) ==
            Qty(b.orders, buy, p) + if (side == BUY) == buy then PriceTotal(ls, p) else 0
    decreases |ls|
  {
    if ls != [] {
      var init, l := ls[..|ls| - 1], ls[|ls| - 1];
      LevelsQty(b, id, side, init, buy, p);
      LevelsReady(b, id, side, init);
      var (b1, id1) := AddLevels(b, id, side, init);
      LevelQty(b1, id1, side, l, buy, p);
    }
  }

  lemma LevelQty(b: Book, id: nat, side: byte, l: Level, buy: bool, p: Price)
    requires Ready(b, id)
    ensures Qty(AddLevel(b, id, side, l).0.orders, buy, p) ==
            Qty(b.orders, buy, p) + AtPrice(side, l.price, buy, p, l.total)
  {
    SizesFit(l);
    SizesAddUp(l);
    AllQty(b, id, side, l.price, SizesOf(l), buy, p);
  }

  lemma {:induction false} LevelsInStep(b: Book, id: nat, side: byte, ls: seq<Level>)
    requires Ready(b, id) && Refines(b) && Fits(AddLevels(b, id, side, ls).0.orders)
    ensures Refines(AddLevels(b, id, side, ls).0)
    decreases |ls|
  {
    if ls != [] {
      var init, l := ls[..|ls| - 1], ls[|ls| - 1];
      LevelsReady(b, id, side, init);
      var (b1, id1) := AddLevels(b, id, side, init);
      FitsBefore(b1, id1, side, l);
      LevelsInStep(b, id, side, init);
      SizesFit(l);
      AllInStep(b1, id1, side, l.price, SizesOf(l));
    }
  }

  lemma FitsBefore(b: Book, id: nat, side: byte, l: Level)
    requires Ready(b, id) && Fits(AddLevel(b, id, side, l).0.orders)
    ensures Fits(b.orders)
  {
    forall buy, p: Price
      ensures Qty(b.orders, buy, p) < TWO32
    {
      LevelQty(b, id, side, l, buy, p);
      assert Qty(AddLevel(b, id, side, l).0.orders, buy, p) < TWO32;
    }
  }

  /** What rests at a price of the rebuilt book is what the snapshot announces for it. */
  lemma RebuiltQty(bids: seq<Level>, asks: seq<Level>, buy: bool, p: Price)
    ensures Qty(Rebuilt(bids, asks).orders, buy, p) == PriceTotal(if buy then bids else asks, p)
  {
    var b0 := Empty(Bigger(|bids|, |asks|));
    EmptyReady(b0.depth);
    var (b1, id1) := AddLevels(b0, FIRST_SYNTHETIC, BUY, bids);
    LevelsQty(b0, FIRST_SYNTHETIC, BUY, bids, buy, p);
    LevelsReady(b0, FIRST_SYNTHETIC, BUY, bids);
    LevelsQty(b1, id1, SELL, asks, buy, p);
  }

  lemma SideBefore(b: Book, id: nat, side: byte, ls: seq<Level>)
    requires Ready(b, id) && Fits(AddLevels(b, id, side, ls).0.orders)
    ensures Fits(b.orders)
  {
    forall buy, p: Price
      ensures Qty(b.orders, buy, p) < TWO32
    {
      LevelsQty(b, id, side, ls, buy, p);
      assert Qty(AddLevels(b, id, side, ls).0.orders, buy, p) < TWO32;
    }
  }

  lemma RebuiltInStep(bids: seq<Level>, asks: seq<Level>)
    ensures Refines(Rebuilt(bids, asks)) <==> Fits(Rebuilt(bids, asks).orders)
  {
    var b0 := Empty(Bigger(|bids|, |asks|));
    EmptyReady(b0.depth);
    EmptyRefines(b0.depth);
    LevelsReady(b0, FIRST_SYNTHETIC, BUY, bids);
    var (b1, id1) := AddLevels(b0, FIRST_SYNTHETIC, BUY, bids);
    if Fits(Rebuilt(bids, asks).orders) {
      SideBefore(b1, id1, SELL, asks);
      LevelsInStep(b0, FIRST_SYNTHETIC, BUY, bids);
      LevelsInStep(b1, id1, SELL, asks);
    }
    if Refines(Rebuilt(bids, asks)) {
      RefinesFits(Rebuilt(bids, asks));
    }
  }

  ghost predicate TotalsFit(ls: seq<Level>) {
    forall p: Price :: PriceTotal(ls, p) < TWO32
  }

  /** The ladders of a book rebuilt from any lists of levels, in any order and with repeated prices, agree with its
      synthetic orders if and only if no price is given 2^32 shares or more in all. */
  lemma RebuiltRefines(bids: seq<Level>, asks: seq<Level>)
    ensures Refines(Rebuilt(bids, asks)) <==> TotalsFit(bids) && TotalsFit(asks)
  {
    RebuiltInStep(bids, asks);
    var orders := Rebuilt(bids, asks).orders;
    forall buy, p: Price
      ensures Qty(orders, buy, p) == PriceTotal(if buy then bids else asks, p)
    {
      RebuiltQty(bids, asks, buy, p);
    }
    if Fits(orders) {
      assert forall p: Price :: PriceTotal(bids, p) == Qty(orders, true, p);
      assert forall p: Price :: PriceTotal(asks, p) == Qty(orders, false, p);
    }
  }

  lemma {:induction false} AbsentPrice(ls: seq<Level>, p: Price)
    requires forall i :: 0 <= i < |ls| ==> ls[i].price != p
    ensures PriceTotal(ls, p) == 0
    decreases |ls|
  {
    if ls != [] {
      AbsentPrice(ls[..|ls| - 1], p);
    }
  }

  /** In strict price order no price is repeated. */
  lemma {:induction false} SortedFit(ls: seq<Level>, desc: bool)
    requires Sorted(ls, desc)
    ensures TotalsFit(ls)
    decreases |ls|
  {
    if ls != [] {
      var init, l := ls[..|ls| - 1], ls[|ls| - 1];
      SortedFit(init, desc);
      AbsentPrice(init, l.price);
    }
  }

  // ---- The ids of the synthetic orders ------------------------------------

  /** How many orders a level is split into. */
  function Split(l: Level): nat {
    if l.total == 0 then 0 else if l.total < Slices(l) then 1 else Slices(l)
  }

  function SplitAll(ls: seq<Level>): nat {
    if ls == [] then 0 else SplitAll(ls[..|ls| - 1]) + Split(ls[|ls| - 1])
  }

  /** The id after the last one a rebuild uses. */
  function EndOfIds(bids: seq<Level>, asks: seq<Level>): nat {
    FIRST_SYNTHETIC + SplitAll(bids) + SplitAll(asks)
  }

  /** The ids from lo up to hi, beside those there before. */
  ghost predicate IdsAdded(before: Orders, after: Orders, lo: nat, hi: nat) {
    forall k :: k in after <==> k in before || lo <= k < hi
  }

  lemma AddIds(b: Book, id: nat, next: nat, side: byte, price: Price, qty: Quantity)
    requires id !in b.orders && qty > 0 && next == id + 1
    ensures IdsAdded(b.orders, Add(b, id, side, price, qty, 0).orders, id, next)
  {
  }

  lemma IdsChain(a: Orders, b: Orders, c: Orders, lo: nat, mid: nat, hi: nat)
    requires IdsAdded(a, b, lo, mid) && IdsAdded(b, c, mid, hi) && lo <= mid <= hi
    ensures IdsAdded(a, c, lo, hi)
  {
  }

  lemma {:induction false} AllIds(b: Book, id: nat, side: byte, price: Price, qs: seq<nat>, next: nat)
    requires Ready(b, id) && Positives(qs) && (forall i :: 0 <= i < |qs| ==> qs[i] < TWO32) && next == id + |qs|
    ensures IdsAdded(b.orders, AddAll(b, id, side, price, qs).orders, id, next)
    decreases |qs|
  {
    if qs != [] {
      var init, mid := qs[..|qs| - 1], next - 1;
      var b1 := AddAll(b, id, side, price, init);
      AllIds(b, id, side, price, init, mid);
      AddAllLast(b, id, side, price, qs, mid);
      AllReady(b, id, side, price, init);
      AddIds(b1, mid, next, side, price, qs[|qs| - 1]);
      IdsChain(b.orders, b1.orders, AddAll(b, id, side, price, qs).orders, id, mid, next);
    }
  }

  lemma LevelIds(b: Book, id: nat, side: byte, l: Level)
    requires Ready(b, id)
    ensures AddLevel(b, id, side, l).1 == id + Split(l)
    ensures IdsAdded(b.orders, AddLevel(b, id, side, l).0.orders, id, id + Split(l))
  {
    SizesFit(l);
    SizesAddUp(l);
    AllIds(b, id, side, l.price, SizesOf(l), id + Split(l));
  }

  lemma {:induction false} LevelsIds(b: Book, id: nat, side: byte, ls: seq<Level>)
    requires Ready(b, id)
    ensures AddLevels(b, id, side, ls).1 == id + SplitAll(ls)
    ensures IdsAdded(b.orders, AddLevels(b, id, side, ls).0.orders, id, id + SplitAll(ls))
    decreases |ls|
  {
    if ls != [] {
      var init, l := ls[..|ls| - 1], ls[|ls| - 1];
      LevelsIds(b, id, side, init);
      LevelsReady(b, id, side, init);
      var (b1, id1) := AddLevels(b, id, side, init);
      LevelIds(b1, id1, side, l);
      IdsChain(b.orders, b1.orders, AddLevels(b, id, side, ls).0.orders, id, id1, id + SplitAll(ls));
    }
  }

  /** The orders of a rebuilt book have exactly the ids from 2^60 on, one per slice. */
  lemma RebuiltIds(bids: seq<Level>, asks: seq<Level>, id: nat)
    ensures id in Rebuilt(bids, asks).orders <==> 0x1000_0000_0000_0000 <= id < EndOfIds(bids, asks)
  {
    var b0 := Empty(Bigger(|bids|, |asks|));
    EmptyReady(b0.depth);
    LevelsIds(b0, FIRST_SYNTHETIC, BUY, bids);
    LevelsReady(b0, FIRST_SYNTHETIC, BUY, bids);
    var (b1, id1) := AddLevels(b0, FIRST_SYNTHETIC, BUY, bids);
    LevelsIds(b1, id1, SELL, asks);
    IdsChain(b0.orders, b1.orders, Rebuilt(bids, asks).orders, FIRST_SYNTHETIC, id1, EndOfIds(bids, asks));
  }

  // ---- Timestamps ---------------------------------------------------------

  /** Nothing in the book carries a time. */
  ghost predicate Timeless(b: Book) {
    b.lastTs == 0 && forall id :: id in b.orders ==> b.orders[id].ts == 0
  }

  lemma AddTimeless(b: Book, id: nat, side: byte, price: Price, qty: Quantity)
    requires Timeless(b)
    ensures Timeless(Add(b, id, side, price, qty, 0))
  {
  }

  lemma {:induction false} AllTimeless(b: Book, id: nat, side: byte, price: Price, qs: seq<nat>)
    requires Timeless(b) && forall i :: 0 <= i < |qs| ==> qs[i] < TWO32
    ensures Timeless(AddAll(b, id, side, price, qs))
    decreases |qs|
  {
    if qs != [] {
      var init := qs[..|qs| - 1];
      AllTimeless(b, id, side, price, init);
      AddTimeless(AddAll(b, id, side, price, init), id + |init|, side, price, qs[|init|]);
    }
  }

  lemma {:induction false} LevelsTimeless(b: Book, id: nat, side: byte, ls: seq<Level>)
    requires Timeless(b)
    ensures Timeless(AddLevels(b, id, side, ls).0)
    decreases |ls|
  {
    if ls != [] {
      var init, l := ls[..|ls| - 1], ls[|ls| - 1];
      LevelsTimeless(b, id, side, init);
      var (b1, id1) := AddLevels(b, id, side, init);
      SizesFit(l);
      AllTimeless(b1, id1, side, l.price, SizesOf(l));
    }
  }

  /** A rebuilt book and its orders carry the timestamp 0. */
  lemma RebuiltTimeless(bids: seq<Level>, asks: seq<Level>)
    ensures Timeless(Rebuilt(bids, asks))
  {
    var b0 := Empty(Bigger(|bids|, |asks|));
    LevelsTimeless(b0, FIRST_SYNTHETIC, BUY, bids);
    var (b1, id1) := AddLevels(b0, FIRST_SYNTHETIC, BUY, bids);
    LevelsTimeless(b1, id1, SELL, asks);
  }
}
