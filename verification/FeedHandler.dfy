/** The mutable feed handler: on_datagram and apply_snapshot step by step. */
module FeedHandlers {
  import opened Bytes
  import opened Itch
  import opened Ladder
  import OB = OrderBook
  import opened Routing
  import opened GapDetectors
  import opened Rebuild
  import opened Feed
  import opened SymbolBooks
  import opened DepthBooks
  import Parser

  class FeedHandler {
    const book: DepthBook
    const gap: GapDetector
    var stats: Stats
    const mode: Mode

    function View(): Feed
      reads this, book, gap
    {
      Feed(book.View(), gap.expected, stats)
    }

    ghost predicate Valid()
      reads this, book
    {
      Wf(book.View())
    }

    constructor (depth: nat, mode: Mode)
      ensures Valid() && fresh(book) && fresh(gap) && this.mode == mode
      ensures View() == Start(depth)
    {
      this.mode := mode;
      book := new DepthBook(depth);
      gap := new GapDetector();
      stats := NoStats();
    }

    /** One more synthetic order at the level's price, unless it would be empty. */
    method AddSlice(b: SymbolBook, side: byte, price: Price, q: Quantity, first: nat, synthetic: nat,
                    ghost was: OB.Book, ghost qs: seq<nat>) returns (next: nat)
      requires Below(qs) && synthetic == first + |qs| && b.View() == AddAll(was, first, side, price, qs)
      modifies b
      ensures var qs' := qs + if q == 0 then [] else [q];
              Below(qs') && next == first + |qs'| && b.View() == AddAll(was, first, side, price, qs')
    {
      if q == 0 {
        assert qs + [] == qs;
        return synthetic;
      }
      AddAllSnoc(was, first, side, price, qs, q);
      b.AddOrder(synthetic, side, price, q, 0);
      return synthetic + 1;
    }

    /** Slices of given sizes, as synthetic orders. */
    method AddSlices(b: SymbolBook, side: byte, price: Price, per: nat, rem: nat, cnt: nat, first: nat)
      returns (synthetic: nat)
      requires per + rem < TWO32
      modifies b
      ensures Below(Sizes(per, rem, cnt)) && synthetic == first + |Sizes(per, rem, cnt)|
      ensures b.View() == AddAll(old(b.View()), first, side, price, Sizes(per, rem, cnt))
    {
      ghost var was, qs := b.View(), [];
      synthetic := first;
      for i := 0 to cnt
        invariant qs == Sizes(per, rem, i) && Below(qs) && synthetic == first + |qs|
        invariant b.View() == AddAll(was, first, side, price, qs)
      {
        var q := per + if i == 0 then rem else 0;
        synthetic := AddSlice(b, side, price, q, first, synthetic, was, qs);
        SizesNext(per, rem, i, i + 1);
        qs := qs + if q == 0 then [] else [q];
      }
    }

    /** The slices of one level. */
    method AddLevelSlices(b: SymbolBook, side: byte, l: Level, first: nat) returns (synthetic: nat)
      modifies b
      ensures (b.View(), synthetic) == AddLevel(old(b.View()), first, side, l)
    {
      var cnt: nat, per: nat := Slices(l), Share(l);
      RemainderFits(l);
      synthetic := AddSlices(b, side, l.price, per, Remainder(l), cnt, first);
    }

    method AddSide(b: SymbolBook, side: byte, ls: seq<Level>, first: nat) returns (synthetic: nat)
      modifies b
      ensures (b.View(), synthetic) == AddLevels(old(b.View()), first, side, ls)
    {
      synthetic := first;
      ghost var was := b.View();
      for i := 0 to |ls|
        invariant (b.View(), synthetic) == AddLevels(was, first, side, ls[..i])
      {
        synthetic := AddLevelSlices(b, side, ls[i], synthetic);
        assert ls[..i + 1][..i] == ls[..i];
      }
      assert ls[..|ls|] == ls;
    }

    /** A book filled with the snapshot's levels. */
    method RebuildBook(bids: seq<Level>, asks: seq<Level>) returns (b: OB.Book)
      ensures b == Rebuilt(bids, asks)
    {
      var sb := new SymbolBook(if |bids| > |asks| then |bids| else |asks|);
      var synthetic := AddSide(sb, BUY, bids, FIRST_SYNTHETIC);
      synthetic := AddSide(sb, SELL, asks, synthetic);
      b := sb.View();
    }

    /** Replace the symbol's book by one rebuilt from the snapshot and move the expected number past it. */
    method InstallSnapshot(r: Response)
      requires Valid()
      modifies this, book, gap
      ensures Valid() && View() == ApplySnapshot(old(View()), r)
    {
      var b := RebuildBook(r.bids, r.asks);
      book.Overwrite(r.symbol, b);
      gap.SetExpected(r.loc, Next(r.lastSeq));
      stats := stats.(snapshots := stats.snapshots + 1);
    }

    /** Apply a decoded message, or count a frame that did not parse. */
    method Conclude(p: Parser.ParseResult) returns (ok: bool)
      requires Valid() && (p.message.Some? <==> p.status == Parser.Ok)
      modifies this, book
      ensures Valid() && (View(), ok) == Concluded(old(View()), p)
    {
      if p.status != Parser.Ok {
        stats := stats.(parseErrors := stats.parseErrors + 1);
        return false;
      }
      var changed := book.ApplyMessage(p.message.value);
      if changed {
        stats := stats.(applied := stats.applied + 1, byType := Tally(stats.byType, p.message.value.body));
      }
      return true;
    }

    /** Decode the ITCH frame and apply it to the book. */
    method Process(body: seq<byte>) returns (ok: bool)
      requires Valid()
      modifies this, book
      ensures Valid() && (View(), ok) == DecodeAndApply(old(View()), body)
    {
      ok := Conclude(Parser.Decode(body));
    }

    /** Ask for a snapshot and install it; the verdict says whether it already covers the datagram. */
    method RecoverGap(loc: u16, num: u64, reply: Option<Response>) returns (verdict: Verdict)
      requires Valid()
      modifies this, book, gap
      ensures Valid()
      ensures var f := old(View());
              var f1 := f.(stats := f.stats.(requested := f.stats.requested + 1));
              && View() == (if reply.None? then f1 else ApplySnapshot(f1, reply.value))
              && verdict == if reply.None? then Blocked
                            else if num < Lookup(gap.expected, loc) then CoveredBySnapshot else Pass
    {
      stats := stats.(requested := stats.requested + 1);
      if reply.None? {
        return Blocked;
      }
      InstallSnapshot(reply.value);
      return if num < gap.ExpectedFor(loc) then CoveredBySnapshot else Pass;
    }

    /** Deal with a gap according to the mode. */
    method AtGap(loc: u16, num: u64, reply: Option<Response>) returns (verdict: Verdict)
      requires Valid() && loc in gap.expected && gap.expected[loc] < num
      modifies this, book, gap
      ensures Valid()
      ensures var f, a := old(View()), Arrival(loc, num, reply);
              && verdict == Gate(f.expected, mode, a).verdict
              && View().book == Gated(f, mode, a).book && View().stats == Gated(f, mode, a).stats
              && Gated(f, mode, a).expected ==
                 if verdict == Pass then Advance(gap.expected, loc, num) else gap.expected
    {
      GatedAtGap(View(), mode, Arrival(loc, num, reply));
      stats := stats.(gaps := stats.gaps + 1);
      if mode == Recover {
        verdict := RecoverGap(loc, num, reply);
      } else if mode == Skip {
        gap.SetExpected(loc, num);
        verdict := Pass;
      } else {
        verdict := Blocked;
      }
    }

    /** The gap check of on_datagram. */
    method Check(loc: u16, num: u64, reply: Option<Response>) returns (verdict: Verdict)
      requires Valid()
      modifies this, book, gap
      ensures Valid() && View() == Gated(old(View()), mode, Arrival(loc, num, reply))
      ensures verdict == Gate(old(gap.expected), mode, Arrival(loc, num, reply)).verdict
    {
      verdict := Pass;
      var o := gap.Observe(loc, num);
      if o.Stale? {
        stats := stats.(stale := stats.stale + 1);
        return TooOld;
      }
      if o.Gap? {
        verdict := AtGap(loc, num, reply);
      }
      if verdict == Pass && gap.ExpectedFor(loc) <= num {
        gap.SetExpected(loc, Next(num));
      }
    }

    method HandleDatagram(dg: Datagram) returns (ok: bool)
      requires Valid()
      modifies this, book, gap
      ensures Valid() && (View(), ok) == OnDatagram(old(View()), mode, dg)
    {
      stats := stats.(bytesIn := stats.bytesIn + |dg.data|, datagrams := stats.datagrams + 1);
      if |dg.data| < HEADER + 2 {
        stats := stats.(parseErrors := stats.parseErrors + 1);
        return false;
      }
      var loc, num := LocateOf(dg.data), NumberOf(dg.data);
      if num != 0 {
        var verdict := Check(loc, num, dg.reply);
        if verdict == TooOld || verdict == Blocked {
          return false;
        }
        if verdict == CoveredBySnapshot {
          return true;
        }
      }
      ok := Process(dg.data[HEADER..]);
    }
  }

  ghost predicate Below(qs: seq<nat>) {
    forall k :: 0 <= k < |qs| ==> qs[k] < TWO32
  }
}
