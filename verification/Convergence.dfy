/** Subscribers end up with the publisher's books: the snapshot protocol from the applied messages to the local copy. */
module Convergence {
  import opened Bytes
  import opened Itch
  import opened Ladder
  import opened Routing
  import opened BookSnapshot
  import opened Capture
  import opened Subscribers
  import opened PublishRuns
  import opened PublishSafety
  import OB = OrderBook

  // ---- Symbols are never removed ------------------------------------------

  lemma {:induction false} KeysGrow(depth: nat, applied: seq<Message>, past: seq<Depth>, i: nat, j: nat)
    requires Replayed(depth, applied, past) && i <= j <= |applied|
    ensures past[i].books.Keys <= past[j].books.Keys
    decreases j
  {
    if i < j {
      var k := j - 1;
      KeysGrow(depth, applied, past, i, k);
      assert Follows(past[k], applied[k], past[k + 1]);
      ApplyLocal(past[k], applied[k]);
    }
  }

  // ---- Reading a stream ---------------------------------------------------

  /** The publications show ever later books with ever more symbols. */
  ghost predicate Readable(log: seq<Publication>, past: seq<Depth>) {
    && AllFaithful(log, past)
    && (forall i :: 0 <= i < |past| ==> Wf(past[i]))
    && (forall i, j :: 0 <= i <= j < |log| ==> past[log[i].prefix].books.Keys <= past[log[j].prefix].books.Keys)
  }

  /** A local copy that holds no symbol unknown to a book. */
  ghost predicate Inside(m: Mirror, d: Depth) {
    m.books.Keys <= d.books.Keys && m.index.Keys <= d.books.Keys
  }

  /** The local copy of a subscriber that has applied the publications from first up to j. */
  ghost function Local(log: seq<Publication>, first: nat, j: nat): Mirror
    requires j <= |log|
  {
    if j <= first then BLANK else Updated(Local(log, first, j - 1), log[j - 1].snap)
  }

  lemma {:induction false} LocalFrames(log: seq<Publication>, first: nat, j: nat)
    requires first <= j <= |log|
    ensures Local(log, first, j).frames == j - first
    decreases j
  {
    if j > first {
      var k := j - 1;
      LocalFrames(log, first, k);
      InstallFrames(Local(log, first, k), log[k].snap.records);
    }
  }

  lemma {:induction false} InstallFrames(m: Mirror, rs: seq<Record>)
    ensures Install(m, rs).frames == m.frames
    decreases |rs|
  {
    if rs != [] {
      InstallFrames(m, rs[..|rs| - 1]);
    }
  }

  /** The local copy mirrors what publication j shows. */
  ghost predicate Caught(m: Mirror, log: seq<Publication>, past: seq<Depth>, j: nat)
    requires j < |log| && log[j].prefix < |past| && Wf(past[log[j].prefix])
  {
    Mirrors(m, past[log[j].prefix]) && m.lastSeq == (j + 1) % TWO64
  }

  lemma PublicationReadable(log: seq<Publication>, past: seq<Depth>, i: nat)
    requires Readable(log, past) && i < |log|
    ensures Faithful(log[i], i, past) && Wf(past[log[i].prefix])
  {
  }

  lemma LocalNext(log: seq<Publication>, first: nat, k: nat, j: nat)
    requires first <= k && j == k + 1 && j <= |log|
    ensures Local(log, first, j) == Updated(Local(log, first, k), log[k].snap)
  {
  }

  lemma LocalStart(log: seq<Publication>, first: nat, d: Depth)
    requires first <= |log|
    ensures Inside(Local(log, first, first), d)
  {
  }

  /** Before publication k a subscriber holds no symbol that the book it shows does not have. */
  lemma {:induction false} LocalInside(log: seq<Publication>, past: seq<Depth>, first: nat, k: nat)
    requires Readable(log, past) && first <= k < |log|
    ensures Inside(Local(log, first, k), past[log[k].prefix])
    decreases k
  {
    if first == k {
      LocalStart(log, first, past[log[k].prefix]);
    } else {
      var i := k - 1;
      LocalInside(log, past, first, i);
      PublicationReadable(log, past, i);
      LocalCaught(log, past, first, i, k);
      InsideLater(Local(log, first, k), log, past, i, k);
    }
  }

  /** After it, the local copy mirrors that book. */
  lemma LocalCaught(log: seq<Publication>, past: seq<Depth>, first: nat, k: nat, j: nat)
    requires first <= k && j == k + 1 && j <= |log| && Faithful(log[k], k, past) && Wf(past[log[k].prefix])
    requires Inside(Local(log, first, k), past[log[k].prefix])
    ensures Caught(Local(log, first, j), log, past, k)
  {
    LocalNext(log, first, k, j);
    UpdatedCaught(Local(log, first, k), log, past, k);
  }

  lemma InsideLater(m: Mirror, log: seq<Publication>, past: seq<Depth>, k: nat, j: nat)
    requires Readable(log, past) && k <= j < |log| && Faithful(log[k], k, past) && Caught(m, log, past, k)
    ensures Inside(m, past[log[j].prefix])
  {
    assert past[log[k].prefix].books.Keys <= past[log[j].prefix].books.Keys;
  }

  lemma UpdatedCaught(m: Mirror, log: seq<Publication>, past: seq<Depth>, j: nat)
    requires j < |log| && Faithful(log[j], j, past) && Wf(past[log[j].prefix]) && Inside(m, past[log[j].prefix])
    ensures Caught(Updated(m, log[j].snap), log, past, j)
  {
    ConvergesExactly(m, log[j].snap, past[log[j].prefix]);
  }

  /** Receiving publication j, whatever follows it. */
  lemma ReceiveNext(log: seq<Publication>, past: seq<Depth>, first: nat, j: nat, tail: seq<byte>)
    requires Readable(log, past) && first <= j < |log|
    ensures Receive(Local(log, first, j), log[j].frame + tail) == (Local(log, first, j + 1), true, tail) <==>
            Acceptable(log[j].snap)
    ensures !Acceptable(log[j].snap) && Announceable(log[j].snap) ==>
              Receive(Local(log, first, j), log[j].frame + tail) ==
              (Local(log, first, j), false, (log[j].frame + tail)[4..])
    ensures AllFaithful(log, past) && Caught(Local(log, first, j + 1), log, past, j)
  {
    PublicationReadable(log, past, j);
    LocalInside(log, past, first, j);
    LocalCaught(log, past, first, j, j + 1);
    LocalNext(log, first, j, j + 1);
    CopiesNarrow(log[j].snap.records, past[log[j].prefix].books);
    DeliveredExact(Local(log, first, j), log[j].snap, tail);
  }

  /** The bytes of a connection that are still unread when the publications before j have been read. */
  ghost function Unread(l: Link, log: seq<Publication>, j: nat): seq<byte>
    requires Consecutive(l, log) && l.joined <= j <= l.joined + l.whole
  {
    StreamSplit(log, l.joined, j, l.joined + l.whole);
    l.bytes[|Stream(log, l.joined, j)|..]
  }

  lemma UnreadFront(l: Link, log: seq<Publication>, j: nat)
    requires Consecutive(l, log) && l.joined <= j < l.joined + l.whole
    ensures Unread(l, log, j) == log[j].frame + Unread(l, log, j + 1)
  {
    StreamSplit(log, l.joined, j + 1, l.joined + l.whole);
    var a, f := Stream(log, l.joined, j), log[j].frame;
    assert Stream(log, l.joined, j + 1) == a + f;
    DropTwice(l.bytes, a, f);
  }

  lemma DropTwice(bytes: seq<byte>, a: seq<byte>, f: seq<byte>)
    requires a + f <= bytes
    ensures bytes[|a|..] == f + bytes[|a + f|..]
  {
  }

  lemma {:induction false} StreamSplit(log: seq<Publication>, first: nat, mid: nat, last: nat)
    requires first <= mid <= last <= |log|
    ensures Stream(log, first, mid) <= Stream(log, first, last)
    decreases last
  {
    if mid < last {
      StreamSplit(log, first, mid, last - 1);
    }
  }

  /** The local copy mirrors the book after the messages that publication j reflects, under that publication's
      sequence number. */
  ghost predicate InStep(m: Mirror, s: System, j: nat)
    requires j < |s.log|
  {
    && s.log[j].prefix <= |s.applied| && m.lastSeq == (j + 1) % TWO64
    && Mirrors(m, Run(Fresh(s.depth), s.applied[..s.log[j].prefix]))
  }

  lemma CaughtInStep(m: Mirror, s: System, j: nat)
    requires Truthful(s) && j < |s.log| && Faithful(s.log[j], j, s.past) && Caught(m, s.log, s.past, j)
    ensures InStep(m, s, j)
  {
    PastIsRun(s.depth, s.applied, s.past, s.log[j].prefix);
  }

  /** The next receive of a subscriber that has applied the publications before j: what it does, and when it
      succeeds. */
  ghost predicate ReceivesInStep(s: System, l: Link, j: nat)
    requires Consecutive(l, s.log) && l.joined <= j < l.joined + l.whole
  {
    var before, after := Local(s.log, l.joined, j), Local(s.log, l.joined, j + 1);
    && InStep(after, s, j)
    && (Receive(before, Unread(l, s.log, j)) == (after, true, Unread(l, s.log, j + 1)) <==> Acceptable(s.log[j].snap))
    && (!Acceptable(s.log[j].snap) && Announceable(s.log[j].snap) ==>
          Receive(before, Unread(l, s.log, j)).0 == before && !Receive(before, Unread(l, s.log, j)).1)
  }

  lemma SafeConverges(s: System, l: Link, j: nat)
    requires Inv(s) && Truthful(s)
    requires Consecutive(l, s.log) && l.joined <= j < l.joined + l.whole
    ensures ReceivesInStep(s, l, j)
  {
    AllReadable(s);
    PublicationReadable(s.log, s.past, j);
    ReceiveNext(s.log, s.past, l.joined, j, Unread(l, s.log, j + 1));
    UnreadFront(l, s.log, j);
    CaughtInStep(Local(s.log, l.joined, j + 1), s, j);
  }

  /** For every connection that was ever accepted, in every reachable state: a subscriber starts with nothing and all
      bytes unread. The receive after the publications before j applies publication j, in order and without a gap, if
      and only if the body of its frame is at most 16 MiB; a larger one leaves the local copy as it was, as long as the
      length field can tell its size. After applying it the subscriber holds exactly the publisher's symbols after the
      prefix of the messages which that frame shows, with the best ten levels of each side. */
  lemma SubscribersConverge(s: System, c: nat, j: nat)
    requires Reachable(s) && c in s.links
    requires s.links[c].joined <= j < s.links[c].joined + s.links[c].whole
    ensures Consecutive(s.links[c], s.log) && ReceivesInStep(s, s.links[c], j)
    ensures var l := s.links[c]; Local(s.log, l.joined, l.joined) == BLANK && Unread(l, s.log, l.joined) == l.bytes
    ensures var l := s.links[c]; Local(s.log, l.joined, j).frames == j - l.joined
  {
    ReachableSafe(s);
    SafeConverges(s, s.links[c], j);
    LocalFrames(s.log, s.links[c].joined, j);
  }

  /** What Readable asks of two publications. */
  lemma LaterKeys(depth: nat, applied: seq<Message>, past: seq<Depth>, p: Publication, q: Publication)
    requires Replayed(depth, applied, past) && p.prefix <= q.prefix < |past|
    ensures past[p.prefix].books.Keys <= past[q.prefix].books.Keys
  {
    KeysGrow(depth, applied, past, p.prefix, q.prefix);
  }

  lemma LogGrows(depth: nat, applied: seq<Message>, past: seq<Depth>, log: seq<Publication>)
    requires Replayed(depth, applied, past) && Ordered(log, |applied|)
    ensures forall i, j :: 0 <= i <= j < |log| ==> past[log[i].prefix].books.Keys <= past[log[j].prefix].books.Keys
  {
    forall i, j | 0 <= i <= j < |log|
      ensures past[log[i].prefix].books.Keys <= past[log[j].prefix].books.Keys
    {
      LaterKeys(depth, applied, past, log[i], log[j]);
    }
  }

  lemma AllReadable(s: System)
    requires Inv(s) && Truthful(s)
    ensures Readable(s.log, s.past)
  {
    LogGrows(s.depth, s.applied, s.past, s.log);
  }

  // ---- How many symbols always fit ----------------------------------------

  lemma {:induction false} RecordsSize(rs: seq<Record>)
    requires AllNarrow(rs)
    ensures |RecordsThen(rs, [])| <= 250 * |rs|
    decreases |rs|
  {
    if rs != [] {
      RecordsSize(rs[1..]);
      RecordSize(rs[0], RecordsThen(rs[1..], []));
    }
  }

  lemma RecordSize(r: Record, tail: seq<byte>)
    requires Narrow(r)
    ensures |RecordThen(r, tail)| <= 250 + |tail|
  {
  }

  /** Distinct symbols with keys in a set are at most as many. */
  lemma {:induction false} AtMostKeys(rs: seq<Record>, keys: set<SymbolKey>)
    requires Distinct(rs) && forall i :: 0 <= i < |rs| ==> KeyOf(rs[i].symbol) in keys
    ensures |rs| <= |keys|
    decreases |rs|
  {
    if rs != [] {
      var init, last := rs[..|rs| - 1], rs[|rs| - 1];
      forall i | 0 <= i < |init|
        ensures KeyOf(init[i].symbol) in keys - {KeyOf(last.symbol)}
      {
        if KeyOf(rs[i].symbol) == KeyOf(last.symbol) {
          KeyInjective(rs[i].symbol, last.symbol);
        }
      }
      AtMostKeys(init, keys - {KeyOf(last.symbol)});
    }
  }

  /** With this many symbols every frame stays within what a receiver accepts, however full the books are. */
  const SYMBOL_LIMIT: nat := 67_108

  lemma FrameFits(s: Snapshot, books: map<SymbolKey, OB.Book>)
    requires Captures(s.records, books) && |books.Keys| <= SYMBOL_LIMIT
    ensures Acceptable(s)
  {
    CopiesNarrow(s.records, books);
    RecordsSize(s.records);
    AtMostKeys(s.records, books.Keys);
  }

  lemma {:induction false} FewerKeys(a: set<SymbolKey>, b: set<SymbolKey>)
    requires a <= b
    ensures |a| <= |b|
    decreases a
  {
    if a != {} {
      var k :| k in a;
      FewerKeys(a - {k}, b - {k});
    }
  }

  /** So while the publisher has no more symbols than that, no receive fails. */
  lemma FewSymbolsReceived(s: System, j: nat)
    requires Reachable(s) && j < |s.log| && |s.book.books.Keys| <= SYMBOL_LIMIT
    ensures Acceptable(s.log[j].snap)
  {
    ReachableSafe(s);
    var p := s.log[j];
    assert Faithful(p, j, s.past);
    KeysGrow(s.depth, s.applied, s.past, p.prefix, |s.applied|);
    FewerKeys(s.past[p.prefix].books.Keys, s.book.books.Keys);
    FrameFits(p.snap, s.past[p.prefix].books);
  }

  function Shown(depth: nat): nat {
    if depth < 10 then depth else 10
  }

  /** A mirror of a book that agrees with its orders shows, of each side, the best min(10, depth) price levels, each
      with the shares and the number of orders that rest there. */
  lemma MirrorShowsOrders(m: Mirror, d: Depth, k: SymbolKey)
    requires Wf(d) && Mirrors(m, d) && k in d.books && OB.Refines(d.books[k])
    ensures var b, local := d.books[k], m.books[k];
            && local.bids == Top(b.bids, true, Shown(b.depth)) && OB.SideRefines(b.bids, b.orders, true)
            && local.asks == Top(b.asks, false, Shown(b.depth)) && OB.SideRefines(b.asks, b.orders, false)
  {
    assert ShowsAt(m, d, k);
    CappedTop(d.books[k].bids, true, d.books[k].depth);
    CappedTop(d.books[k].asks, false, d.books[k].depth);
  }
}
