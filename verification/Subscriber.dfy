/** The receiving end of the book snapshots: whole frames cut out of a byte stream, and the local copy of the
    publisher's books that they rebuild. */
module Subscribers {
  import opened Bytes
  import opened Itch
  import opened Ladder
  import OB = OrderBook
  import opened Routing
  import opened BookSnapshot
  import opened Capture

  datatype LocalBook = LocalBook(bids: seq<Level>, asks: seq<Level>)

  datatype Mirror = Mirror(books: map<SymbolKey, LocalBook>, index: map<SymbolKey, Symbol>, lastSeq: u64, frames: nat)

  const BLANK: Mirror := Mirror(map[], map[], 0, 0)

  // ---- What the subscriber does -------------------------------------------

  function InstallOne(m: Mirror, r: Record): Mirror {
    var k := KeyOf(r.symbol);
    m.(books := m.books[k := LocalBook(r.bids, r.asks)], index := m.index[k := r.symbol])
  }

  function Install(m: Mirror, rs: seq<Record>): Mirror {
    if rs == [] then m else InstallOne(Install(m, rs[..|rs| - 1]), rs[|rs| - 1])
  }

  function Updated(m: Mirror, s: Snapshot): Mirror {
    Install(m, s.records).(lastSeq := s.sequence, frames := m.frames + 1)
  }

  /** The longest body a receiver accepts: 16 MiB. */
  const MAX_BODY: nat := 0x100_0000

  /** Cut the next frame off the bytes that are still to come on a connection; a refused length costs the four
      bytes of its field, and a stream that ends early is used up. */
  function NextFrame(stream: seq<byte>): (Option<seq<byte>>, seq<byte>) {
    if |stream| < 4 then (None, [])
    else
      var n := BodyLength(stream);
      if n == 0 || n > MAX_BODY then (None, stream[4..])
      else if |stream| < 4 + n then (None, [])
      else (Some(stream[..4 + n]), stream[4 + n..])
  }

  /** One receive: the new state, whether a frame was applied, and the rest of the stream. */
  ghost function Receive(m: Mirror, stream: seq<byte>): (Mirror, bool, seq<byte>) {
    var (frame, rest) := NextFrame(stream);
    if frame.None? || Decode(frame.value).None? then (m, false, rest)
    else (Updated(m, Decode(frame.value).value), true, rest)
  }

  // ---- One frame ----------------------------------------------------------

  lemma FrameCut(s: Snapshot, tail: seq<byte>)
    requires |Payload(s)| + 4 < TWO32
    ensures var stream := Frame(s) + tail;
            NextFrame(stream) == if |Payload(s)| + 4 <= MAX_BODY then (Some(Frame(s)), tail) else (None, stream[4..])
  {
    var n := |Payload(s)| + 4;
    SealedParts(Payload(s));
    SplitAt(Frame(s), tail);
  }

  lemma SplitAt(a: seq<byte>, b: seq<byte>)
    requires |a| >= 4
    ensures (a + b)[..4] == a[..4] && (a + b)[..|a|] == a && (a + b)[|a|..] == b
  {
  }

  lemma ReceiveCut(m: Mirror, stream: seq<byte>, frame: seq<byte>, rest: seq<byte>)
    requires NextFrame(stream) == (Some(frame), rest)
    ensures Receive(m, stream) ==
            if Decode(frame).None? then (m, false, rest) else (Updated(m, Decode(frame).value), true, rest)
  {
  }

  lemma ReceiveNothing(m: Mirror, stream: seq<byte>)
    requires NextFrame(stream).0 == None
    ensures Receive(m, stream) == (m, false, NextFrame(stream).1)
  {
  }

  lemma LongCut(stream: seq<byte>, n: nat)
    requires |stream| >= 4 + n && n > MAX_BODY
    ensures |NextFrame(stream).1| > |stream| - 4 - n
  {
  }

  /** A frame whose body a receiver accepts. */
  ghost predicate Acceptable(s: Snapshot) {
    |Payload(s)| + 4 <= 16 * 1024 * 1024
  }

  /** A published frame is applied, and nothing after it touched, if and only if its body is at most 16 MiB; and above
      that, as long as the length field can tell, the local books stay as they were. */
  lemma DeliveredExact(m: Mirror, s: Snapshot, tail: seq<byte>)
    requires AllNarrow(s.records)
    ensures Receive(m, Frame(s) + tail) == (Updated(m, s), true, tail) <==> Acceptable(s)
    ensures !Acceptable(s) && Announceable(s) ==> Receive(m, Frame(s) + tail) == (m, false, (Frame(s) + tail)[4..])
  {
    if Acceptable(s) {
      FrameCut(s, tail);
      ReceiveCut(m, Frame(s) + tail, Frame(s), tail);
      DecodeEncoded(s);
    } else {
      LongCut(Frame(s) + tail, |Payload(s)| + 4);
      ReceiveRest(m, Frame(s) + tail);
      if Announceable(s) {
        FrameCut(s, tail);
        ReceiveNothing(m, Frame(s) + tail);
      }
    }
  }

  lemma ReceiveRest(m: Mirror, stream: seq<byte>)
    ensures Receive(m, stream).2 == NextFrame(stream).1
  {
  }

  // ---- Convergence --------------------------------------------------------

  ghost predicate ShowsAt(m: Mirror, d: Depth, k: SymbolKey)
    requires Wf(d) && k in d.books
  {
    && k in m.books && m.books[k] == LocalBook(Capped(d.books[k].topBids), Capped(d.books[k].topAsks))
    && k in m.index && m.index[k] == d.symbols[k]
  }

  /** Every symbol of the publisher is there, with the best ten levels of each side. */
  ghost predicate Shows(m: Mirror, d: Depth)
    requires Wf(d)
  {
    forall k :: k in d.books ==> ShowsAt(m, d, k)
  }

  /** The local copy shows the publisher's symbols and no others. */
  ghost predicate Mirrors(m: Mirror, d: Depth)
    requires Wf(d)
  {
    m.books.Keys == d.books.Keys && m.index.Keys == d.books.Keys && Shows(m, d)
  }

  lemma ListedSplit(rs: seq<Record>, k: SymbolKey)
    requires rs != []
    ensures Listed(rs, k) <==> Listed(rs[..|rs| - 1], k) || KeyOf(rs[|rs| - 1].symbol) == k
  {
    var init := rs[..|rs| - 1];
    if Listed(init, k) {
      var i :| 0 <= i < |init| && KeyOf(init[i].symbol) == k;
      assert KeyOf(rs[i].symbol) == k;
    }
    if Listed(rs, k) && KeyOf(rs[|rs| - 1].symbol) != k {
      var i :| 0 <= i < |rs| && KeyOf(rs[i].symbol) == k;
      assert KeyOf(init[i].symbol) == k;
    }
  }

  lemma {:induction false} InstallKeys(m: Mirror, rs: seq<Record>, k: SymbolKey)
    ensures k in Install(m, rs).books <==> k in m.books || Listed(rs, k)
    ensures k in Install(m, rs).index <==> k in m.index || Listed(rs, k)
    decreases |rs|
  {
    if rs != [] {
      ListedSplit(rs, k);
      InstallKeys(m, rs[..|rs| - 1], k);
    }
  }

  ghost predicate Distinct(rs: seq<Record>) {
    forall i, j :: 0 <= i < j < |rs| ==> rs[i].symbol != rs[j].symbol
  }

  /** Each record is what its symbol shows afterwards. */
  lemma {:induction false} InstallAt(m: Mirror, rs: seq<Record>, i: nat)
    requires i < |rs| && Distinct(rs)
    ensures var k := KeyOf(rs[i].symbol);
            && k in Install(m, rs).books && Install(m, rs).books[k] == LocalBook(rs[i].bids, rs[i].asks)
            && k in Install(m, rs).index && Install(m, rs).index[k] == rs[i].symbol
    decreases |rs|
  {
    var init, last := rs[..|rs| - 1], rs[|rs| - 1];
    if i < |init| {
      InstallAt(m, init, i);
      if KeyOf(last.symbol) == KeyOf(rs[i].symbol) {
        KeyInjective(last.symbol, rs[i].symbol);
        assert false;
      }
    }
  }

  /** What one symbol shows after a complete frame. */
  lemma InstalledSymbol(m: Mirror, rs: seq<Record>, d: Depth, k: SymbolKey)
    requires Wf(d) && Captures(rs, d.books) && k in d.books
    ensures ShowsAt(Install(m, rs), d, k)
  {
    assert Listed(rs, k);
    var i :| 0 <= i < |rs| && KeyOf(rs[i].symbol) == k;
    InstallAt(m, rs, i);
    KeyInjective(rs[i].symbol, d.symbols[k]);
  }

  /** The keys after a complete frame. */
  lemma InstalledKeys(m: Mirror, rs: seq<Record>, books: map<SymbolKey, OB.Book>)
    requires Captures(rs, books)
    ensures Install(m, rs).books.Keys == m.books.Keys + books.Keys
    ensures Install(m, rs).index.Keys == m.index.Keys + books.Keys
  {
    forall k: SymbolKey
      ensures k in Install(m, rs).books.Keys <==> k in m.books.Keys + books.Keys
      ensures k in Install(m, rs).index.Keys <==> k in m.index.Keys + books.Keys
    {
      InstallKeys(m, rs, k);
    }
  }

  lemma InstalledAll(m: Mirror, rs: seq<Record>, d: Depth)
    requires Wf(d) && Captures(rs, d.books)
    ensures Shows(Install(m, rs), d)
  {
    forall k | k in d.books
      ensures ShowsAt(Install(m, rs), d, k)
    {
      InstalledSymbol(m, rs, d, k);
    }
  }

  lemma UnionWithin<T>(a: set<T>, b: set<T>)
    ensures a + b == b <==> a <= b
  {
    assert a <= a + b;
  }

  lemma ShowsUpdated(m: Mirror, s: Snapshot, d: Depth)
    requires Wf(d)
    ensures Shows(Updated(m, s), d) <==> Shows(Install(m, s.records), d)
  {
    forall k | k in d.books
      ensures ShowsAt(Updated(m, s), d, k) <==> ShowsAt(Install(m, s.records), d, k)
    {
    }
  }

  /** Applying a complete frame makes the local copy a mirror of the book it was taken from if and only if the copy
      did not already hold a symbol which that book does not have. */
  lemma ConvergesExactly(m: Mirror, s: Snapshot, d: Depth)
    requires Wf(d) && Captures(s.records, d.books)
    ensures Mirrors(Updated(m, s), d) <==> m.books.Keys <= d.books.Keys && m.index.Keys <= d.books.Keys
  {
    InstalledKeys(m, s.records, d.books);
    InstalledAll(m, s.records, d);
    ShowsUpdated(m, s, d);
    UnionWithin(m.books.Keys, d.books.Keys);
    UnionWithin(m.index.Keys, d.books.Keys);
  }

  // ---- The code -----------------------------------------------------------

  /** The unread bytes of the connection stand for the socket. */
  class BookSnapshotSubscriber {
    var books: map<SymbolKey, LocalBook>
    var index: map<SymbolKey, Symbol>
    var lastSeq: u64
    var framesApplied: nat
    var stream: seq<byte>

    function View(): Mirror
      reads this
    {
      Mirror(books, index, lastSeq, framesApplied)
    }

    constructor (incoming: seq<byte>)
      ensures View() == BLANK && stream == incoming
    {
      books, index, lastSeq, framesApplied := map[], map[], 0, 0;
      stream := incoming;
    }

    method ReceiveFrame() returns (frame: Option<seq<byte>>)
      modifies this`stream
      ensures (frame, stream) == NextFrame(old(stream))
    {
      var (f, rest) := NextFrame(stream);
      stream := rest;
      return f;
    }

    /** Replace the local state of every symbol the records carry. */
    method InstallRecords(rs: seq<Record>)
      modifies this`books, this`index
      ensures View() == Install(old(View()), rs)
    {
      for i := 0 to |rs|
        invariant View() == Install(old(View()), rs[..i])
      {
        var key := KeyOf(rs[i].symbol);
        books := books[key := LocalBook(rs[i].bids, rs[i].asks)];
        index := index[key := rs[i].symbol];
        assert rs[..i + 1][..i] == rs[..i];
      }
      assert rs[..|rs|] == rs;
    }

    /** The books first, then the sequence number and the frame counter. */
    method ApplyFrame(s: Snapshot)
      modifies this`books, this`index, this`lastSeq, this`framesApplied
      ensures View() == Updated(old(View()), s)
    {
      InstallRecords(s.records);
      lastSeq := s.sequence;
      framesApplied := framesApplied + 1;
    }

    method ReceiveOne() returns (ok: bool)
      modifies this
      ensures (View(), ok, stream) == Receive(old(View()), old(stream))
    {
      var frame := ReceiveFrame();
      if frame.None? {
        return false;
      }
      var s := DecodeSnapshot(frame.value);
      if s.None? {
        return false;
      }
      ApplyFrame(s.value);
      return true;
    }

    /** The local bids and asks of a symbol. */
    method Sides(sym: Symbol) returns (side: Option<LocalBook>)
      ensures side.Some? <==> KeyOf(sym) in books
      ensures side.Some? ==> side.value == books[KeyOf(sym)]
    {
      var key := KeyOf(sym);
      if key !in books {
        return None;
      }
      return Some(books[key]);
    }
  }
}
