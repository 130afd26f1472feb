/** capture_book_snapshot: the best ten levels of both sides of every symbol, the symbols in any order. */
module Capture {
  import opened Bytes
  import opened Itch
  import opened Ladder
  import opened Routing
  import opened BookSnapshot
  import OB = OrderBook
  import DepthBooks

  function Capped(ls: seq<Level>): (r: seq<Level>)
    ensures |r| <= MAX_LEVELS
  {
    if |ls| <= MAX_LEVELS then ls else ls[..MAX_LEVELS]
  }

  function RecordOf(symbol: Symbol, b: OB.Book): (r: Record)
    ensures Narrow(r)
  {
    Record(symbol, Capped(b.topBids), Capped(b.topAsks))
  }

  ghost predicate Listed(rs: seq<Record>, k: SymbolKey) {
    exists i :: 0 <= i < |rs| && KeyOf(rs[i].symbol) == k
  }

  /** The records are those of the books, one for every symbol. */
  ghost predicate Captures(rs: seq<Record>, books: map<SymbolKey, OB.Book>) {
    && Copies(rs, books)
    && (forall k :: k in books ==> Listed(rs, k))
    && (forall i, j :: 0 <= i < j < |rs| ==> rs[i].symbol != rs[j].symbol)
  }

  ghost predicate Copies(rs: seq<Record>, books: map<SymbolKey, OB.Book>) {
    forall i :: 0 <= i < |rs| ==>
      KeyOf(rs[i].symbol) in books && rs[i] == RecordOf(rs[i].symbol, books[KeyOf(rs[i].symbol)])
  }

  method CopyOut(list: seq<Symbol>, books: map<SymbolKey, OB.Book>) returns (rs: seq<Record>)
    requires forall i :: 0 <= i < |list| ==> KeyOf(list[i]) in books
    ensures Copies(rs, books) && |rs| == |list| && forall i :: 0 <= i < |rs| ==> rs[i].symbol == list[i]
  {
    rs := [];
    for i := 0 to |list|
      invariant Copies(rs, books) && |rs| == i
      invariant forall j :: 0 <= j < i ==> rs[j].symbol == list[j]
    {
      var r := RecordOf(list[i], books[KeyOf(list[i])]);
      rs := rs + [r];
    }
  }

  lemma CopiedAll(rs: seq<Record>, list: seq<Symbol>, d: Depth)
    requires Wf(d) && Enumerates(list, d.symbols) && Copies(rs, d.books)
    requires |rs| == |list| && forall i :: 0 <= i < |rs| ==> rs[i].symbol == list[i]
    ensures Captures(rs, d.books)
  {
    forall k | k in d.books
      ensures Listed(rs, k)
    {
      var i :| 0 <= i < |list| && list[i] == d.symbols[k];
      assert KeyOf(rs[i].symbol) == k;
    }
  }

  lemma CopiesNarrow(rs: seq<Record>, books: map<SymbolKey, OB.Book>)
    requires Copies(rs, books)
    ensures AllNarrow(rs)
  {
    forall i | 0 <= i < |rs|
      ensures Narrow(rs[i])
    {
      var r := RecordOf(rs[i].symbol, books[KeyOf(rs[i].symbol)]);
      assert Narrow(r);
    }
  }

  /** Copy every symbol's best levels out of the book. */
  method CaptureSnapshot(book: DepthBooks.DepthBook, sequence: u64) returns (s: Snapshot)
    requires Wf(book.View())
    ensures s.sequence == sequence && Captures(s.records, book.books)
  {
    var list := book.AllSymbols();
    var rs := CopyOut(list, book.books);
    CopiedAll(rs, list, book.View());
    s := Snapshot(sequence, rs);
  }

  /** Cutting a top list to ten levels gives the ladder's best min(10, depth) levels. */
  lemma CappedTop(levels: Levels, desc: bool, depth: nat)
    ensures Capped(Top(levels, desc, depth)) == Top(levels, desc, if depth < MAX_LEVELS then depth else MAX_LEVELS)
  {
  }
}
