# Verified model of the market-data feed handler

This project models, in Dafny, the logic of a NASDAQ TotalView-ITCH 5.0 feed handler: the order books and their
price ladders, the sequence-gap protocol with its three modes, snapshot recovery, the wire codecs, the book-snapshot
publisher and its subscribers, the message generator, the latency histogram and the IPv4 header checksum. It proves
what these promise, over all inputs, all runs and all thread interleavings.

`dafny verify dfyconfig.toml` checks everything.

## How it is laid out

| modules | what they hold |
|---|---|
| `Bytes`, `Itch`, `MapTotals` | integers on the wire, ITCH messages, sums over maps |
| `Ladder`, `OrderBook`, `TopOfBook`, `SymbolBooks` | one symbol: the ranking of a ladder, the book as a value with its refinement proof, what its top lists say, and the mutable class |
| `Routing`, `RoutingRuns`, `StateChange`, `MessageEffects`, `MarketRuns`, `DepthBooks` | all symbols: routing of id-only messages, invariants and conservation over runs, what changes nothing, what each message does to the orders, and the mutable class |
| `Parser`, `ItchLayout` | ITCH frames: encoder, decoder, streams; the frames byte by byte |
| `GapDetectors`, `GateRuns` | sequence tracking and the three gap modes over every arrival order |
| `LevelWire`, `RecoveryWire`, `WireLayout`, `Rebuild` | the TCP recovery frames, these and the book snapshots byte by byte, and the rebuilding of a book from aggregated levels |
| `Feed`, `FeedRuns`, `FeedEvents`, `FeedCounters`, `FeedHandlers` | the feed handler as a state machine, its runs with snapshots, what reaches the book, the counters, and the class |
| `Generator`, `EndToEnd`, `GeneratorWire` | the message generator, the theorem that the handler follows it, and the datagrams in bytes |
| `Crc32`, `CrcStandard`, `CrcTail`, `BookSnapshot`, `MissedFrames`, `Capture` | CRC-32, its standard definition and what it detects, the book-snapshot codec, the change it misses, taking a snapshot |
| `Subscribers`, `Publishers`, `PublishRuns`, `PublishSafety`, `PublishPace`, `Convergence` | the two-thread publish protocol from the applied messages to the subscriber's copy |
| `Histograms`, `IpChecksum` | the log-linear histogram, the header checksum |

Code that updates fields in place is modelled by classes whose methods are proved equal to functions on values
(`View()` gives the value of an object). The theorems about runs are about those functions. Clocks, random draws, the
answer of the recovery server, the success of a send and the order in which an unordered map is walked are inputs and
range over everything.

## Main results

- **Ladders.** Order map, ladders and top lists agree at every point of a run exactly when no price level reaches
  2^32 shares on the way (`RefinementExact`, `DepthRefinementExact`); `OverflowBreaks` shows a book that fails.
- **Routing and conservation.** Every live order stays routed to the one book that holds it exactly when no id comes in
  while it is live under another symbol (`RoutingExact`); shares are conserved, also as read off the ladders.
- **Messages.** What each message does is stated on its fields; all books together hold one flat table of orders changed
  by these rules over every run without an id clash (`MarketRun`), and a clash is the only thing that breaks it
  (`ClashFreeExact`). The top lists show the best bids and asks of that table (`TopsExact`).
- **Gap protocol.** In all modes and for every arrival order the numbers of a locate are tiled by what was decoded,
  skipped, covered by a snapshot or lost (`Tiling`, `ExactlyOneFate`), from which stall contiguity, skip accounting and
  the exact condition for complete recovery follow (`RecoveryExact`). Two things can wind a locate back, and only these
  (`GateLowersExactly`). In stall mode the book of a one-locate stream depends on nothing but the numbers it covers
  (`StallBookExact`).
- **Recovery.** A book's levels survive the wire and the split into synthetic orders (`RecoveryRoundTrip`); the exact
  class of snapshots for which this works is `RebuildExact`. Over all runs of the handler that apply messages and install
  snapshots, the books stay in step exactly when no level reaches 2^32 shares (`FeedRefinementExact`).
- **Handler.** In every mode the book is the replay of the installed snapshots and the messages of the datagrams that pass
  (`BookIsReplay`), for each locate those sent under the numbers that pass (`ToldIsSent`); the counters are those of this
  list (`CountersRun`), and every datagram is accounted for (`DatagramsConserved`).
- **End to end.** For every sequence of generator draws the handler sees no gap, stale number or parse error, and its
  live orders are the generator's (`LosslessRun`).
- **Codecs.** Round trips both ways for ITCH frames and streams, recovery frames and book snapshots, with the exact
  conditions, and each format byte by byte (`DecodeLayout`, `RecoveryLayout`, `SnapshotLayout`). The table-driven CRC is
  the remainder of the standard's polynomial division (`CrcIsDivision`) and finds every burst of up to 32 bits. Of the
  changes of up to four bytes that reach into the CRC field it misses exactly one pattern (`StraddleExact`), which the
  decoder accepts exactly if the snapshot ends in an ask level (`StraddleDecoded`).
- **Publish protocol.** Under every interleaving each frame shows a prefix of the applied messages, prefixes never
  shrink, the publisher never holds the lock during a send, and a subscriber that reads its stream holds its books
  (`FramesArePrefixes`, `NeverHeldWhileSending`, `SubscribersConverge`). Frames are published exactly at the decisions that
  meet a trigger and keep up with messages and clock (`FramesExact`, `FramesKeepUp`).
- **Histogram and checksum.** The exact set of samples for which the 1/64 error bound holds, the exact condition for
  percentiles of every list of samples, merging; a range with its checksum inserted checks to zero.

## Where the code and its documents differ

The model follows the code.

- docs/gap-fill-recovery.md:66 says that the empty answer for an unknown locate leaves the book unchanged; `apply_snapshot`
  (src/core/feed_handler.cpp:129-176) always installs what it is given. `EmptyAnswerExact` gives the exact condition,
  `BlankAnswerPasses` a case.
- src/recovery/gap_detector.h:22-24 describes results of `observe` as an absent value; the code returns flags.
- src/obs/histogram.h:9-10 promises 64 sub-buckets per power of two; the values 64..127 are filed among the small ones
  (src/obs/histogram.cpp:26-49), see `MisfiledBreaks` and `PercentileFails`.
- src/core/depth_book.h:122-124 says that `apply` returns true if the message produced any state change; it does so for
  every add, also one that changes nothing (src/core/depth_book.cpp:239-252). `StateChangeExact` says exactly when the whole
  state stays as it was, `ReportExact` when the orders do; `IgnoredAddReported` and `ZeroShareAddChanges` are cases.

## Model

| member | source | states |
|---|---|---|
| `Bytes.TakePut` | src/core/parser.cpp:9-58 | reading back n big-endian bytes gives the number modulo 256^n |
| `Bytes.PutTake` | src/core/parser.cpp:9-58 | writing the number that n bytes spell gives the same bytes |
| `Itch.KeyInjective` | src/core/depth_book.h:55-61 | two symbols with the same key are the same symbol |
| `Ladder.RankedSound` | src/core/depth_book.cpp:62-80 | a ladder's iteration order lists all its levels, and nothing else, in strict price order |
| `Ladder.RankedUnique` | src/core/depth_book.cpp:62-80 | it is the only strictly ordered list of exactly those levels |
| `Ladder.TopSound` | src/core/depth_book.cpp:62-80 | the top list is sorted, holds min(size, depth) levels of the ladder, and every level left out is beaten by all of them |
| `OrderBook.OrdersTrackNaive` | src/core/depth_book.cpp:82-151 | each operation changes the live orders as a plain map of orders would: duplicate and zero-share adds ignored, reductions clamped, emptied orders removed |
| `OrderBook.StepRefines` | src/core/depth_book.cpp:15-151 | one operation keeps ladders and top lists equal to sums and counts recomputed from the orders, if the resulting level sums fit 32 bits |
| `OrderBook.RefinementExact` | src/core/depth_book.cpp:15-151 | all three representations agree at every point of a run if and only if no level sum reaches 2^32 on the way |
| `OrderBook.TopsSound` | src/core/depth_book.cpp:153-169 | visible levels are strictly ordered, within depth, with 1 <= orders <= shares; so invariants_ok holds |
| `OrderBook.OverflowBreaks` | src/core/depth_book.cpp:26-36 | two orders of 2^31 shares at one price leave a visible level of 0 shares and fail invariants_ok |
| `OrderBook.ModifyExact` | src/core/depth_book.cpp:94-119 | modify sets size and timestamp of a live order, takes it out at size zero, and leaves side and price |
| `TopOfBook.TopsExact` | src/core/depth_book.cpp:15-80 | the top lists recomputed from side bytes and prices: side 0x42 is a bid, bids fall from the highest, asks rise from the lowest, each price with all its shares and orders, and a price is missing only from a full list of better ones |
| `TopOfBook.BestPrices` | src/core/depth_book.cpp:62-80 | the first bid is at least every bid and the first ask at most every ask |
| `SymbolBooks.SymbolBook.ApplyLevelDelta` | src/core/depth_book.cpp:15-60 | the in-place signed level update and refresh equals the delta on values |
| `SymbolBooks.SymbolBook.RefreshTopBids` | src/core/depth_book.cpp:62-70 | the refilled bid list is the first depth levels of the bid ladder |
| `SymbolBooks.SymbolBook.RefreshTopAsks` | src/core/depth_book.cpp:72-80 | the refilled ask list is the first depth levels of the ask ladder |
| `SymbolBooks.SymbolBook.AddOrder` | src/core/depth_book.cpp:82-92 | whole new state of an add, including the ignored ones |
| `SymbolBooks.SymbolBook.ModifyOrder` | src/core/depth_book.cpp:94-119 | whole new state and result of a modify: unknown id, same size, zero, other size |
| `SymbolBooks.SymbolBook.ReduceOrder` | src/core/depth_book.cpp:121-127 | whole new state and result of a clamped reduction |
| `SymbolBooks.SymbolBook.DeleteOrder` | src/core/depth_book.cpp:129-139 | whole new state and result of a delete |
| `SymbolBooks.SymbolBook.ReplaceOrder` | src/core/depth_book.cpp:141-151 | whole new state and result of a replace: delete, then add on the old side |
| `SymbolBooks.SymbolBook.InvariantsOk` | src/core/depth_book.cpp:153-169 | the check computes its predicate, and is true whenever the representations agree |
| `Routing.ApplyLocal` | src/core/depth_book.cpp:231-326 | a message performs its operation on one target book, leaves all other books alone, and without a target changes nothing; symbols are never removed |
| `Routing.ReportExact` | src/core/depth_book.cpp:239-329 | apply reports true for every add and every id-only message that reaches an order; the target book's orders then change if and only if the operation takes effect (for an add: it has shares and its id is not live there); false means no change at all |
| `StateChange.StateChangeExact` | src/core/depth_book.h:122-124 | the whole state stays as it was if and only if the message is idle: no book message, an id-only message that reaches no order, a reduction by nothing under unchanged timestamps, a replacement by itself likewise on a level that comes back the same, or an ignored add whose symbol and route are already there; so a report of true without a state change is exactly such a message with a target |
| `StateChange.ZeroShareAddChanges` | src/core/depth_book.cpp:239-245 | a zero-share add of a new symbol is ignored by its book, reported, and still adds the symbol and a route |
| `Routing.IgnoredAddReported` | src/core/depth_book.cpp:239-245 | the same add twice: the second is reported as a change and leaves the state as it was |
| `Routing.RoutedExact` | src/core/depth_book.cpp:231-326 | one message keeps every live order routed to its book if and only if the id it brings in is not live under another symbol |
| `RoutingRuns.RoutingExact` | src/core/depth_book.cpp:231-326 | the same over all points of every run |
| `RoutingRuns.SharedIdUnroutes` | src/core/depth_book.cpp:239-252 | one id added under two symbols leaves the first order live and unreachable |
| `RoutingRuns.FreshIdsRoute` | src/core/depth_book.cpp:231-326 | with ids never reused, every live order is routed to the one book holding it |
| `RoutingRuns.DepthRefinementExact` | src/core/depth_book.cpp:231-326 | every symbol's ladders agree with its orders throughout a run of messages if and only if no level sum reaches 2^32 |
| `MessageEffects.AddExact` | src/core/depth_book.cpp:239-252 | an add, with or without attribution, enters its order under its symbol unless it has no shares or the id is live there, routes the id, and touches no other book |
| `MessageEffects.TakeExact` | src/core/depth_book.cpp:253-288 | an execution, priced or not, and a cancel of n shares leave a reached order of q shares with q - n, or take it and its route out if n >= q; unreached, nothing changes |
| `MessageEffects.DeleteExact` | src/core/depth_book.cpp:289-300 | a delete takes a reached order and its route out and changes nothing else |
| `MessageEffects.ReplaceExact` | src/core/depth_book.cpp:301-317 | a replace takes the reached order out and enters the new one on its side of its symbol, unless it has no shares or the new id is live there; the route moves |
| `MessageEffects.SilentExact` | src/core/depth_book.cpp:318-324 | trades, directories and system events change nothing |
| `MessageEffects.MessageExact` | src/core/depth_book.cpp:231-329 | every message of every type has the effect its fields announce, on books, routes and index |
| `MessageEffects.MessageTrades` | src/core/depth_book.cpp:231-329 | one flat table of orders by id, changed as the message's fields say, is what all books together hold after any message without an id clash |
| `MarketRuns.MarketRun` | src/core/depth_book.cpp:231-329 | the same over every run without a clash |
| `MarketRuns.ClashFreeExact` | src/core/depth_book.cpp:231-329 | clashes, seen on the flat table alone, are exactly what puts a live order out of reach |
| `MarketRuns.AllAsDeep` | src/core/depth_book.cpp:171-179 | every book that messages bring about has the depth the whole was made with |
| `RoutingRuns.SharesConserved` | src/core/depth_book.cpp:231-326 | shares accepted equal shares live plus clamped executions, cancels and deleted or replaced remainders, over every run |
| `RoutingRuns.FreshIdsAccepted` | src/core/depth_book.cpp:82-92 | with ids never reused, adds and replaces bring in exactly the shares they announce |
| `RoutingRuns.LaddersHoldLive` | src/core/depth_book.cpp:15-60 | the sum over all ladder levels is the live total |
| `RoutingRuns.LadderSharesConserved` | src/core/depth_book.cpp:231-326 | conservation as read off the ladders, while level sums fit 32 bits |
| `DepthBooks.DepthBook.constructor` | src/core/depth_book.h:112-112 | a new book has no symbols, orders or routes |
| `DepthBooks.DepthBook.BookFor` | src/core/depth_book.cpp:171-179 | an unknown symbol gets an empty book and an index entry, a known one nothing |
| `DepthBooks.DepthBook.SymbolForOrder` | src/core/depth_book.cpp:187-193 | a symbol for exactly the routed ids, the one filed under the route |
| `DepthBooks.DepthBook.AllSymbols` | src/core/depth_book.cpp:195-200 | every symbol exactly once, in some order |
| `DepthBooks.DepthBook.Enter` | src/core/depth_book.cpp:239-252 | an add reaches its symbol's book and sets the route |
| `DepthBooks.DepthBook.ReduceById` | src/core/depth_book.cpp:253-288 | an execution or cancel reaches the routed book; the route goes when the order does |
| `DepthBooks.DepthBook.DeleteById` | src/core/depth_book.cpp:289-300 | a delete reaches the routed book and drops the route |
| `DepthBooks.DepthBook.ReplaceById` | src/core/depth_book.cpp:301-317 | a replace acts in the routed book and moves the route to the new id |
| `DepthBooks.DepthBook.ApplyMessage` | src/core/depth_book.cpp:231-330 | the whole dispatch: new state and result for every message type; all book look-ups are safe |
| `Parser.DecodeFrameThen` | src/core/parser.cpp:69-321 | decoding an encoded frame, whatever follows it, returns the message with its timestamp cut to 48 bits |
| `Parser.ExactRoundTrip` | src/core/parser.cpp:369-445 | the message itself comes back if and only if its timestamp is below 2^48 |
| `Parser.StreamRoundTrip` | src/core/parser.cpp:69-321 | concatenated frames decode to exactly their messages if and only if all timestamps are below 2^48 |
| `Parser.Drain` | tests/fuzz/parser_fuzz.cpp:6-16 | the decode loop terminates on any bytes, within the buffer, and collects the stream's messages |
| `Parser.DecodeCanonical` | src/core/parser.cpp:69-321 | whatever decodes is what the encoder writes, up to the 14 unread bytes of a Stock Directory |
| `Parser.ReencodeReproduces` | src/core/parser.cpp:369-445 | re-encoding a decoded message reproduces all consumed bytes, or the first 27 of 41 for a Stock Directory |
| `Bytes.BigEndian48` | src/core/parser.cpp:9-58 | a six-byte timestamp is the number its bytes spell, most significant first |
| `Bytes.BigEndian64` | src/core/parser.cpp:9-58 | an eight-byte field is the number its bytes spell, most significant first |
| `ItchLayout.StatusExact` | src/core/parser.cpp:69-88 | for any buffer: when the decoder waits, skips an unknown type or a wrong length, or finds a message, by the length bytes and the ten letters with their sizes |
| `ItchLayout.DecodeLayout` | src/core/parser.cpp:69-321 | the decoder returns a message if and only if the bytes spell it: type letter, length and every field at its offset, for each of the ten types |
| `ItchLayout.EncodeLayout` | src/core/parser.cpp:369-447 | the encoder writes those bytes, with the timestamp cut to 48 bits, and returns their number |
| `ItchLayout.EncodeKeeps` | src/core/parser.cpp:369-447 | the bytes behind the frame stay as they were |
| `Parser.EncodeFrame` | src/core/parser.cpp:355-445 | the caller's buffer holds the frame followed by what it held, or is untouched when too small |
| `GapDetectors.GapDetector.Start` | src/recovery/gap_detector.h:20-20 | a stream starts at the configured number |
| `GapDetectors.GapDetector.Observe` | src/recovery/gap_detector.cpp:5-31 | new state and verdict for first, in-order, stale and early numbers |
| `GapDetectors.GapDetector.SetExpected` | src/recovery/gap_detector.h:38-39 | the expected number is forced, others unchanged |
| `GapDetectors.GateLowersExactly` | src/core/feed_handler.cpp:59-112 | a locate's expected number goes down if and only if its number 2^64-1 is the expected one or its gap is stepped over or answered, or a gap of another locate is answered with an older snapshot that names this one |
| `GateRuns.Tiling` | src/core/feed_handler.cpp:59-112 | from any starting state, decoded, skipped, covered and lost segments of a locate lie end to end from the number it was started with, or else the first one seen, to the expected one |
| `GateRuns.ExactlyOneFate` | src/core/feed_handler.cpp:59-112 | every number in between has exactly one fate |
| `GateRuns.ExpectedNeverFalls` | src/core/feed_handler.cpp:59-112 | a locate's expected number never decreases along a run |
| `GateRuns.HistoryStreams` | src/core/feed_handler.cpp:59-112 | the decoded segments are the numbers that passed the check, the skipped ones the ranges told to the gap observer |
| `GateRuns.StallContiguous` | src/core/feed_handler.cpp:59-112 | in stall mode the numbers that pass are first, first+1, ..., expected-1, each once and in order, for every arrival order, first being the configured number or else the first one seen |
| `GateRuns.NeverDecodedTwice` | src/core/feed_handler.cpp:59-112 | in every mode the numbers that pass for a locate strictly increase |
| `GateRuns.SkipAccounts` | src/core/feed_handler.cpp:59-112 | in skip mode [first, expected) is partitioned into passed numbers and ascending disjoint reported ranges |
| `GateRuns.SnapshotShields` | src/core/feed_handler.cpp:59-112 | nothing that a snapshot of the locate covers is decoded with it or later |
| `GateRuns.NoLossExact` | src/core/feed_handler.cpp:59-112 | no segment of a locate's account is lost if and only if every answer installed at its gaps names it and reaches the number before the datagram |
| `GateRuns.CoveredExact` | src/core/feed_handler.cpp:80-92 | the covered segments are exactly the numbers that an installed snapshot of the locate reached while they were missing |
| `GateRuns.RecoveryExact` | src/core/feed_handler.cpp:59-112 | with answers of any kind at the locate's own gaps: every number in [first, expected) was decoded, or covered by a snapshot of the locate while missing, if and only if every answer installed there names the locate and reaches the number before the datagram |
| `GateRuns.WoundBackAccount` | src/core/feed_handler.cpp:74-95 | a run in which another gap is answered with this locate's snapshot: it decodes a number twice over an answer that reaches nothing, with nothing missing |
| `GateRuns.ForeignSnapshotLoses` | src/core/feed_handler.cpp:80-92 | an answer for another locate loses the missing numbers although its own number is higher |
| `GateRuns.ShortSnapshotLoses` | src/core/feed_handler.cpp:80-92 | an answer that stops short loses the numbers between it and the datagram |
| `GateRuns.WrapReplays` | src/recovery/gap_detector.cpp:5-31 | after number 2^64-1 an old number passes again |
| `GateRuns.ForeignSnapshotReplays` | src/core/feed_handler.cpp:74-95 | a snapshot that names another locate makes that locate decode a number twice |
| `LevelWire.LevelsRoundTrip` | src/recovery/snapshot_client.cpp:27-31 | levels come back from their bytes, whatever follows |
| `LevelWire.LevelsCanonical` | src/recovery/snapshot_client.cpp:113-147 | bytes read as levels are what those levels are written as |
| `LevelWire.AppendLevels` | src/recovery/snapshot_client.cpp:66-76 | the encoder's level loop appends exactly the levels' bytes |
| `LevelWire.ReadLevels` | src/recovery/snapshot_client.cpp:113-147 | the decoder's level loop reads exactly the levels at the cursor |
| `RecoveryWire.RequestRoundTrip` | src/recovery/snapshot_client.cpp:59-64 | a request decodes to itself, consuming its own bytes, whatever follows |
| `RecoveryWire.FaultRoundTrip` | src/recovery/snapshot_client.cpp:78-83 | the same for a fault |
| `RecoveryWire.FramesRoundTrip` | src/recovery/snapshot_client.cpp:66-76 | the same for a snapshot response with any number of levels that fits the length field |
| `RecoveryWire.DecodeCanonical` | src/recovery/snapshot_client.cpp:85-155 | a consumed frame starts, after its length, with what the encoder writes for it, and is reproduced exactly if and only if it is no longer than that |
| `RecoveryWire.LongRequestAccepted` | src/recovery/snapshot_client.cpp:95-102 | a request with an extra byte is accepted and is not what the encoder writes |
| `RecoveryWire.EncodeReply` | src/recovery/snapshot_client.cpp:66-76 | the loop that builds a response writes that frame |
| `RecoveryWire.DecodeFrame` | src/recovery/snapshot_client.cpp:85-155 | the decoder on every buffer: incomplete, unknown, request, fault, response, and the response with short lists that consumes nothing |
| `WireLayout.RecoveryLayout` | src/recovery/snapshot_client.cpp:85-155 | the decoder consumes a frame if and only if the bytes spell it: opcode, length and every field at its offset |
| `WireLayout.RecoveryEncoders` | src/recovery/snapshot_client.cpp:59-83 | the encoders write those bytes, 15, 8 and 31 plus 12 a level of them |
| `Rebuild.RebuildExact` | src/core/feed_handler.cpp:129-176 | the rebuilt book shows exactly the snapshot's levels if and only if they are in strict price order with at least one order and one share per order |
| `Rebuild.RebuiltRefines` | src/core/feed_handler.cpp:129-176 | for any lists of levels, in any order and with repeated prices: its ladders agree with its synthetic orders if and only if no price is given 2^32 shares in all |
| `Rebuild.RebuiltIds` | src/core/feed_handler.cpp:152-173 | the rebuilt book's order ids are exactly those from 2^60 on, one per slice of the levels |
| `Rebuild.SlicesExact` | src/core/feed_handler.cpp:153-163 | a level of at least one share per order is split evenly, and its first order gets the remainder |
| `Rebuild.RebuiltTimeless` | src/core/feed_handler.cpp:148-173 | the rebuilt book and its orders carry the timestamp 0 |
| `Feed.ReinstateLocal` | src/core/feed_handler.cpp:129-149 | a snapshot puts one book in place; routes and all other books stay |
| `Feed.FeedFollowsGate` | src/core/feed_handler.cpp:46-127 | the handler's sequence tracking on arbitrary datagrams is that of the gap protocol |
| `Feed.FeedSettles` | src/core/feed_handler.cpp:46-127 | so every number of every locate is accounted for in runs of the handler |
| `Feed.RecoveryRoundTrip` | src/core/feed_handler.cpp:129-176 | top levels of a book in step, sent through the recovery wire and installed, are the same levels at the receiver; other symbols are untouched |
| `FeedRuns.FeedRefinementExact` | src/core/feed_handler.cpp:46-176 | over every run with arbitrary datagrams and answers all ladders agree with the orders at every point if and only if no price level reaches 2^32 shares |
| `FeedRuns.EmptyAnswerExact` | docs/gap-fill-recovery.md:66 | an empty answer leaves the books unchanged if and only if its symbol already has a book without orders and depth; otherwise it installs one |
| `FeedRuns.BlankAnswerPasses` | src/core/feed_handler.cpp:80-92 | the blank answer to a gap of another locate adds a book for the blank symbol and lets the datagram pass over the gap |
| `FeedRuns.AfterSnapshotExact` | src/core/feed_handler.cpp:129-176 | after a snapshot an id-only message about an order routed to its symbol reaches an order if and only if its id is one of the synthetic ids, and otherwise changes nothing |
| `FeedRuns.SyntheticIdReached` | src/core/feed_handler.cpp:152-163 | a delete of an earlier order with id 2^60 removes the snapshot's order |
| `FeedEvents.TransportHeader` | src/core/feed_handler.cpp:12-19 | the locate is the first two bytes of a datagram and the number the next eight, most significant first |
| `FeedEvents.VerdictExact` | src/core/feed_handler.cpp:59-112 | on the numbers alone: a numbered datagram passes if it is its locate's first, the expected one, behind a gap that is skipped, or behind one whose answer does not cover it; the answer to a gap is installed in recovery mode and in no other case |
| `FeedEvents.BookIsReplay` | src/core/feed_handler.cpp:46-127 | in every mode, over every run with arbitrary datagrams and answers, the book is the replay of the installed snapshots and the messages of the datagrams that pass, in their order; a datagram that passes behind an answer is applied after it |
| `FeedEvents.ToldIsSent` | src/core/feed_handler.cpp:59-127 | for every locate and in every mode, what the book is told is what was sent under the numbers that pass, each of them, in order, and nothing else |
| `FeedCounters.CountersExact` | src/core/feed_handler.cpp:46-127 | the result of on_datagram and the counters of bytes, datagrams, stale numbers, gaps, requests, snapshots and parse errors, on the datagram, the expected numbers and the answer |
| `FeedCounters.CountersRun` | src/core/feed_handler.cpp:121-125 | over every run the applied counter and each counter by type have gone up by the messages of that kind that reached the book and changed it |
| `FeedCounters.KindsAddUp` | src/core/feed_handler.cpp:21-42 | the counters by type add up to the applied messages, and the one for other types never moves |
| `FeedCounters.DatagramsConserved` | src/core/feed_handler.cpp:46-127 | every datagram of a run is accounted for once: accepted, not parsed, stale, or stuck behind a gap neither skipped nor answered |
| `FeedEvents.BookIsRun` | src/core/feed_handler.cpp:59-127 | in stall and skip mode the handler's book is the run of the messages that got through, in their order |
| `FeedEvents.StallBookExact` | src/core/feed_handler.cpp:59-127 | for one locate with a fixed payload per number, whatever is duplicated, reordered or lost, the stall-mode book is the run of the messages sent under first, ..., expected-1 |
| `FeedEvents.DeliveryOrderIrrelevant` | src/core/feed_handler.cpp:59-127 | two deliveries of such a stream that begin and end at the same numbers leave the same book |
| `FeedHandlers.FeedHandler.RebuildBook` | src/core/feed_handler.cpp:148-173 | the nested loops with the running synthetic id build the rebuilt book |
| `FeedHandlers.FeedHandler.InstallSnapshot` | src/core/feed_handler.cpp:129-176 | whole new state of apply_snapshot |
| `FeedHandlers.FeedHandler.Check` | src/core/feed_handler.cpp:59-112 | state and verdict of the gap check in all three modes |
| `FeedHandlers.FeedHandler.HandleDatagram` | src/core/feed_handler.cpp:46-127 | whole new state, counters included, and result of on_datagram for any bytes |
| `Generator.AfterOk` | src/sim/publisher.cpp:61-185 | the five live vectors stay parallel, with distinct ids and positive sizes, after every call |
| `Generator.MessageGenerator.constructor` | src/sim/publisher.cpp:23-29 | a new generator has no live orders and starts ids at 1 |
| `Generator.MessageGenerator.DirectoryMessages` | src/sim/publisher.cpp:31-59 | one Stock Directory datagram per symbol under number 0 |
| `Generator.MessageGenerator.NextDatagram` | src/sim/publisher.cpp:61-185 | datagram and new vectors for every draw: add, cancel, execute, delete, replace |
| `GeneratorWire.EmitExact` | src/sim/publisher.cpp:61-185 | for every draw the datagram carries locate 100 + symbol and that locate's next number, and spells the message of the draw: 0 to 49 add, 50 to 69 cancel, 70 to 84 execute, 85 to 94 delete, 95 to 99 replace |
| `GeneratorWire.NumbersMoveOn` | src/sim/publisher.cpp:161-168 | the drawn symbol's locate moves on by one number, from 1, and the others stay |
| `GeneratorWire.DrawShares` | src/sim/publisher.cpp:70-76 | of the hundred draws 50 add, 20 cancel, 15 execute, 10 delete and 5 replace |
| `GeneratorWire.DirectoryExact` | src/sim/publisher.cpp:31-59 | the directory of symbol i is unnumbered, under locate 100 + i, and spells category Q, status N and lots of 100 |
| `EndToEnd.LosslessRun` | src/sim/publisher.cpp:61-185 | for all draws: no gaps, stale numbers or parse errors at the handler, one applied message per call, and equal live orders (id, symbol, side, price, size), with no order in any book besides them |
| `Crc32.BuildTable` | src/sim/book_snapshot.cpp:40-53 | each table entry is eight steps of the bit-serial register |
| `Crc32.Checksum` | src/sim/book_snapshot.cpp:57-64 | the table-driven loop equals the bit-by-bit definition for every byte string |
| `CrcStandard.CrcIsDivision` | src/sim/book_snapshot.cpp:40-64 | for every byte string the CRC is the standard's: the bits in transmission order and 32 zeros, the first 32 bits inverted, divided by the IEEE 802.3 generator polynomial by long division, the remainder inverted |
| `CrcStandard.CheckValue` | src/sim/book_snapshot.cpp:57-64 | the text 123456789 has CRC 0xCBF43926 |
| `CrcStandard.EmptyCrc` | src/sim/book_snapshot.cpp:57-64 | the empty string has CRC 0 |
| `Crc32.BurstDetected` | src/sim/book_snapshot.cpp:57-64 | strings that differ only within 32 consecutive message bits have different CRCs |
| `Crc32.ByteBurstDetected` | src/sim/book_snapshot.cpp:57-64 | so do strings that differ in at most four consecutive bytes |
| `BookSnapshot.RoundTripExact` | src/sim/book_snapshot.cpp:85-166 | a snapshot comes back from its frame if and only if no side has more than ten levels and the length fits its field |
| `BookSnapshot.DecodeCanonical` | src/sim/book_snapshot.cpp:108-166 | whatever decodes is exactly the frame of the result, in its first 4 + body length bytes |
| `BookSnapshot.CorruptionRejected` | src/sim/book_snapshot.cpp:119-122 | replacing up to four consecutive bytes between length and CRC of a good frame makes it rejected |
| `BookSnapshot.TrailerCorruptionRejected` | src/sim/book_snapshot.cpp:119-122 | so does any change of the CRC field |
| `CrcTail.TailExact` | src/sim/book_snapshot.cpp:57-64 | when the last bytes of a message and the leading bytes of the CRC behind it change, four in all, the new CRC is right if and only if two bytes changed on each side, by 0x61 0xD8 and by 0xF4 0xEE |
| `BookSnapshot.StraddleExact` | src/sim/book_snapshot.cpp:119-122 | replacing up to four bytes across the end of the payload and the CRC field leaves a good frame intact if and only if they change by that one pattern |
| `MissedFrames.StraddleDecoded` | src/sim/book_snapshot.cpp:108-166 | the decoder accepts a frame so changed if and only if the change is that pattern and the last record has an ask level |
| `BookSnapshot.EncodeSnapshot` | src/sim/book_snapshot.cpp:85-106 | the push-back loops build that frame |
| `BookSnapshot.DecodeSnapshot` | src/sim/book_snapshot.cpp:108-166 | the cursor loop accepts and rejects exactly as specified, on every buffer |
| `WireLayout.SnapshotLayout` | src/sim/book_snapshot.cpp:108-166 | the decoder returns a snapshot if and only if the bytes spell it: length, BSN1, sequence, count, records of at most ten levels a side, and the CRC, each at its offset |
| `WireLayout.SnapshotEncoder` | src/sim/book_snapshot.cpp:85-106 | the encoder writes those bytes |
| `Capture.CaptureSnapshot` | src/sim/book_snapshot.cpp:66-83 | one record per symbol, each once, with the first ten levels of both top lists |
| `Subscribers.DeliveredExact` | src/net/tcp_recovery.cpp:110-141 | a published frame is cut off the stream and applied if and only if its body is at most 16 MiB; a larger one whose length fits its field leaves the local books unchanged |
| `Subscribers.ConvergesExactly` | src/sim/book_snapshot_subscriber.cpp:9-29 | after a complete frame the local copy mirrors the captured book if and only if it held no symbol that the book lacks |
| `Subscribers.BookSnapshotSubscriber.ReceiveOne` | src/sim/book_snapshot_subscriber.cpp:9-29 | new state, result and unread stream for any incoming bytes |
| `Subscribers.BookSnapshotSubscriber.Sides` | src/sim/book_snapshot_subscriber.cpp:31-39 | the local sides for exactly the known symbols |
| `Publishers.BookSnapshotPublisher.constructor` | src/sim/book_snapshot_publisher.cpp:13-29 | counters at zero, no subscribers |
| `Publishers.BookSnapshotPublisher.NoteMessage` | src/sim/book_snapshot_publisher.h:50-50 | the message counter goes up by one |
| `Publishers.BookSnapshotPublisher.CaptureFrame` | src/sim/book_snapshot_publisher.cpp:52-65 | the frame is a capture of the book under the next sequence number |
| `Publishers.BookSnapshotPublisher.PushToAll` | src/sim/book_snapshot_publisher.cpp:82-94 | exactly the subscribers whose send succeeded are kept, in order |
| `Publishers.BookSnapshotPublisher.Turn` | src/sim/book_snapshot_publisher.cpp:67-96 | one turn of the loop: it publishes if and only if the interval or the message count of the policy is reached, and the whole new state either way |
| `PublishRuns.StepKeeps` | src/sim/book_snapshot_publisher.cpp:67-96 | every step of either thread keeps lock ownership, counter lag, publication order and stream contents |
| `PublishSafety.FramesArePrefixes` | src/sim/book_snapshot_publisher.cpp:52-96 | in every reachable state each frame is the capture of a prefix of the applied messages with at least as many as its trigger counted; prefixes never shrink; sequence numbers are consecutive |
| `PublishSafety.NeverHeldWhileSending` | src/sim/book_snapshot_publisher.cpp:52-96 | the publisher never holds the lock during a send, the feed can then always take it, and critical sections exclude each other |
| `PublishSafety.SurvivorsComplete` | src/sim/book_snapshot_publisher.cpp:80-94 | a surviving subscriber's stream is exactly all frames since it joined |
| `PublishSafety.RoundKeepsSurvivors` | src/sim/book_snapshot_publisher.cpp:82-94 | the interleaved sends of a round can always be completed and keep the same subscribers as the loop |
| `PublishSafety.FramesBounded` | src/sim/book_snapshot_publisher.cpp:41-50 | with the message trigger alone, frames times stride never exceed the counted messages; with no trigger nothing is published |
| `PublishPace.DecideExact` | src/sim/book_snapshot_publisher.cpp:41-50 | a decision starts a frame if and only if interval > 0 and that much time has passed, or every > 0 and that many messages were counted, since the last one; no other step starts or drops one |
| `PublishPace.FramesExact` | src/sim/book_snapshot_publisher.cpp:67-96 | over every run under every policy the frames are exactly the decisions at which a trigger was met |
| `PublishPace.FramesKeepUp` | src/sim/book_snapshot_publisher.cpp:41-50 | lower bounds: what the latest decision saw of messages and of time is less than one trigger beyond frames times stride, a stride being one short of the trigger plus the most that comes between two decisions |
| `PublishPace.FramesEvery` | src/sim/book_snapshot_publisher.cpp:41-50 | with the message trigger alone and a decision after every message there is exactly one frame for every so many messages |
| `Convergence.SubscribersConverge` | src/sim/book_snapshot_subscriber.cpp:9-29 | on every connection in every reachable state the next receive applies the next frame, without a gap, if and only if its body is at most 16 MiB, and leaves a larger one unapplied; after applying it the copy holds exactly the publisher's symbols and best ten levels after that frame's prefix |
| `Convergence.FewSymbolsReceived` | src/net/tcp_recovery.cpp:121-124 | with at most 67108 symbols every frame is within that size |
| `Convergence.MirrorShowsOrders` | src/sim/book_snapshot.cpp:66-83 | a mirror of a book in step shows the best min(10, depth) levels recomputed from its orders |
| `Histograms.SampleBoundExact` | src/obs/histogram.cpp:26-49 | a cell's lower bound L satisfies L <= v < L(1+1/64) if and only if v is in 1..63 or in [128, 8255*2^25); below 64 it is v |
| `Histograms.MisfiledBreaks` | src/obs/histogram.cpp:26-49 | every value in 64..127 is reported 63 too low, and those below 126 are filed before smaller ones |
| `Histograms.CellMonotone` | src/obs/histogram.cpp:26-44 | apart from 64..127, larger values never go to earlier cells |
| `Histograms.PercentileExact` | src/obs/histogram.cpp:77-91 | for every list of samples, the scan for rank k is within 1/64 below the k-th smallest sample x if and only if x is in [128, 8255*2^25), or in 1..63 with fewer than k samples shown below it, and then it is x |
| `Histograms.PercentileWithoutMisfiled` | src/obs/histogram.cpp:77-91 | without samples in 64..127 every rank comes out as the floor of its sample's cell |
| `Histograms.PercentileFails` | src/obs/histogram.cpp:77-91 | a single sample of 100 comes out as 37, and the smaller of 63 and 64 as 1 |
| `Histograms.KthExists` | src/obs/histogram.cpp:77-91 | each rank from 1 to the count belongs to exactly one sample value |
| `Histograms.TotalIsCount` | src/obs/histogram.cpp:51-59 | the counters add up to the number of recordings |
| `Histograms.MergeCombines` | src/obs/histogram.cpp:61-67 | merging gives the histogram of the combined recordings |
| `Histograms.ScalarsExact` | src/obs/histogram.cpp:51-59 | count, sum modulo 2^64, least and greatest of all recorded samples |
| `Histograms.Histogram.constructor` | src/obs/histogram.cpp:24-24 | the histogram of no samples |
| `Histograms.Histogram.Record` | src/obs/histogram.cpp:51-59 | whole new state of a recording |
| `Histograms.Histogram.Merge` | src/obs/histogram.cpp:61-67 | the in-place merge, also of a histogram with itself |
| `Histograms.Histogram.Reset` | src/obs/histogram.cpp:69-75 | back to the histogram of no samples |
| `Histograms.Histogram.Percentile` | src/obs/histogram.cpp:77-91 | the nested scan stops at the first cell whose running count reaches the rank, or returns the maximum |
| `IpChecksum.FoldedIsResidue` | src/pcap/pcap_io.cpp:38-38 | the folding loop ends and computes the residue modulo 65535 |
| `IpChecksum.WordSumExact` | src/pcap/pcap_io.cpp:32-37 | bytes at even places count 256 times and those at odd places once, an odd last byte included |
| `IpChecksum.Rfc1071Example` | src/pcap/pcap_io.cpp:32-40 | the example of RFC 1071 has checksum 0x220D |
| `IpChecksum.Compute` | src/pcap/pcap_io.cpp:32-40 | the loops compute the complemented folded 32-bit sum for even and odd lengths |
| `IpChecksum.InsertedChecksZero` | src/pcap/pcap_io.cpp:188-190 | storing the checksum in a zero word makes the whole range check to zero, for every length, also where the 32-bit sum wraps |
| `IpChecksum.OneWordDetected` | src/pcap/pcap_io.cpp:32-40 | a changed word goes unnoticed if and only if it changes between 0x0000 and 0xFFFF and the accumulated sum stays above zero and within 32 bits |
| `IpChecksum.WriteHeader` | src/pcap/pcap_io.cpp:165-190 | the written header checks to zero, carries its total length, and has the fixed fields of a UDP datagram from 127.0.0.1 to 239.0.0.7 |

## Left out

- Sockets, select, multicast membership, file and pcap reading and writing, command lines, benches, struct layout: system calls and plumbing. A received frame is a byte string, a send succeeds or fails.
- The snapshot server's thread: the recovery server is an arbitrary answer, or none, to each request.
- Clocks, floating-point mean and pacing: times are arbitrary inputs. The conversion of a percentile to an integer rank is not modelled; the scan starts from the rank.
- Depth-update callbacks and the snapshot values handed to them (src/core/depth_book.cpp:208-229): they read the book and change nothing.
- The symbol copied into each stored order, which nothing reads.
- Stop and restart of the publisher: the loop is modelled while it runs. The message counter and the statistics are unbounded numbers, so their wrap-around after 2^64 events is not modelled; the publish sequence number does wrap.
- Memory ordering of the atomics: steps are sequentially consistent.
- The synthetic ids of a rebuilt book are unbounded numbers; they would need 2^64 orders in one snapshot to wrap.
- The books of a DepthBook are stored as values; an operation loads one into a SymbolBook object, runs the method and stores the result, so references into the map are not modelled.
- The partial result that a rejected book snapshot or recovery frame leaves behind when the caller ignores the failure flag; for recovery responses with short lists it is modelled.
- Parser.EncodeFrame: computes the frame bytes and stores them front to back, instead of one store per field.
- RecoveryWire.DecodeFrame: buffers whose announced length is within 4 of 2^32, where the 32-bit sum 4 + length wraps and the code forms a pointer far outside the buffer, which C++ leaves undefined; the transport refuses lengths above 16 MiB.
- EndToEnd.LosslessRun: at most 2^62 calls, so that order ids and sequence numbers stay below 2^64, and one to ten symbols as the generator has.
- Convergence after recovery is stated at the snapshot: orders from before it are gone from the book while their routes stay, see AfterSnapshotExact.
