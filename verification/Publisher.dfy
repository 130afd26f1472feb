/** The publisher's own state and the body of its loop, as one thread sees it. */
module Publishers {
  import opened Bytes
  import opened Itch
  import opened Routing
  import opened BookSnapshot
  import opened Capture
  import OB = OrderBook
  import DepthBooks

  /** When to publish: after an interval, after a number of messages, or both; zero switches a trigger off. */
  datatype Policy = Policy(interval: nat, every: nat)

  predicate Due(p: Policy, mark: nat, lastPublish: int, msgs: nat, now: int) {
    || (p.every != 0 && msgs - mark >= p.every)
    || (p.interval != 0 && now - lastPublish >= p.interval)
  }

  /** The connections, in their order, whose send succeeds. */
  function Survivors(conns: seq<nat>, sent: nat -> bool): (live: seq<nat>)
    ensures forall c :: c in live <==> c in conns && sent(c)
  {
    if conns == [] then []
    else if sent(conns[0]) then [conns[0]] + Survivors(conns[1..], sent)
    else Survivors(conns[1..], sent)
  }

  lemma {:induction false} SurvivorsSnoc(conns: seq<nat>, c: nat, sent: nat -> bool)
    ensures Survivors(conns + [c], sent) == Survivors(conns, sent) + (if sent(c) then [c] else [])
    decreases |conns|
  {
    if conns == [] {
      assert [] + [c] == [c] && [c][1..] == [];
    } else {
      assert (conns + [c])[1..] == conns[1..] + [c];
      SurvivorsSnoc(conns[1..], c, sent);
    }
  }

  /** A newly accepted connection goes to the end of the list. */
  function Joined(conns: seq<nat>, accepted: Option<nat>): seq<nat> {
    if accepted.Some? then conns + [accepted.value] else conns
  }

  function NextSeq(n: u64): u64 {
    (n + 1) % TWO64
  }

  lemma NextSeqCounts(n: nat)
    ensures NextSeq(n % TWO64) == (n + 1) % TWO64
  {
    var q, r := n / TWO64, n % TWO64;
    if r + 1 < TWO64 {
      ModUnique(n + 1, TWO64, q, r + 1);
    } else {
      ModUnique(n + 1, TWO64, q + 1, 0);
    }
  }

  /** A snapshot of the books under a sequence number, as a frame. */
  ghost predicate FrameOf(frame: seq<byte>, sequence: u64, books: map<SymbolKey, OB.Book>) {
    exists s :: frame == Frame(s) && s.sequence == sequence && Captures(s.records, books)
  }

  class BookSnapshotPublisher {
    const policy: Policy
    var seqNo: u64
    var mark: nat
    var msgCounter: nat
    var published: nat
    var lastPublish: int
    var subscribers: seq<nat>

    constructor (policy: Policy, now: int)
      ensures this.policy == policy && lastPublish == now && subscribers == []
      ensures seqNo == 0 && mark == 0 && msgCounter == 0 && published == 0
    {
      this.policy := policy;
      seqNo, mark, msgCounter, published, lastPublish, subscribers := 0, 0, 0, 0, now, [];
    }

    method NoteMessage()
      modifies this`msgCounter
      ensures msgCounter == old(msgCounter) + 1
    {
      msgCounter := msgCounter + 1;
    }

    /** should_publish. */
    method ShouldPublish(now: int) returns (due: bool)
      ensures due == Due(policy, mark, lastPublish, msgCounter, now)
    {
      if policy.every != 0 && msgCounter - mark >= policy.every {
        return true;
      }
      if policy.interval != 0 && now - lastPublish >= policy.interval {
        return true;
      }
      return false;
    }

    /** Copy the book out under the next sequence number, then serialise the copy. */
    method CaptureFrame(book: DepthBooks.DepthBook) returns (frame: seq<byte>, s: Snapshot)
      requires Wf(book.View())
      modifies this`seqNo
      ensures seqNo == NextSeq(old(seqNo)) && frame == Frame(s)
      ensures s.sequence == seqNo && Captures(s.records, book.books)
    {
      seqNo := NextSeq(seqNo);
      s := CaptureSnapshot(book, seqNo);
      frame := EncodeSnapshot(s);
    }

    /** Push to every subscriber and keep those that took the frame. */
    method PushToAll(sent: nat -> bool)
      modifies this`subscribers, this`published
      ensures subscribers == Survivors(old(subscribers), sent) && published == old(published) + 1
    {
      var live := [];
      for i := 0 to |subscribers|
        invariant subscribers == old(subscribers) && published == old(published)
        invariant live == Survivors(subscribers[..i], sent)
      {
        SurvivorsSnoc(subscribers[..i], subscribers[i], sent);
        assert subscribers[..i + 1] == subscribers[..i] + [subscribers[i]];
        if sent(subscribers[i]) {
          live := live + [subscribers[i]];
        }
      }
      assert subscribers[..|subscribers|] == subscribers;
      subscribers := live;
      published := published + 1;
    }

    /** Mark the trigger, capture, and push. */
    method Publish(now: int, book: DepthBooks.DepthBook, sent: nat -> bool) returns (frame: seq<byte>, s: Snapshot)
      requires Wf(book.View())
      modifies this
      ensures msgCounter == old(msgCounter) && mark == msgCounter && lastPublish == now
      ensures seqNo == NextSeq(old(seqNo)) && published == old(published) + 1
      ensures subscribers == Survivors(old(subscribers), sent)
      ensures s.sequence == seqNo && Captures(s.records, book.books) && frame == Frame(s)
    {
      lastPublish, mark := now, msgCounter;
      frame, s := CaptureFrame(book);
      PushToAll(sent);
    }

    /** One turn of the publish loop. */
    method Turn(accepted: Option<nat>, now: int, book: DepthBooks.DepthBook, sent: nat -> bool)
        returns (frame: Option<seq<byte>>)
      requires Wf(book.View())
      modifies this
      ensures msgCounter == old(msgCounter)
      ensures policy.every > 0 && msgCounter >= old(mark) + policy.every ==> frame.Some?
      ensures policy.interval > 0 && now >= old(lastPublish) + policy.interval ==> frame.Some?
      ensures frame.Some? ==>
                || (policy.every > 0 && msgCounter >= old(mark) + policy.every)
                || (policy.interval > 0 && now >= old(lastPublish) + policy.interval)
      ensures var conns := Joined(old(subscribers), accepted);
              subscribers == if frame.Some? then Survivors(conns, sent) else conns
      ensures frame.Some? ==>
                && mark == msgCounter && lastPublish == now && published == old(published) + 1
                && seqNo == NextSeq(old(seqNo)) && FrameOf(frame.value, seqNo, book.books)
      ensures frame.None? ==> mark == old(mark) && lastPublish == old(lastPublish) && seqNo == old(seqNo) &&
                              published == old(published)
    {
      subscribers := Joined(subscribers, accepted);
      var due := ShouldPublish(now);
      if !due {
        return None;
      }
      var f, s := Publish(now, book, sent);
      return Some(f);
    }
  }
}
