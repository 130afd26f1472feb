/** The feed thread and the publisher thread as interleaved steps over one lock and one counter, and what holds in
    every reachable state. */
module PublishRuns {
  import opened Bytes
  import opened Itch
  import opened Routing
  import opened BookSnapshot
  import opened Capture
  import opened Publishers

  datatype Owner = Nobody | FeedThread | PublisherThread

  /** Where the feed thread is: before the lock, with the lock, with the message applied, and with the lock released
      but the message not yet counted. */
  datatype FeedAt = Idle | Holding | Changed | Released

  /** Where the publisher thread is in its loop. */
  datatype PublisherAt = Polling | Deciding | Waiting | Reading | Copied | Sending(todo: seq<nat>, live: seq<nat>)

  /** One connection: how many frames were published before it joined, how many whole frames it was sent, and the
      bytes on its stream. */
  datatype Link = Link(joined: nat, whole: nat, bytes: seq<byte>)

  /** One published snapshot and its frame, with the number of messages applied when it was copied and the counter
      value that triggered it. */
  datatype Publication = Publication(snap: Snapshot, frame: seq<byte>, prefix: nat, trigger: nat)

  /** past lists the book before the first message, after it, after the second, and so on. */
  datatype System = System(
    depth: nat, policy: Policy, owner: Owner, feed: FeedAt, pub: PublisherAt,
    book: Depth, applied: seq<Message>, past: seq<Depth>, noted: nat,
    seqNo: u64, mark: nat, lastPublish: int, subscribers: seq<nat>,
    links: map<nat, Link>, log: seq<Publication>)

  datatype Action =
    | TakeLock | ApplyOne(m: Message) | DropLock | Note
    | Accept(conn: Option<nat>) | Decide(now: int) | LockBook | CopyBook(records: seq<Record>) | UnlockBook
    | Send(ok: bool, cut: nat) | Finish

  function Start(depth: nat, policy: Policy, now: int): System {
    System(depth, policy, Nobody, Idle, Polling, Fresh(depth), [], [Fresh(depth)], 0, 0, 0, now, [], map[], [])
  }

  ghost function CurrentFrame(s: System): seq<byte>
    requires s.log != []
  {
    s.log[|s.log| - 1].frame
  }

  /** A step can be taken: its thread is there, a lock to be taken is free, a new connection is new, the copied
      records are the book's, and a failed send stops short of the whole frame. */
  ghost predicate Enabled(s: System, a: Action) {
    match a
    case TakeLock => s.feed == Idle && s.owner == Nobody
    case ApplyOne(_) => s.feed == Holding && Wf(s.book)
    case DropLock => s.feed == Changed
    case Note => s.feed == Released
    case Accept(conn) => s.pub == Polling && (conn.Some? ==> conn.value !in s.links)
    case Decide(_) => s.pub == Deciding
    case LockBook => s.pub == Waiting && s.owner == Nobody
    case CopyBook(records) => s.pub == Reading && Captures(records, s.book.books)
    case UnlockBook => s.pub == Copied
    case Send(ok, cut) =>
      && s.pub.Sending? && s.pub.todo != [] && s.pub.todo[0] in s.links && s.log != []
      && (!ok ==> cut < |CurrentFrame(s)|)
    case Finish => s.pub.Sending? && s.pub.todo == []
  }

  function Sent(l: Link, frame: seq<byte>): Link {
    Link(l.joined, l.whole + 1, l.bytes + frame)
  }

  function Broken(l: Link, part: seq<byte>): Link {
    Link(l.joined, l.whole, l.bytes + part)
  }

  /** The stream after one send: a whole frame, or the part of it that went out before the error. */
  ghost function AfterSend(l: Link, frame: seq<byte>, ok: bool, cut: nat): Link
    requires !ok ==> cut < |frame|
  {
    if ok then Sent(l, frame) else Broken(l, frame[..cut])
  }

  ghost function SendOne(s: System, ok: bool, cut: nat): System
    requires Enabled(s, Send(ok, cut))
  {
    var todo, live := s.pub.todo, s.pub.live;
    var c := todo[0];
    s.(links := s.links[c := AfterSend(s.links[c], CurrentFrame(s), ok, cut)],
       pub := Sending(todo[1..], if ok then live + [c] else live))
  }

  ghost function ApplyNext(s: System, m: Message): System
    requires Wf(s.book)
  {
    var book := Apply(s.book, m).0;
    s.(book := book, applied := s.applied + [m], past := s.past + [book], feed := Changed)
  }

  ghost function Published(s: System, records: seq<Record>): Publication {
    var snap := Snapshot(NextSeq(s.seqNo), records);
    Publication(snap, Frame(snap), |s.applied|, s.mark)
  }

  ghost function Next(s: System, a: Action): System
    requires Enabled(s, a)
  {
    match a
    case TakeLock => s.(owner := FeedThread, feed := Holding)
    case ApplyOne(m) => ApplyNext(s, m)
    case DropLock => s.(owner := Nobody, feed := Released)
    case Note => s.(noted := s.noted + 1, feed := Idle)
    case Accept(conn) =>
      var s' := s.(subscribers := Joined(s.subscribers, conn), pub := Deciding);
      if conn.Some? then s'.(links := s.links[conn.value := Link(|s.log|, 0, [])]) else s'
    case Decide(now) =>
      if Due(s.policy, s.mark, s.lastPublish, s.noted, now) then s.(lastPublish := now, mark := s.noted, pub := Waiting)
      else s.(pub := Polling)
    case LockBook => s.(owner := PublisherThread, pub := Reading)
    case CopyBook(records) =>
      s.(seqNo := NextSeq(s.seqNo), log := s.log + [Published(s, records)], pub := Copied)
    case UnlockBook => s.(owner := Nobody, pub := Sending(s.subscribers, []))
    case Send(ok, cut) => SendOne(s, ok, cut)
    case Finish => s.(subscribers := s.pub.live, pub := Polling)
  }

  /** A sequence of steps, each possible where it is taken. */
  ghost predicate Possible(s: System, acts: seq<Action>)
    decreases |acts|
  {
    acts == [] || (Enabled(s, acts[0]) && Possible(Next(s, acts[0]), acts[1..]))
  }

  ghost function Execute(s: System, acts: seq<Action>): System
    requires Possible(s, acts)
    decreases |acts|
  {
    if acts == [] then s else Execute(Next(s, acts[0]), acts[1..])
  }

  // ---- Invariants ---------------------------------------------------------

  /** Each thread owns the lock exactly while it is between taking and releasing it. */
  ghost predicate Locking(s: System) {
    && (s.owner == FeedThread <==> s.feed == Holding || s.feed == Changed)
    && (s.owner == PublisherThread <==> s.pub == Reading || s.pub == Copied)
  }

  /** The counter trails the applied messages by the one being processed. */
  ghost predicate Counting(s: System) {
    && |s.applied| == s.noted + (if s.feed == Changed || s.feed == Released then 1 else 0)
    && s.mark <= s.noted
  }

  /** Publications happen in the order of the messages, each after all that its trigger counted. */
  ghost predicate Ordered(log: seq<Publication>, n: nat) {
    && (forall i :: 0 <= i < |log| ==> log[i].trigger <= log[i].prefix <= n)
    && (forall i, j :: 0 <= i < j < |log| ==> log[i].prefix <= log[j].prefix)
  }

  /** The frames of the publications from first up to last, back to back. */
  ghost function Stream(log: seq<Publication>, first: nat, last: nat): seq<byte>
    requires last <= |log|
  {
    if last <= first then [] else Stream(log, first, last - 1) + log[last - 1].frame
  }

  /** A stream starts with consecutive whole frames. */
  ghost predicate Consecutive(l: Link, log: seq<Publication>) {
    l.joined + l.whole <= |log| && Stream(log, l.joined, l.joined + l.whole) <= l.bytes
  }

  /** A stream holds the frames from joining up to n, and nothing else. */
  ghost predicate UpTo(l: Link, log: seq<Publication>, n: nat) {
    n <= |log| && l.joined + l.whole == n && l.bytes == Stream(log, l.joined, n)
  }

  ghost predicate AllUpTo(conns: seq<nat>, links: map<nat, Link>, log: seq<Publication>, n: nat) {
    forall i :: 0 <= i < |conns| ==> conns[i] in links && UpTo(links[conns[i]], log, n)
  }

  ghost predicate NoRepeats(conns: seq<nat>) {
    forall i, j :: 0 <= i < j < |conns| ==> conns[i] != conns[j]
  }

  ghost predicate AllConsecutive(links: map<nat, Link>, log: seq<Publication>) {
    forall c :: c in links ==> Consecutive(links[c], log)
  }

  /** Where the surviving subscribers stand: up to date, except for the frame still to be sent. */
  ghost predicate Delivering(pub: PublisherAt, conns: seq<nat>, links: map<nat, Link>, log: seq<Publication>) {
    match pub
    case Copied => log != [] && NoRepeats(conns) && AllUpTo(conns, links, log, |log| - 1)
    case Sending(todo, live) =>
      && log != [] && NoRepeats(live + todo)
      && AllUpTo(live, links, log, |log|) && AllUpTo(todo, links, log, |log| - 1)
    case _ => NoRepeats(conns) && AllUpTo(conns, links, log, |log|)
  }

  ghost predicate Inv(s: System) {
    && Locking(s) && Counting(s) && Ordered(s.log, |s.applied|)
    && AllConsecutive(s.links, s.log) && Delivering(s.pub, s.subscribers, s.links, s.log)
  }

  // ---- Preservation -------------------------------------------------------

  lemma {:induction false} StreamLater(log: seq<Publication>, p: Publication, first: nat, last: nat)
    requires last <= |log|
    ensures Stream(log + [p], first, last) == Stream(log, first, last)
    decreases last
  {
    if last > first {
      StreamLater(log, p, first, last - 1);
      assert (log + [p])[last - 1] == log[last - 1];
    }
  }

  lemma LinksLater(conns: seq<nat>, links: map<nat, Link>, log: seq<Publication>, p: Publication)
    requires AllConsecutive(links, log) && AllUpTo(conns, links, log, |log|)
    ensures AllConsecutive(links, log + [p]) && AllUpTo(conns, links, log + [p], |log|)
  {
    forall c | c in links
      ensures Consecutive(links[c], log + [p])
      ensures UpTo(links[c], log, |log|) ==> UpTo(links[c], log + [p], |log|)
    {
      var l := links[c];
      StreamLater(log, p, l.joined, l.joined + l.whole);
    }
  }

  lemma OrderedMore(log: seq<Publication>, p: Publication, n: nat)
    requires Ordered(log, n) && p.trigger <= p.prefix == n
    ensures Ordered(log + [p], n)
  {
  }

  lemma CopyLogs(s: System, p: Publication)
    requires Inv(s) && s.pub == Reading && p.prefix == |s.applied| && p.trigger == s.mark
    ensures Ordered(s.log + [p], |s.applied|) && AllConsecutive(s.links, s.log + [p])
    ensures Delivering(Copied, s.subscribers, s.links, s.log + [p])
  {
    LinksLater(s.subscribers, s.links, s.log, p);
    OrderedMore(s.log, p, |s.applied|);
  }

  lemma CopyKeeps(s: System, records: seq<Record>)
    requires Inv(s) && Enabled(s, CopyBook(records))
    ensures Inv(Next(s, CopyBook(records)))
  {
    CopyLogs(s, Published(s, records));
  }

  lemma AcceptKeeps(s: System, conn: Option<nat>)
    requires Inv(s) && Enabled(s, Accept(conn))
    ensures Inv(Next(s, Accept(conn)))
  {
    if conn.Some? {
      assert conn.value !in s.subscribers;
    }
  }

  /** A whole frame brings a stream up to date; part of one leaves its whole frames alone. */
  lemma LinkAfterSend(l: Link, log: seq<Publication>, frame: seq<byte>, ok: bool, cut: nat)
    requires log != [] && UpTo(l, log, |log| - 1) && frame == log[|log| - 1].frame && (!ok ==> cut < |frame|)
    ensures Consecutive(AfterSend(l, frame, ok, cut), log)
    ensures ok ==> UpTo(AfterSend(l, frame, ok, cut), log, |log|)
  {
  }

  /** Changing one stream leaves the other connections where they were. */
  lemma OthersStay(conns: seq<nat>, links: map<nat, Link>, log: seq<Publication>, n: nat, c: nat, l: Link)
    requires AllUpTo(conns, links, log, n) && c !in conns
    ensures AllUpTo(conns, links[c := l], log, n)
  {
  }

  /** The streams after the head of the list was served. */
  lemma HeadServed(todo: seq<nat>, live: seq<nat>, links: map<nat, Link>, log: seq<Publication>, ok: bool, cut: nat)
    requires todo != [] && todo[0] in links && Delivering(Sending(todo, live), [], links, log)
    requires !ok ==> cut < |log[|log| - 1].frame|
    requires AllConsecutive(links, log)
    ensures var c := todo[0];
            var links' := links[c := AfterSend(links[c], log[|log| - 1].frame, ok, cut)];
            && Delivering(Sending(todo[1..], if ok then live + [c] else live), [], links', log)
            && AllConsecutive(links', log)
  {
    var c := todo[0];
    var l := AfterSend(links[c], log[|log| - 1].frame, ok, cut);
    LinkAfterSend(links[c], log, log[|log| - 1].frame, ok, cut);
    HeadApart(live, todo);
    OthersStay(live, links, log, |log|, c, l);
    OthersStay(todo[1..], links, log, |log| - 1, c, l);
  }

  /** Sending to the head of the list. */
  lemma SendKeeps(s: System, ok: bool, cut: nat)
    requires Inv(s) && Enabled(s, Send(ok, cut))
    ensures Inv(Next(s, Send(ok, cut)))
  {
    var t := Next(s, Send(ok, cut));
    HeadServed(s.pub.todo, s.pub.live, s.links, s.log, ok, cut);
    SendChanges(s, ok, cut, t);
    AnyConns(t.pub, s.subscribers, t.links, s.log);
    SendingInv(s, t);
  }

  /** What a send changes. */
  lemma SendChanges(s: System, ok: bool, cut: nat, t: System)
    requires Enabled(s, Send(ok, cut)) && t == Next(s, Send(ok, cut))
    ensures var c := s.pub.todo[0];
            && t.links == s.links[c := AfterSend(s.links[c], s.log[|s.log| - 1].frame, ok, cut)]
            && t.pub == Sending(s.pub.todo[1..], if ok then s.pub.live + [c] else s.pub.live)
            && t == s.(links := t.links, pub := t.pub)
  {
  }

  lemma SendingInv(s: System, t: System)
    requires Inv(s) && s.pub.Sending? && t == s.(links := t.links, pub := t.pub) && t.pub.Sending?
    requires AllConsecutive(t.links, t.log) && Delivering(t.pub, t.subscribers, t.links, t.log)
    ensures Inv(t)
  {
  }

  /** While frames are being sent, the subscriber list itself is not looked at. */
  lemma AnyConns(pub: PublisherAt, conns: seq<nat>, links: map<nat, Link>, log: seq<Publication>)
    requires pub.Sending? && Delivering(pub, [], links, log)
    ensures Delivering(pub, conns, links, log)
  {
  }

  /** The head of the second list occurs nowhere else in either. */
  lemma HeadApart(live: seq<nat>, todo: seq<nat>)
    requires NoRepeats(live + todo) && todo != []
    ensures todo[0] !in live && todo[0] !in todo[1..]
    ensures NoRepeats(live + [todo[0]] + todo[1..]) && NoRepeats(live + todo[1..])
  {
    var all := live + todo;
    assert live + [todo[0]] + todo[1..] == all;
    forall i | 0 <= i < |live|
      ensures live[i] != todo[0]
    {
      assert all[i] == live[i] && all[|live|] == todo[0];
    }
    forall i | 0 <= i < |todo| - 1
      ensures todo[1..][i] != todo[0]
    {
      assert all[|live|] == todo[0] && all[|live| + 1 + i] == todo[1..][i];
    }
    var rest := live + todo[1..];
    forall i, j | 0 <= i < j < |rest|
      ensures rest[i] != rest[j]
    {
      assert rest[i] == all[if i < |live| then i else i + 1] && rest[j] == all[if j < |live| then j else j + 1];
    }
  }

  lemma FinishKeeps(s: System)
    requires Inv(s) && Enabled(s, Finish)
    ensures Inv(Next(s, Finish))
  {
    assert s.pub.live + s.pub.todo == s.pub.live;
  }

  lemma UnlockKeeps(s: System)
    requires Inv(s) && Enabled(s, UnlockBook)
    ensures Inv(Next(s, UnlockBook))
  {
    SendingAll(s.subscribers, s.links, s.log);
  }

  lemma SendingAll(conns: seq<nat>, links: map<nat, Link>, log: seq<Publication>)
    requires Delivering(Copied, conns, links, log)
    ensures Delivering(Sending(conns, []), conns, links, log)
  {
    assert [] + conns == conns;
  }

  lemma OtherKeeps(s: System, a: Action)
    requires Inv(s) && Enabled(s, a)
    requires a.TakeLock? || a.ApplyOne? || a.DropLock? || a.Note? || a.Decide? || a.LockBook?
    ensures Inv(Next(s, a))
  {
  }

  /** Every step of either thread keeps the invariant. */
  lemma StepKeeps(s: System, a: Action)
    requires Inv(s) && Enabled(s, a)
    ensures Inv(Next(s, a))
  {
    match a
    case CopyBook(records) => CopyKeeps(s, records);
    case Accept(conn) => AcceptKeeps(s, conn);
    case Send(ok, cut) => SendKeeps(s, ok, cut);
    case UnlockBook => UnlockKeeps(s);
    case Finish => FinishKeeps(s);
    case _ => OtherKeeps(s, a);
  }
}
