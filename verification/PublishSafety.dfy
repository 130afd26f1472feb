/** What subscribers can rely on, in every state that any interleaving of the feed and publisher threads reaches. */
module PublishSafety {
  import opened Bytes
  import opened Itch
  import opened Routing
  import opened BookSnapshot
  import opened Capture
  import opened Publishers
  import opened PublishRuns

  // ---- What the log says about the books ----------------------------------

  /** Each book of the past comes from the one before by one message. */
  ghost predicate Replayed(depth: nat, applied: seq<Message>, past: seq<Depth>) {
    && |past| == |applied| + 1 && past[0] == Fresh(depth)
    && (forall i :: 0 <= i < |past| ==> Wf(past[i]))
    && (forall i :: 0 <= i < |applied| ==> Follows(past[i], applied[i], past[i + 1]))
  }

  ghost predicate Follows(d: Depth, m: Message, d': Depth) {
    Wf(d) && d' == Apply(d, m).0
  }

  /** Publication i is the frame of a capture of its prefix's book, under the next number. */
  ghost predicate Faithful(p: Publication, i: nat, past: seq<Depth>) {
    && p.prefix < |past| && Captures(p.snap.records, past[p.prefix].books)
    && p.frame == Frame(p.snap) && p.snap.sequence == (i + 1) % TWO64
  }

  ghost predicate AllFaithful(log: seq<Publication>, past: seq<Depth>) {
    forall i :: 0 <= i < |log| ==> Faithful(log[i], i, past)
  }

  ghost predicate Truthful(s: System) {
    && Replayed(s.depth, s.applied, s.past) && s.book == s.past[|s.applied|]
    && AllFaithful(s.log, s.past) && s.seqNo == |s.log| % TWO64
  }

  /** Which steps touch the history, and how. */
  lemma HistoryStep(s: System, a: Action)
    requires Enabled(s, a)
    ensures Next(s, a).depth == s.depth && Next(s, a).policy == s.policy
    ensures a.ApplyOne? ==>
              && Next(s, a).applied == s.applied + [a.m] && Next(s, a).past == s.past + [Next(s, a).book]
              && Follows(s.book, a.m, Next(s, a).book)
    ensures !a.ApplyOne? ==>
              Next(s, a).applied == s.applied && Next(s, a).past == s.past && Next(s, a).book == s.book
    ensures a.CopyBook? ==>
              && Next(s, a).log == s.log + [Published(s, a.records)] && Captures(a.records, s.book.books)
              && Next(s, a).seqNo == NextSeq(s.seqNo)
    ensures !a.CopyBook? ==> Next(s, a).log == s.log && Next(s, a).seqNo == s.seqNo
  {
  }

  lemma ReplayedMore(depth: nat, applied: seq<Message>, past: seq<Depth>, m: Message, d: Depth)
    requires Replayed(depth, applied, past) && Follows(past[|applied|], m, d)
    ensures Replayed(depth, applied + [m], past + [d])
  {
    var applied', past' := applied + [m], past + [d];
    FollowsWf(past[|applied|], m, d);
    forall i | 0 <= i < |past'|
      ensures Wf(past'[i])
    {
      if i < |past| {
        assert past'[i] == past[i];
      }
    }
    forall i | 0 <= i < |applied'|
      ensures Follows(past'[i], applied'[i], past'[i + 1])
    {
      FollowsAt(applied, past, m, d, i, past'[i], applied'[i], past'[i + 1]);
    }
  }

  lemma FollowsWf(d: Depth, m: Message, d': Depth)
    requires Follows(d, m, d')
    ensures Wf(d')
  {
  }

  lemma FollowsAt(applied: seq<Message>, past: seq<Depth>, m: Message, d: Depth, i: nat, x: Depth, n: Message, y: Depth)
    requires |past| == |applied| + 1 && i <= |applied| && Follows(past[|applied|], m, d)
    requires forall j :: 0 <= j < |applied| ==> Follows(past[j], applied[j], past[j + 1])
    requires x == past[i] && n == (if i < |applied| then applied[i] else m)
    requires y == if i < |applied| then past[i + 1] else d
    ensures Follows(x, n, y)
  {
    if i < |applied| {
      assert Follows(past[i], applied[i], past[i + 1]);
    }
  }

  lemma FaithfulLater(p: Publication, i: nat, past: seq<Depth>, d: Depth)
    requires Faithful(p, i, past)
    ensures Faithful(p, i, past + [d])
  {
    assert (past + [d])[p.prefix] == past[p.prefix];
  }

  lemma AllFaithfulLater(log: seq<Publication>, past: seq<Depth>, d: Depth)
    requires AllFaithful(log, past)
    ensures AllFaithful(log, past + [d])
  {
    forall i | 0 <= i < |log|
      ensures Faithful(log[i], i, past + [d])
    {
      FaithfulLater(log[i], i, past, d);
    }
  }

  lemma FaithfulMore(log: seq<Publication>, past: seq<Depth>, p: Publication)
    requires AllFaithful(log, past) && Faithful(p, |log|, past)
    ensures AllFaithful(log + [p], past)
  {
    var log' := log + [p];
    forall i | 0 <= i < |log'|
      ensures Faithful(log'[i], i, past)
    {
      FaithfulAt(log, past, p, i, log'[i]);
    }
  }

  lemma FaithfulAt(log: seq<Publication>, past: seq<Depth>, p: Publication, i: nat, q: Publication)
    requires AllFaithful(log, past) && Faithful(p, |log|, past)
    requires i <= |log| && q == if i < |log| then log[i] else p
    ensures Faithful(q, i, past)
  {
    if i < |log| {
      assert Faithful(log[i], i, past);
    }
  }

  lemma TruthAfterMessage(s: System, m: Message)
    requires Truthful(s) && Enabled(s, ApplyOne(m))
    ensures Truthful(Next(s, ApplyOne(m)))
  {
    var s' := Next(s, ApplyOne(m));
    HistoryStep(s, ApplyOne(m));
    ReplayedMore(s.depth, s.applied, s.past, m, s'.book);
    AllFaithfulLater(s.log, s.past, s'.book);
  }

  lemma TruthWithCopy(s: System, p: Publication)
    requires Truthful(s) && Faithful(p, |s.log|, s.past) && s.pub == Reading
    ensures Truthful(s.(seqNo := NextSeq(s.seqNo), log := s.log + [p], pub := Copied))
  {
    NextSeqCounts(|s.log|);
    FaithfulMore(s.log, s.past, p);
  }

  lemma TruthAfterCopy(s: System, records: seq<Record>)
    requires Truthful(s) && Enabled(s, CopyBook(records))
    ensures Truthful(Next(s, CopyBook(records)))
  {
    PublishedFaithful(s, records);
    TruthWithCopy(s, Published(s, records));
  }

  lemma TruthKept(s: System, a: Action)
    requires Truthful(s) && Enabled(s, a)
    ensures Truthful(Next(s, a))
  {
    match a
    case ApplyOne(m) => TruthAfterMessage(s, m);
    case CopyBook(records) => TruthAfterCopy(s, records);
    case _ => HistoryStep(s, a);
  }

  lemma PublishedFaithful(s: System, records: seq<Record>)
    requires Truthful(s) && Captures(records, s.book.books)
    ensures Faithful(Published(s, records), |s.log|, s.past)
  {
    NextSeqCounts(|s.log|);
  }

  lemma {:induction false} Kept(s: System, acts: seq<Action>)
    requires Inv(s) && Truthful(s) && Possible(s, acts)
    ensures Inv(Execute(s, acts)) && Truthful(Execute(s, acts))
    decreases |acts|
  {
    if acts != [] {
      StepKeeps(s, acts[0]);
      TruthKept(s, acts[0]);
      Kept(Next(s, acts[0]), acts[1..]);
    }
  }

  /** s is what some interleaving of the two threads leads to. */
  ghost predicate Reachable(s: System) {
    exists depth, policy, now, acts ::
      Possible(Start(depth, policy, now), acts) && s == Execute(Start(depth, policy, now), acts)
  }

  lemma ReachableSafe(s: System)
    requires Reachable(s)
    ensures Inv(s) && Truthful(s)
  {
    var depth, policy, now, acts :|
      Possible(Start(depth, policy, now), acts) && s == Execute(Start(depth, policy, now), acts);
    Kept(Start(depth, policy, now), acts);
  }

  lemma {:induction false} PastIsRun(depth: nat, applied: seq<Message>, past: seq<Depth>, i: nat)
    requires Replayed(depth, applied, past) && i <= |applied|
    ensures past[i] == Run(Fresh(depth), applied[..i])
  {
    if i > 0 {
      var k := i - 1;
      PastIsRun(depth, applied, past, k);
      assert applied[..i][..k] == applied[..k] && applied[..i][k] == applied[k];
      assert Follows(past[k], applied[k], past[k + 1]);
    }
  }

  /** Every frame is the capture of the book after some prefix of the applied messages; the prefixes never get
      shorter, and each holds at least as many messages as the counter showed when the frame was triggered. */
  lemma FramesArePrefixes(s: System, i: nat)
    requires Reachable(s) && i < |s.log|
    ensures var p := s.log[i];
            && p.trigger <= p.prefix <= |s.applied|
            && Captures(p.snap.records, Run(Fresh(s.depth), s.applied[..p.prefix]).books)
            && p.frame == Frame(p.snap) && p.snap.sequence == (i + 1) % TWO64
    ensures forall j :: 0 <= j < i ==> s.log[j].prefix <= s.log[i].prefix
  {
    ReachableSafe(s);
    assert Faithful(s.log[i], i, s.past);
    PastIsRun(s.depth, s.applied, s.past, s.log[i].prefix);
  }

  /** The publisher never holds the lock while it sends, and the feed thread can then always take it; the two are never
      inside their critical sections together. */
  lemma NeverHeldWhileSending(s: System)
    requires Reachable(s)
    ensures s.pub.Sending? ==> s.owner != PublisherThread && (s.feed == Idle ==> Enabled(s, TakeLock))
    ensures !((s.feed == Holding || s.feed == Changed) && (s.pub == Reading || s.pub == Copied))
    ensures s.feed == Holding ==> forall m :: Enabled(s, ApplyOne(m))
  {
    ReachableSafe(s);
  }

  /** Between rounds every surviving subscriber has been sent every frame since it joined, and nothing else. */
  lemma SurvivorsComplete(s: System, i: nat)
    requires Reachable(s) && (s.pub == Polling || s.pub == Deciding || s.pub == Waiting) && i < |s.subscribers|
    ensures s.subscribers[i] in s.links
    ensures var l := s.links[s.subscribers[i]];
            l.joined + l.whole == |s.log| && l.bytes == Stream(s.log, l.joined, |s.log|)
  {
    ReachableSafe(s);
  }

  // ---- The send loop ------------------------------------------------------

  /** The steps of one round of sends: sent says which connections take the frame. */
  function Round(todo: seq<nat>, sent: nat -> bool): seq<Action> {
    if todo == [] then [Finish] else [Send(sent(todo[0]), 0)] + Round(todo[1..], sent)
  }

  lemma OneStepMore(s: System, a: Action, more: seq<Action>)
    requires Enabled(s, a) && Possible(Next(s, a), more)
    ensures Possible(s, [a] + more) && Execute(s, [a] + more) == Execute(Next(s, a), more)
  {
    assert ([a] + more)[1..] == more;
  }

  lemma RoundEnds(s: System)
    requires Enabled(s, Finish)
    ensures Possible(s, [Finish]) && Execute(s, [Finish]) == s.(subscribers := s.pub.live, pub := Polling)
  {
    assert Possible(Next(s, Finish), []);
    OneStepMore(s, Finish, []);
    assert [Finish] + [] == [Finish];
  }

  lemma SurvivorsFront(live: seq<nat>, todo: seq<nat>, sent: nat -> bool)
    requires todo != []
    ensures var live' := if sent(todo[0]) then live + [todo[0]] else live;
            live' + Survivors(todo[1..], sent) == live + Survivors(todo, sent)
  {
  }

  /** However the sends go, a round can be completed, and it leaves the subscribers that the publisher's own loop
      keeps. */
  lemma {:induction false} RoundKeepsSurvivors(s: System, sent: nat -> bool)
    requires Inv(s) && Truthful(s) && s.pub.Sending?
    ensures Possible(s, Round(s.pub.todo, sent))
    ensures var t := Execute(s, Round(s.pub.todo, sent));
            t.subscribers == s.pub.live + Survivors(s.pub.todo, sent) && t.pub == Polling
    decreases |s.pub.todo|
  {
    if s.pub.todo == [] {
      RoundEnds(s);
    } else {
      var a := Send(sent(s.pub.todo[0]), 0);
      SendEnabled(s, sent(s.pub.todo[0]));
      StepKeeps(s, a);
      TruthKept(s, a);
      RoundKeepsSurvivors(Next(s, a), sent);
      OneStepMore(s, a, Round(s.pub.todo[1..], sent));
      SurvivorsFront(s.pub.live, s.pub.todo, sent);
    }
  }

  lemma SendEnabled(s: System, ok: bool)
    requires Inv(s) && Truthful(s) && s.pub.Sending? && s.pub.todo != []
    ensures Enabled(s, Send(ok, 0))
  {
    assert Faithful(s.log[|s.log| - 1], |s.log| - 1, s.past);
  }

  // ---- Pace ---------------------------------------------------------------

  ghost function LastTrigger(log: seq<Publication>): nat {
    if log == [] then 0 else log[|log| - 1].trigger
  }

  /** Without a time trigger, publications lie at least the configured number of messages apart. */
  ghost predicate Spaced(log: seq<Publication>, every: nat) {
    every != 0 && forall i :: 0 <= i < |log| ==> log[i].trigger >= LastTrigger(log[..i]) + every
  }

  ghost predicate Paced(s: System) {
    s.policy.interval == 0 ==>
      && (s.log != [] ==> Spaced(s.log, s.policy.every))
      && (if s.pub == Waiting || s.pub == Reading
          then s.policy.every != 0 && s.mark >= LastTrigger(s.log) + s.policy.every
          else s.mark == LastTrigger(s.log))
  }

  lemma SpacedMore(log: seq<Publication>, p: Publication, every: nat)
    requires every != 0 && (log != [] ==> Spaced(log, every)) && p.trigger >= LastTrigger(log) + every
    ensures Spaced(log + [p], every)
  {
    var log' := log + [p];
    forall i | 0 <= i < |log'|
      ensures log'[i].trigger >= LastTrigger(log'[..i]) + every
    {
      assert log'[..i] == log[..i];
      assert log[..|log|] == log;
    }
  }

  lemma PaceKept(s: System, a: Action)
    requires Paced(s) && Enabled(s, a)
    ensures Paced(Next(s, a))
  {
    match a
    case CopyBook(records) => PaceAfterCopy(s, records);
    case Decide(now) => PaceAfterDecision(s, now);
    case _ => PaceElsewhere(s, a);
  }

  lemma PaceAfterCopy(s: System, records: seq<Record>)
    requires Paced(s) && Enabled(s, CopyBook(records))
    ensures Paced(Next(s, CopyBook(records)))
  {
    var p := Published(s, records);
    if s.policy.interval == 0 {
      SpacedMore(s.log, p, s.policy.every);
      assert LastTrigger(s.log + [p]) == s.mark;
    }
  }

  lemma PaceAfterDecision(s: System, now: int)
    requires Paced(s) && Enabled(s, Decide(now))
    ensures Paced(Next(s, Decide(now)))
  {
  }

  /** The other steps neither move the mark nor the log, nor enter or leave the states in which the mark is ahead. */
  lemma PaceElsewhere(s: System, a: Action)
    requires Paced(s) && Enabled(s, a) && !a.CopyBook? && !a.Decide?
    ensures Paced(Next(s, a))
  {
    SameMark(s, a);
  }

  lemma SameMark(s: System, a: Action)
    requires Enabled(s, a) && !a.CopyBook? && !a.Decide?
    ensures var t := Next(s, a);
            && t.policy == s.policy && t.log == s.log && t.mark == s.mark
            && ((t.pub == Waiting || t.pub == Reading) <==> (s.pub == Waiting || s.pub == Reading))
  {
  }

  lemma {:induction false} PaceRun(s: System, acts: seq<Action>)
    requires Paced(s) && Possible(s, acts)
    ensures Paced(Execute(s, acts))
    decreases |acts|
  {
    if acts != [] {
      PaceKept(s, acts[0]);
      PaceRun(Next(s, acts[0]), acts[1..]);
    }
  }

  lemma {:induction false} SpacedCount(log: seq<Publication>, every: nat)
    requires log == [] || Spaced(log, every)
    ensures |log| * every <= LastTrigger(log)
    decreases |log|
  {
    if log != [] {
      var init := log[..|log| - 1];
      assert forall i :: 0 <= i < |init| ==> init[..i] == log[..i];
      SpacedCount(init, every);
      assert |log| * every == |init| * every + every;
    }
  }

  lemma ReachablePaced(s: System)
    requires Reachable(s)
    ensures Paced(s)
  {
    var depth, policy, now, acts :|
      Possible(Start(depth, policy, now), acts) && s == Execute(Start(depth, policy, now), acts);
    PaceRun(Start(depth, policy, now), acts);
  }

  lemma PacedCount(log: seq<Publication>, every: nat, mark: nat, noted: nat)
    requires log != [] ==> Spaced(log, every)
    requires LastTrigger(log) <= mark <= noted
    ensures |log| * every <= noted && (every == 0 ==> log == [])
  {
    SpacedCount(log, every);
  }

  /** With the message trigger alone, at most one frame is published for every so many counted messages; with both
      triggers off, none ever is. */
  lemma FramesBounded(s: System)
    requires Reachable(s) && s.policy.interval == 0
    ensures |s.log| * s.policy.every <= s.noted
    ensures s.policy.every == 0 ==> s.log == []
  {
    ReachableSafe(s);
    ReachablePaced(s);
    PacedCount(s.log, s.policy.every, s.mark, s.noted);
  }
}
