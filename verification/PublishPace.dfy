/** How many frames a run of the two threads publishes: exactly one for each decision at which a trigger is met, and so
    at least one for every so many messages, and for every so much time, as long as the loop keeps coming round. */
module PublishPace {
  import Bytes
  import opened Publishers
  import opened PublishRuns
  import opened PublishSafety

  /** So many messages were counted since the last publication. */
  predicate EnoughMessages(s: System) {
    s.policy.every > 0 && s.noted >= s.mark + s.policy.every
  }

  /** So much time has passed since the last publication. */
  predicate EnoughTime(s: System, now: int) {
    s.policy.interval > 0 && now >= s.lastPublish + s.policy.interval
  }

  function One(b: bool): nat {
    if b then 1 else 0
  }

  /** A decision has been made whose frame is not captured yet. */
  function Pending(s: System): nat {
    One(s.pub == Waiting || s.pub == Reading)
  }

  /** The frames published and the one on its way. */
  function Frames(s: System): nat {
    |s.log| + Pending(s)
  }

  predicate Fires(s: System, a: Action) {
    a.Decide? && (EnoughMessages(s) || EnoughTime(s, a.now))
  }

  /** A decision goes for a frame if and only if a trigger is met, and then notes the counter and the time; otherwise it
      leaves everything as it was. No other step starts or drops a frame. */
  lemma DecideExact(s: System, a: Action)
    requires Enabled(s, a)
    ensures var t := Next(s, a);
            && Frames(t) == Frames(s) + One(Fires(s, a)) && t.policy == s.policy
            && (Fires(s, a) ==> t.pub == Waiting && t.mark == s.noted && t.lastPublish == a.now)
            && (a.Decide? && !Fires(s, a) ==> t == s.(pub := Polling))
            && (!Fires(s, a) ==> t.mark == s.mark && t.lastPublish == s.lastPublish)
  {
    if !a.Decide? && !a.CopyBook? {
      SameMark(s, a);
      Untimed(s, a);
    }
  }

  lemma Untimed(s: System, a: Action)
    requires Enabled(s, a) && !a.Decide?
    ensures Next(s, a).lastPublish == s.lastPublish
  {
  }

  /** The decisions of a run at which a trigger is met. */
  ghost function Firings(s: System, acts: seq<Action>): nat
    requires Possible(s, acts)
    decreases |acts|
  {
    if acts == [] then 0 else One(Fires(s, acts[0])) + Firings(Next(s, acts[0]), acts[1..])
  }

  lemma {:induction false} FiringsCount(s: System, acts: seq<Action>)
    requires Possible(s, acts)
    ensures Frames(Execute(s, acts)) == Frames(s) + Firings(s, acts)
    decreases |acts|
  {
    if acts != [] {
      DecideExact(s, acts[0]);
      FiringsCount(Next(s, acts[0]), acts[1..]);
    }
  }

  /** Over every run, under every policy, the frames are exactly the decisions at which a trigger was met. */
  lemma FramesExact(depth: nat, policy: Policy, now: int, acts: seq<Action>)
    requires Possible(Start(depth, policy, now), acts)
    ensures Frames(Execute(Start(depth, policy, now), acts)) == Firings(Start(depth, policy, now), acts)
  {
    FiringsCount(Start(depth, policy, now), acts);
  }

  // ---- Lower bounds -------------------------------------------------------

  /** What the latest decision of a run saw: the counter and the clock. */
  datatype Seen = Seen(msgs: nat, now: int)

  function Look(s: System, a: Action, seen: Seen): Seen {
    if a.Decide? then Seen(s.noted, a.now) else seen
  }

  /** At most so many messages were counted, and so much time passed, between decisions. */
  datatype Lag = Lag(msgs: nat, time: nat)

  predicate Prompt(s: System, a: Action, seen: Seen, lag: Lag) {
    a.Decide? ==> s.noted <= seen.msgs + lag.msgs && a.now <= seen.now + lag.time
  }

  ghost predicate AlwaysPrompt(s: System, acts: seq<Action>, seen: Seen, lag: Lag)
    requires Possible(s, acts)
    decreases |acts|
  {
    acts == [] ||
    (Prompt(s, acts[0], seen, lag) && AlwaysPrompt(Next(s, acts[0]), acts[1..], Look(s, acts[0], seen), lag))
  }

  ghost function LastSeen(s: System, acts: seq<Action>, seen: Seen): Seen
    requires Possible(s, acts)
    decreases |acts|
  {
    if acts == [] then seen else LastSeen(Next(s, acts[0]), acts[1..], Look(s, acts[0], seen))
  }

  /** After frames publications the amount measured by a trigger, last seen at now and last published at last, is within
      frames strides of where it began; a stride is one short of the trigger and one lag. */
  predicate Keeping(frames: nat, begin: int, last: int, now: int, trigger: nat, lag: nat) {
    trigger > 0 ==> last - begin <= frames * (trigger - 1 + lag) && now < last + trigger
  }

  lemma KeepingOn(frames: nat, begin: int, last: int, now: int, now': int, trigger: nat, lag: nat, fires: bool)
    requires Keeping(frames, begin, last, now, trigger, lag) && now' <= now + lag
    requires trigger > 0 && now' >= last + trigger ==> fires
    ensures Keeping(frames + One(fires), begin, if fires then now' else last, now', trigger, lag)
  {
    if fires && trigger > 0 {
      assert (frames + 1) * (trigger - 1 + lag) == frames * (trigger - 1 + lag) + (trigger - 1 + lag);
    }
  }

  /** Both triggers keep the publisher going. */
  predicate InPace(s: System, begin: int, seen: Seen, lag: Lag) {
    && Keeping(Frames(s), 0, s.mark, seen.msgs, s.policy.every, lag.msgs)
    && Keeping(Frames(s), begin, s.lastPublish, seen.now, s.policy.interval, lag.time)
  }

  lemma InPaceStep(s: System, a: Action, begin: int, seen: Seen, lag: Lag)
    requires Enabled(s, a) && Prompt(s, a, seen, lag) && InPace(s, begin, seen, lag)
    ensures InPace(Next(s, a), begin, Look(s, a, seen), lag)
  {
    DecideExact(s, a);
    if a.Decide? {
      KeepingOn(Frames(s), 0, s.mark, seen.msgs, s.noted, s.policy.every, lag.msgs, Fires(s, a));
      KeepingOn(Frames(s), begin, s.lastPublish, seen.now, a.now, s.policy.interval, lag.time, Fires(s, a));
    }
  }

  lemma {:induction false} InPaceRun(s: System, acts: seq<Action>, begin: int, seen: Seen, lag: Lag)
    requires Possible(s, acts) && AlwaysPrompt(s, acts, seen, lag) && InPace(s, begin, seen, lag)
    ensures InPace(Execute(s, acts), begin, LastSeen(s, acts, seen), lag)
    decreases |acts|
  {
    if acts != [] {
      InPaceStep(s, acts[0], begin, seen, lag);
      InPaceRun(Next(s, acts[0]), acts[1..], begin, Look(s, acts[0], seen), lag);
    }
  }

  lemma {:induction false} PolicyKept(s: System, acts: seq<Action>)
    requires Possible(s, acts)
    ensures Execute(s, acts).policy == s.policy
    decreases |acts|
  {
    if acts != [] {
      DecideExact(s, acts[0]);
      PolicyKept(Next(s, acts[0]), acts[1..]);
    }
  }

  /** Whatever else happens, the frames keep up with the messages and with the clock: what the latest decision saw is
      less than one trigger beyond frames times stride, a stride being one short of the trigger plus the most that comes
      in between two decisions. */
  lemma FramesKeepUp(depth: nat, policy: Policy, now: int, acts: seq<Action>, lag: Lag)
    requires Possible(Start(depth, policy, now), acts)
    requires AlwaysPrompt(Start(depth, policy, now), acts, Seen(0, now), lag)
    ensures var s := Start(depth, policy, now);
            var frames, seen := Frames(Execute(s, acts)), LastSeen(s, acts, Seen(0, now));
            && (policy.every > 0 ==> seen.msgs < frames * (policy.every - 1 + lag.msgs) + policy.every)
            && (policy.interval > 0 ==> seen.now - now < frames * (policy.interval - 1 + lag.time) + policy.interval)
  {
    var s := Start(depth, policy, now);
    InPaceRun(s, acts, now, Seen(0, now), lag);
    PolicyKept(s, acts);
    KeptUp(Execute(s, acts), policy, now, LastSeen(s, acts, Seen(0, now)), lag);
  }

  lemma KeptUp(s: System, policy: Policy, begin: int, seen: Seen, lag: Lag)
    requires InPace(s, begin, seen, lag) && s.policy == policy
    ensures policy.every > 0 ==> seen.msgs < Frames(s) * (policy.every - 1 + lag.msgs) + policy.every
    ensures policy.interval > 0 ==>
              seen.now - begin < Frames(s) * (policy.interval - 1 + lag.time) + policy.interval
  {
  }

  // ---- The message trigger alone, checked after every message -------------

  /** The mark of the latest frame was seen by then. */
  lemma {:induction false} MarkSeen(s: System, acts: seq<Action>, seen: Seen)
    requires Possible(s, acts) && s.mark <= seen.msgs <= s.noted
    ensures Execute(s, acts).mark <= LastSeen(s, acts, seen).msgs
    decreases |acts|
  {
    if acts != [] {
      DecideExact(s, acts[0]);
      NotedGrows(s, acts[0]);
      MarkSeen(Next(s, acts[0]), acts[1..], Look(s, acts[0], seen));
    }
  }

  lemma NotedGrows(s: System, a: Action)
    requires Enabled(s, a)
    ensures s.noted <= Next(s, a).noted
  {
  }

  lemma Floor(n: nat, every: nat, frames: nat)
    requires every > 0 && frames * every <= n < (frames + 1) * every
    ensures frames == n / every
  {
    Bytes.ModUnique(n, every, frames, n - frames * every);
    assert n == (n / every) * every + n % every;
    assert frames * every == (n / every) * every;
    SameFactor(frames, n / every, every);
  }

  lemma SameFactor(a: nat, b: nat, m: nat)
    requires m > 0 && a * m == b * m
    ensures a == b
  {
    Bytes.Distribute(a, b, m);
    Bytes.SmallMultiple(a - b, m);
  }

  /** The frames, published and on their way, are spaced by the trigger. */
  lemma FramesSpaced(s: System, every: nat)
    requires Paced(s) && s.policy == Policy(0, every)
    ensures Frames(s) * every <= s.mark
  {
    SpacedCount(s.log, every);
    assert (|s.log| + 1) * every == |s.log| * every + every;
  }

  lemma StartPaced(depth: nat, policy: Policy, now: int)
    ensures Paced(Start(depth, policy, now))
  {
  }

  /** With the message trigger alone and a decision after every message, there is a frame for every so many messages,
      neither more nor fewer. */
  lemma FramesEvery(depth: nat, every: nat, now: int, acts: seq<Action>, time: nat, s: System)
    requires every > 0 && s == Start(depth, Policy(0, every), now) && Possible(s, acts)
    requires AlwaysPrompt(s, acts, Seen(0, now), Lag(1, time))
    ensures Frames(Execute(s, acts)) == LastSeen(s, acts, Seen(0, now)).msgs / every
  {
    FramesKeepUp(depth, Policy(0, every), now, acts, Lag(1, time));
    MarkSeen(s, acts, Seen(0, now));
    StartPaced(depth, Policy(0, every), now);
    PaceRun(s, acts);
    PolicyKept(s, acts);
    Evenly(Execute(s, acts), every, LastSeen(s, acts, Seen(0, now)).msgs);
  }

  lemma Evenly(t: System, every: nat, seen: nat)
    requires every > 0 && Paced(t) && t.policy == Policy(0, every) && t.mark <= seen < Frames(t) * every + every
    ensures Frames(t) == seen / every
  {
    FramesSpaced(t, every);
    assert (Frames(t) + 1) * every == Frames(t) * every + every;
    Floor(seen, every, Frames(t));
  }
}
