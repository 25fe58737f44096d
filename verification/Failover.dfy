/**
  Progress of the station failover: bounded in time from every reachable state,
  across the wrap of the 32-bit tick.
*/
module Failover {
  import opened Ticks
  import opened WifiStation

  /** Polls come at most `gap` ticks apart. */
  ghost predicate Punctual(s: Station, events: seq<Event>, gap: nat)
    decreases |events|
  {
    && s.clock <= s.lastPoll + gap
    && (events != [] ==> Punctual(Step(s, events[0]), events[1..], gap))
  }

  /** The intervals and the gap are far below the tick's range. */
  predicate Sane(hz: nat, gap: nat) {
    1 <= hz <= 1000 && AttemptTicks(hz) + CooldownTicks(hz) + gap < TICK_RANGE
  }

  ghost predicate Inv(s: Station) {
    && (s.configured <==> s.enabled.0 || s.enabled.1) && (s.connecting ==> s.configured)
    && s.started <= s.lastPoll <= s.clock && s.attemptStarted == At(s.started)
    && (s.connecting && !s.connected ==> s.lastPoll < s.started + AttemptTicks(s.hz))
  }

  lemma BootIsSound(hz: nat, enabled: (bool, bool), tick: nat)
    requires 1 <= hz
    ensures Inv(Boot(hz, enabled, tick))
  {
  }

  lemma PollIsSound(s: Station, first: Answer, second: Answer, gap: nat)
    requires Sane(s.hz, gap) && Inv(s) && s.clock <= s.lastPoll + gap
    ensures Inv(Poll(s, first, second))
  {
    hide Minus, At;
    assert AttemptTicks(s.hz) > 0;
    MinusIsElapsed(s.clock, s.started);
    assert s.connecting && !s.connected ==> s.clock - s.started < TICK_RANGE;
    if !s.connecting {
      ApplySound(s.(lastPoll := s.clock, polls := s.polls + 1), first, second);
    }
  }

  lemma ApplySound(s: Station, first: Answer, second: Answer)
    requires 1 <= s.hz && Inv(s) && s.lastPoll == s.clock && !s.connecting
    ensures Inv(ApplyTwo(s, first, second))
  {
    hide Minus, At;
    assert AttemptTicks(s.hz) > 0;
  }

  lemma StepIsSound(s: Station, e: Event, gap: nat)
    requires Sane(s.hz, gap) && Inv(s) && s.clock <= s.lastPoll + gap
    ensures Inv(Step(s, e))
  {
    hide Minus, At, MsToTicks, Poll;
    match e
    case Polled(first, second) => PollIsSound(s, first, second, gap);
    case _ =>
  }

  /** The invariant holds in every state that punctual polls can reach. */
  lemma {:induction false} StepsAreSound(s: Station, events: seq<Event>, gap: nat)
    requires Sane(s.hz, gap) && Inv(s) && Punctual(s, events, gap)
    ensures Inv(Steps(s, events)) && Steps(s, events).hz == s.hz && Steps(s, events).enabled == s.enabled
    ensures s.attempts <= Steps(s, events).attempts && Steps(s, events).clock >= s.clock
    decreases |events|
  {
    hide Inv, Step;
    if events != [] {
      StepIsSound(s, events[0], gap);
      StepEffects(s, events[0]);
      StepsAreSound(Step(s, events[0]), events[1..], gap);
    }
  }

  /** How long the station may stay without a connection and without a new attempt. */
  function Bound(hz: nat, gap: nat): nat {
    AttemptTicks(hz) + CooldownTicks(hz) + 2 * gap
  }

  /** The time at which the last poll saw the current wait, modulo the tick's range. */
  function Waited(s: Station): int {
    (s.lastPoll - s.started) % TICK_RANGE
  }

  /**
    What holds while nothing has happened since `since`: either the attempt of that
    time is still on, or no poll has seen the cooldown yet, or the polls see it run.
  */
  ghost predicate Quiet(s: Station, since: int, gap: nat) {
    && !s.connected
    && if s.connecting then s.started <= since
       else
         || s.lastPoll <= since + AttemptTicks(s.hz)
         || (Waited(s) <= CooldownTicks(s.hz)
             && s.lastPoll <= since + AttemptTicks(s.hz) + gap + Waited(s))
  }

  lemma QuietIsShort(s: Station, since: int, gap: nat)
    requires Inv(s) && Quiet(s, since, gap) && s.clock <= s.lastPoll + gap
    ensures s.clock <= since + Bound(s.hz, gap)
  {
  }

  lemma QuietStarts(s: Station, gap: nat)
    requires Inv(s) && !s.connected
    ensures Quiet(s, s.clock, gap)
  {
  }

  /** With an enabled profile, a poll that may attempt does. */
  lemma PollAttempts(s: Station, first: Answer, second: Answer)
    requires s.configured && !s.connected && (s.enabled.0 || s.enabled.1)
    requires MayAttempt(s)
    ensures |Poll(s, first, second).attempts| > |s.attempts|
  {
    hide Minus, At;
  }

  lemma PollStaysQuiet(s: Station, first: Answer, second: Answer, since: int, gap: nat)
    requires Sane(s.hz, gap) && Inv(s) && s.clock <= s.lastPoll + gap
    requires s.configured && Quiet(s, since, gap)
    ensures var t := Poll(s, first, second);
            |t.attempts| > |s.attempts| || Quiet(t, since, gap)
  {
    hide Minus, At;
    MinusIsElapsed(s.clock, s.started);
    if MayAttempt(s) {
      PollAttempts(s, first, second);
    } else if !s.connecting {
      var more := s.clock - s.lastPoll;
      if Waited(s) <= CooldownTicks(s.hz) {
        ElapsedGoesOn(s.lastPoll - s.started, more);
      }
    }
  }

  lemma StepStaysQuiet(s: Station, e: Event, since: int, gap: nat)
    requires Sane(s.hz, gap) && Inv(s) && s.clock <= s.lastPoll + gap
    requires s.configured && Quiet(s, since, gap)
    ensures var t := Step(s, e);
            t.connected || |t.attempts| > |s.attempts| || Quiet(t, since, gap)
  {
    if e.Polled? {
      PollStaysQuiet(s, e.first, e.second, since, gap);
    }
  }

  /**
    Something happens in every run that goes on for longer than the bound: by then the
    station is connected or an attempt is made, in the step that ends the prefix returned.
  */
  lemma {:induction false} FirstChange(s: Station, events: seq<Event>, since: int, gap: nat) returns (k: nat)
    requires Sane(s.hz, gap) && Inv(s) && Punctual(s, events, gap)
    requires s.configured && Quiet(s, since, gap)
    requires Steps(s, events).clock > since + Bound(s.hz, gap)
    ensures k < |events|
    ensures Steps(s, events[..k]).attempts == s.attempts
    ensures var t := Steps(s, events[..k + 1]);
            && t.clock <= since + Bound(s.hz, gap)
            && (t.connected || (events[k].Polled? && |t.attempts| > |s.attempts|))
    decreases |events|
  {
    hide Inv, Quiet, Step;
    QuietIsShort(s, since, gap);
    assert events != [];
    var e, rest := events[0], events[1..];
    var t := Step(s, e);
    StepIsSound(s, e, gap);
    StepStaysQuiet(s, e, since, gap);
    StepEffects(s, e);
    assert events[..1][1..] == [];
    if t.connected || |t.attempts| > |s.attempts| {
      k := 0;
      NotQuietConnected(s, since, gap);
    } else {
      var later := FirstChange(t, rest, since, gap);
      k := later + 1;
      assert events[..k][1..] == rest[..k - 1] && events[..k + 1][1..] == rest[..k];
    }
  }

  lemma NotQuietConnected(s: Station, since: int, gap: nat)
    requires Quiet(s, since, gap)
    ensures !s.connected
  {
  }

  lemma StepEffects(s: Station, e: Event)
    ensures var t := Step(s, e);
            && t.configured == s.configured && t.hz == s.hz && t.enabled == s.enabled && t.clock >= s.clock
            && (|t.attempts| > |s.attempts| ==> e.Polled? && t.clock == s.clock)
            && (t.connected && !s.connected ==> t.clock == s.clock)
            && s.attempts <= t.attempts
  {
    hide Poll;
    match e
    case Polled(first, second) => PollEffects(s, first, second);
    case _ =>
  }

  lemma PollEffects(s: Station, first: Answer, second: Answer)
    ensures var t := Poll(s, first, second);
            && t.configured == s.configured && t.hz == s.hz && t.enabled == s.enabled && t.clock == s.clock
            && s.attempts <= t.attempts
  {
    hide Minus, At, MsToTicks, Apply;
    var u := s.(lastPoll := s.clock, polls := s.polls + 1);
    ApplyEffects(u, u.nextSlot, first);
    ApplyEffects(Apply(u, u.nextSlot, first).0, Other(Apply(u, u.nextSlot, first).0.nextSlot), second);
  }

  lemma ApplyEffects(s: Station, slot: Slot, a: Answer)
    ensures var t := Apply(s, slot, a).0;
            && t.configured == s.configured && t.hz == s.hz && t.enabled == s.enabled && t.clock == s.clock
            && s.attempts <= t.attempts
  {
    hide At;
  }

  /** A state that some run with punctual polls reaches from a start at any time. */
  ghost predicate Reachable(s: Station, gap: nat) {
    exists hz, enabled, tick, events ::
      && Sane(hz, gap) && Punctual(Boot(hz, enabled, tick), events, gap)
      && s == Steps(Boot(hz, enabled, tick), events)
  }

  lemma ReachableIsSound(s: Station, gap: nat)
    requires Reachable(s, gap)
    ensures Inv(s) && Sane(s.hz, gap)
  {
    hide Inv, Steps, Punctual;
    var hz, enabled, tick, events :|
      && Sane(hz, gap) && Punctual(Boot(hz, enabled, tick), events, gap)
      && s == Steps(Boot(hz, enabled, tick), events);
    BootIsSound(hz, enabled, tick);
    StepsAreSound(Boot(hz, enabled, tick), events, gap);
  }

  /**
    Progress: from every reachable state with an enabled profile, under any events
    and polls at most `gap` ticks apart, within 10 s, 500 ms and two gaps the station is
    connected or has tried a profile, also across the wrap of the tick.
  */
  lemma Progress(s: Station, events: seq<Event>, gap: nat) returns (k: nat)
    requires Reachable(s, gap) && (s.enabled.0 || s.enabled.1) && Punctual(s, events, gap)
    requires Steps(s, events).clock > s.clock + Bound(s.hz, gap)
    ensures k <= |events|
    ensures var t := Steps(s, events[..k]);
            && t.clock <= s.clock + Bound(s.hz, gap) && 1000 * (t.clock - s.clock) <= 10_500 * s.hz + 2000 * gap
            && (t.connected || |t.attempts| > |s.attempts|)
  {
    hide Steps, Punctual;
    ReachableIsSound(s, gap);
    Intervals(s.hz, 0);
    if s.connected {
      k := 0;
      NoSteps(s, events);
    } else {
      QuietStarts(s, gap);
      k := FirstChange(s, events, s.clock, gap);
      k := k + 1;
    }
  }

  lemma NoSteps(s: Station, events: seq<Event>)
    ensures Steps(s, events[..0]) == s
  {
  }

  /**
    After a disconnection at most the cooldown is waited out: within 500 ms and two gaps
    the station is connected again or has tried a profile.
  */
  lemma LostConnectionIsRetried(s: Station, events: seq<Event>, gap: nat) returns (k: nat)
    requires Reachable(s, gap) && (s.enabled.0 || s.enabled.1) && s.clock <= s.lastPoll + gap
    requires var t := Step(s, Disconnected);
             && Punctual(t, events, gap)
             && Steps(t, events).clock > s.clock + CooldownTicks(s.hz) + 2 * gap
    ensures k <= |events|
    ensures var t := Steps(Step(s, Disconnected), events[..k]);
            && t.clock <= s.clock + CooldownTicks(s.hz) + 2 * gap
            && 1000 * (t.clock - s.clock) <= 500 * s.hz + 2000 * gap
            && (t.connected || |t.attempts| > |s.attempts|)
  {
    hide Steps, Punctual;
    WholeCooldown(s.hz);
    ReachableIsSound(s, gap);
    StepIsSound(s, Disconnected, gap);
    k := FirstChange(Step(s, Disconnected), events, s.clock - AttemptTicks(s.hz), gap);
    k := k + 1;
  }

  /** A connection, once there, lasts until a disconnection, and no profile is tried meanwhile. */
  lemma {:induction false} ConnectedIsLeftAlone(s: Station, events: seq<Event>)
    requires s.connected && Disconnected !in events
    ensures Steps(s, events).connected && Steps(s, events).attempts == s.attempts
    decreases |events|
  {
    if events != [] {
      assert events[0] in events;
      ConnectedIsLeftAlone(Step(s, events[0]), events[1..]);
    }
  }

  /** An address makes the station connected, and so it stays, with no attempt made, until a disconnection. */
  lemma AddressConnects(s: Station, events: seq<Event>)
    requires Disconnected !in events
    ensures var t := Steps(s, [GotIp] + events);
            t.connected && !t.connecting && t.attempts == s.attempts
  {
    assert ([GotIp] + events)[1..] == events;
    ConnectedIsLeftAlone(Step(s, GotIp), events);
    ConnectingStays(Step(s, GotIp), events);
  }

  /** A status query that finds the station associated does the same, but leaves `connecting` to the next address. */
  lemma AssociationConnects(s: Station, events: seq<Event>)
    requires Disconnected !in events
    ensures var t := Steps(s, [StatusAsked(true)] + events);
            t.connected && t.attempts == s.attempts && (t.connecting <==> s.connecting && GotIp !in events)
  {
    assert ([StatusAsked(true)] + events)[1..] == events;
    ConnectedIsLeftAlone(Step(s, StatusAsked(true)), events);
    ConnectingStays(Step(s, StatusAsked(true)), events);
  }

  lemma {:induction false} ConnectingStays(s: Station, events: seq<Event>)
    requires s.connected && Disconnected !in events
    ensures Steps(s, events).connecting <==> s.connecting && GotIp !in events
    decreases |events|
  {
    if events != [] {
      var e, rest := events[0], events[1..];
      assert e in events && events == [e] + rest;
      assert GotIp in events <==> e == GotIp || GotIp in rest;
      assert (Poll(s, Answer(true, true), Answer(true, true))).connecting == s.connecting;
      ConnectingStays(Step(s, e), rest);
    }
  }

  /** A status query that finds no association changes nothing. */
  lemma NoAssociation(s: Station)
    ensures Step(s, StatusAsked(false)) == s
  {
  }

  /** A poll that the driver answers well starts an attempt: connecting from now on, in the rotation's slot. */
  lemma AttemptStarts(s: Station, first: Answer, second: Answer)
    requires s.configured && !s.connected && MayAttempt(s) && s.Enabled(s.nextSlot) && first.setConfig && first.connect
    ensures var t := Poll(s, first, second);
            && t.connecting && !t.connected && t.started == s.clock && t.attemptStarted == At(s.clock)
            && t.attempts == s.attempts + [Attempt(s.nextSlot, s.polls + 1)]
            && t.activeSlot == s.nextSlot && t.nextSlot != s.nextSlot
  {
    hide Minus, At;
    assert MayAttempt(s.(lastPoll := s.clock, polls := s.polls + 1));
  }

  /** The intervals in milliseconds: so many ticks fall short of them, or do not. */
  lemma Intervals(hz: nat, ticks: nat)
    ensures ticks < AttemptTicks(hz) <==> 1000 * (ticks + 1) <= 10_000 * hz
    ensures ticks < CooldownTicks(hz) <==> 1000 * (ticks + 1) <= 500 * hz
    ensures 1000 * (AttemptTicks(hz) + CooldownTicks(hz)) <= 10_500 * hz
  {
  }

  lemma WholeCooldown(hz: nat)
    ensures 1000 * CooldownTicks(hz) <= 500 * hz
  {
  }

  /** An attempt is given its 10 s: until then it is on, and no other is made, unless something is heard of it. */
  lemma {:induction false} AttemptIsGivenItsTime(s: Station, events: seq<Event>)
    requires s.connecting && s.attemptStarted == At(s.started) && s.started <= s.clock && s.hz <= 1000
    requires Disconnected !in events && GotIp !in events
    requires 1000 * (Steps(s, events).clock - s.started + 1) <= 10_000 * s.hz
    ensures var t := Steps(s, events);
            t.connecting && t.attempts == s.attempts && t.activeSlot == s.activeSlot
    decreases |events|
  {
    if events != [] {
      hide Step;
      var e, rest := events[0], events[1..];
      assert e in events;
      ClockGrows(s, events);
      WaitingStep(s, e);
      AttemptIsGivenItsTime(Step(s, e), rest);
    }
  }

  lemma {:induction false} ClockGrows(s: Station, events: seq<Event>)
    ensures s.clock <= Steps(s, events).clock && (events != [] ==> Step(s, events[0]).clock <= Steps(s, events).clock)
    decreases |events|
  {
    hide Step;
    if events != [] {
      StepEffects(s, events[0]);
      ClockGrows(Step(s, events[0]), events[1..]);
    }
  }

  lemma WaitingStep(s: Station, e: Event)
    requires s.connecting && s.attemptStarted == At(s.started) && s.started <= s.clock && s.hz <= 1000
    requires e != Disconnected && e != GotIp && 1000 * (s.clock - s.started + 1) <= 10_000 * s.hz
    ensures var t := Step(s, e);
            && t.connecting && t.attempts == s.attempts && t.activeSlot == s.activeSlot && t.hz == s.hz
            && t.attemptStarted == s.attemptStarted && t.started == s.started && t.clock >= s.clock
  {
    hide Minus, At, MsToTicks;
    Intervals(s.hz, s.clock - s.started);
    MinusIsElapsed(s.clock, s.started);
  }

  /** After 10 s the first poll ends it, and the other slot is next. */
  lemma AttemptExpires(s: Station, first: Answer, second: Answer)
    requires s.configured && s.connecting && !s.connected && s.attemptStarted == At(s.started)
    requires 10_000 * s.hz < 1000 * (s.clock - s.started + 1) && s.clock - s.started < 0x1_0000_0000
    requires s.started <= s.clock
    ensures var t := Poll(s, first, second);
            && !t.connecting && t.attempts == s.attempts && t.nextSlot != s.activeSlot
            && t.started == s.clock && t.attemptStarted == At(s.clock)
  {
    hide Minus, At, MsToTicks;
    Intervals(s.hz, s.clock - s.started);
    MinusIsElapsed(s.clock, s.started);
    assert TimedOut(s.(lastPoll := s.clock, polls := s.polls + 1));
  }

  /**
    After an attempt is started, or given up by a poll, no other is made for 500 ms, whatever
    happens. The one exception is a start at the tick 0, which the counter cannot tell from none.
  */
  lemma {:induction false} CooldownIsKept(s: Station, events: seq<Event>)
    requires s.attemptStarted == At(s.started) && s.attemptStarted != 0 && s.started <= s.clock && s.hz <= 1000
    requires 1000 * (Steps(s, events).clock - s.started + 1) <= 500 * s.hz
    ensures Steps(s, events).attempts == s.attempts
    decreases |events|
  {
    if events != [] {
      hide Step;
      ClockGrows(s, events);
      CoolingStep(s, events[0]);
      CooldownIsKept(Step(s, events[0]), events[1..]);
    }
  }

  lemma CoolingStep(s: Station, e: Event)
    requires s.attemptStarted == At(s.started) && s.attemptStarted != 0 && s.started <= s.clock && s.hz <= 1000
    requires 1000 * (s.clock - s.started + 1) <= 500 * s.hz
    ensures var t := Step(s, e);
            && t.attempts == s.attempts && t.hz == s.hz && t.clock >= s.clock
            && t.attemptStarted == s.attemptStarted && t.started == s.started
  {
    hide Minus, At, MsToTicks;
    Intervals(s.hz, s.clock - s.started);
    MinusIsElapsed(s.clock, s.started);
  }

  /** Neighbouring attempts use different slots, unless one poll made both. */
  ghost predicate Alternates(attempts: seq<Attempt>) {
    forall k :: 0 < k < |attempts| ==>
      attempts[k].slot == if attempts[k].poll == attempts[k - 1].poll then attempts[k - 1].slot
                          else Other(attempts[k - 1].slot)
  }

  ghost predicate Rotating(s: Station) {
    && s.enabled.0 && s.enabled.1 && Alternates(s.attempts)
    && (forall k :: 0 <= k < |s.attempts| ==> s.attempts[k].poll <= s.polls)
    && (s.attempts != [] ==>
          var last := s.attempts[|s.attempts| - 1];
          s.activeSlot == last.slot && s.nextSlot == Other(last.slot))
  }

  predicate Accepts(e: Event) {
    e.Polled? ==> e.first.setConfig && e.second.setConfig
  }

  lemma PollRotates(s: Station, first: Answer, second: Answer)
    requires Rotating(s) && first.setConfig && second.setConfig
    ensures var t := Poll(s, first, second);
            && Rotating(t) && s.attempts <= t.attempts
            && forall k :: |s.attempts| <= k < |t.attempts| ==> t.attempts[k].poll == s.polls + 1
  {
    hide Minus, At;
    assert Other(Other(s.nextSlot)) == s.nextSlot;
  }

  lemma StepRotates(s: Station, e: Event)
    requires Rotating(s) && Accepts(e)
    ensures var t := Step(s, e);
            && Rotating(t) && s.attempts <= t.attempts && t.polls >= s.polls
            && forall k :: |s.attempts| <= k < |t.attempts| ==> t.attempts[k].poll > s.polls
  {
    if e.Polled? {
      PollRotates(s, e.first, e.second);
    }
  }

  lemma {:induction false} StepsRotate(s: Station, events: seq<Event>)
    requires Rotating(s) && forall e <- events :: Accepts(e)
    ensures Rotating(Steps(s, events)) && s.attempts <= Steps(s, events).attempts
    decreases |events|
  {
    hide Rotating, Step;
    if events != [] {
      assert events[0] in events;
      StepRotates(s, events[0]);
      StepsRotate(Step(s, events[0]), events[1..]);
    }
  }

  lemma {:induction false} RunSplits(s: Station, a: seq<Event>, b: seq<Event>, gap: nat)
    ensures Steps(s, a + b) == Steps(Steps(s, a), b)
    ensures Punctual(s, a + b, gap) ==> Punctual(s, a, gap) && Punctual(Steps(s, a), b, gap)
    decreases |a|
  {
    hide Step;
    if a == [] {
      assert a + b == b;
    } else {
      assert (a + b)[1..] == a[1..] + b;
      RunSplits(Step(s, a[0]), a[1..], b, gap);
    }
  }

  /** The same with both profiles enabled, when the driver accepts every configuration. */
  ghost predicate ReachableAccepting(s: Station, gap: nat) {
    exists hz, tick, events ::
      && Sane(hz, gap) && Punctual(Boot(hz, (true, true), tick), events, gap)
      && (forall e <- events :: Accepts(e)) && s == Steps(Boot(hz, (true, true), tick), events)
  }

  lemma ReachableRotates(s: Station, gap: nat)
    requires ReachableAccepting(s, gap)
    ensures Inv(s) && Sane(s.hz, gap) && Rotating(s)
  {
    hide Inv, Steps, Punctual, Rotating;
    var hz, tick, events :|
      && Sane(hz, gap) && Punctual(Boot(hz, (true, true), tick), events, gap)
      && (forall e <- events :: Accepts(e)) && s == Steps(Boot(hz, (true, true), tick), events);
    BootIsSound(hz, (true, true), tick);
    BootRotates(hz, tick);
    StepsAreSound(Boot(hz, (true, true), tick), events, gap);
    StepsRotate(Boot(hz, (true, true), tick), events);
  }

  /**
    With both profiles enabled and every configuration accepted, from any state of a run:
    within two such windows the station is connected or has tried both slots in turn.
  */
  lemma BothSlotsAreTried(s: Station, events: seq<Event>, gap: nat) returns (k: nat)
    requires ReachableAccepting(s, gap) && Punctual(s, events, gap) && forall e <- events :: Accepts(e)
    requires Steps(s, events).clock > s.clock + 2 * Bound(s.hz, gap)
    ensures k <= |events|
    ensures var t := Steps(s, events[..k]);
            && t.clock <= s.clock + 2 * Bound(s.hz, gap)
            && (t.connected
                || exists i :: |s.attempts| < i < |t.attempts| && t.attempts[i].slot == Other(t.attempts[i - 1].slot))
  {
    hide Steps, Punctual, Inv, Rotating;
    ReachableRotates(s, gap);
    ConfiguredIfRotating(s);
    if s.connected {
      k := 0;
      NoSteps(s, events);
      return;
    }
    QuietStarts(s, gap);
    var first := FirstChange(s, events, s.clock, gap);
    var before, after := events[..first + 1], events[first + 1..];
    var t := Steps(s, before);
    assert events == before + after;
    RunSplits(s, before, after, gap);
    StepsAreSound(s, before, gap);
    StepsRotate(s, before);
    if t.connected {
      k := first + 1;
      return;
    }
    ConfiguredIfRotating(t);
    QuietStarts(t, gap);
    var second := FirstChange(t, after, t.clock, gap);
    k := first + 1 + (second + 1);
    assert events[..k] == before + after[..second + 1];
    RunSplits(s, before, after[..second + 1], gap);
    var u := Steps(t, after[..second + 1]);
    if !u.connected {
      SecondAttemptRotates(t, after, second);
      assert u.attempts[|t.attempts|].slot == Other(u.attempts[|t.attempts| - 1].slot);
    }
  }

  /** The next attempt after a rotating state goes to the other slot. */
  lemma SecondAttemptRotates(t: Station, events: seq<Event>, k: nat)
    requires Rotating(t) && t.attempts != [] && (forall e <- events :: Accepts(e)) && k < |events|
    requires Steps(t, events[..k]).attempts == t.attempts
    requires |Steps(t, events[..k + 1]).attempts| > |t.attempts|
    ensures var u := Steps(t, events[..k + 1]);
            u.attempts[|t.attempts|].slot == Other(u.attempts[|t.attempts| - 1].slot)
  {
    hide Steps, Rotating, Step;
    var u := Steps(t, events[..k]);
    assert forall e <- events[..k] :: e in events;
    StepsRotate(t, events[..k]);
    assert events[..k + 1] == events[..k] + [events[k]];
    RunSplits(t, events[..k], [events[k]], 0);
    OneStep(u, events[k]);
    StepRotates(u, events[k]);
    NewPollNewSlot(u, Step(u, events[k]));
  }

  lemma ConfiguredIfRotating(s: Station)
    requires Inv(s) && Rotating(s)
    ensures s.configured
  {
  }

  lemma OneStep(s: Station, e: Event)
    ensures Steps(s, [e]) == Step(s, e)
  {
    assert [e][1..] == [];
  }

  lemma NewPollNewSlot(s: Station, t: Station)
    requires Rotating(s) && Rotating(t) && s.attempts != [] && s.attempts < t.attempts
    requires forall k :: |s.attempts| <= k < |t.attempts| ==> t.attempts[k].poll > s.polls
    ensures t.attempts[|s.attempts|].slot == Other(t.attempts[|s.attempts| - 1].slot)
  {
    var n := |s.attempts|;
    assert t.attempts[n - 1] == s.attempts[n - 1];
    assert t.attempts[n].poll > s.polls >= t.attempts[n - 1].poll;
  }

  lemma BootRotates(hz: nat, tick: nat)
    ensures Rotating(Boot(hz, (true, true), tick))
  {
  }

  /**
    Failover within one poll, with both profiles enabled: after a first attempt that
    fails, the second goes to the other slot exactly when the driver refused the
    configuration; when it only refused to connect, the very same slot is tried again.
  */
  lemma SecondTurn(s: Station, first: Answer, second: Answer)
    requires s.enabled.0 && s.enabled.1 && s.configured && !s.connected && MayAttempt(s)
    requires !(first.setConfig && first.connect)
    ensures exists again: Attempt ::
              && Poll(s, first, second).attempts == s.attempts + [Attempt(s.nextSlot, s.polls + 1), again]
              && (again.slot != s.nextSlot <==> !first.setConfig)
  {
    hide Minus, At;
    var again := Attempt(if first.setConfig then s.nextSlot else Other(s.nextSlot), s.polls + 1);
    assert Other(Other(s.nextSlot)) == s.nextSlot;
    assert MayAttempt(s.(lastPoll := s.clock, polls := s.polls + 1));
    assert Poll(s, first, second).attempts == s.attempts + [Attempt(s.nextSlot, s.polls + 1), again];
  }

  /** Every attempt was made on an enabled profile. */
  predicate OnlyEnabled(s: Station) {
    forall a <- s.attempts :: if a.slot == 0 then s.enabled.0 else s.enabled.1
  }

  lemma PollTriesEnabled(s: Station, first: Answer, second: Answer)
    requires OnlyEnabled(s)
    ensures OnlyEnabled(Poll(s, first, second))
  {
    hide Minus, At, MsToTicks;
  }

  /** Along every run only enabled profiles are tried. */
  lemma {:induction false} OnlyEnabledAreTried(s: Station, events: seq<Event>)
    requires OnlyEnabled(s)
    ensures OnlyEnabled(Steps(s, events))
    decreases |events|
  {
    hide Poll;
    if events != [] {
      if events[0].Polled? {
        PollTriesEnabled(s, events[0].first, events[0].second);
      }
      OnlyEnabledAreTried(Step(s, events[0]), events[1..]);
    }
  }
}
