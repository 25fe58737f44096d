/**
  What the cooperative Wi-Fi service guarantees over every run: fair rotation over
  the enabled slots and a minimal spacing of its requests.
*/
module WifiRotation {
  import opened CStrings
  import opened WifiService

  /** The operations of the service. */
  datatype Event =
    | Ticked(moment: Moment)
    | Configured(slot: nat, ssid: Option<string>, password: Option<string>, now: nat)
    | Cleared(slot: nat)
    | AllCleared

  ghost function Step(s: Service, e: Event): Service
    requires s.profiles != []
  {
    match e
    case Ticked(m) => Tick(s, m).0
    case Configured(slot, ssid, password, now) => Configure(s, slot, ssid, password, now).1
    case Cleared(slot) => ClearSlot(s, slot)
    case AllCleared => Clear(s)
  }

  /** `configured` tells whether some slot is enabled, and enabled slots hold usable credentials. */
  ghost predicate Consistent(s: Service) {
    && s.profiles != [] && s.nextProfile < |s.profiles|
    && (s.configured <==> AnyEnabled(s.profiles))
    && forall p <- s.profiles :: p.enabled ==> p.ssid != "" && |p.ssid| <= 32 && |p.password| <= 64
  }

  lemma StepKeepsConsistent(s: Service, e: Event)
    requires Consistent(s)
    ensures Consistent(Step(s, e))
  {
    match e
    case Ticked(_) =>
    case Configured(slot, ssid, password, _) =>
      var t := Step(s, e);
      if slot < |s.profiles| {
        assert Configure(s, slot, ssid, password, 0).0 ==> t.profiles[slot].enabled;
      }
    case Cleared(slot) =>
    case AllCleared =>
  }

  /** The service after a run of ticks. */
  function Run(s: Service, moments: seq<Moment>): (r: Service)
    requires s.profiles != []
    ensures r.profiles == s.profiles
    decreases |moments|
  {
    if moments == [] then s else Run(Tick(s, moments[0]).0, moments[1..])
  }

  /** The request made at each tick of a run. */
  function Requests(s: Service, moments: seq<Moment>): (r: seq<Request>)
    requires s.profiles != []
    ensures |r| == |moments|
    decreases |moments|
  {
    if moments == [] then [] else [Tick(s, moments[0]).1] + Requests(Tick(s, moments[0]).0, moments[1..])
  }

  lemma {:induction false} RequestAt(s: Service, moments: seq<Moment>, i: nat)
    requires s.profiles != [] && i < |moments|
    ensures Requests(s, moments)[i] == Tick(Run(s, moments[..i]), moments[i]).1
    ensures Run(s, moments[..i + 1]) == Tick(Run(s, moments[..i]), moments[i]).0
    decreases i
  {
    hide Tick;
    var t := Tick(s, moments[0]).0;
    if i == 0 {
      assert moments[..1][1..] == [];
    } else {
      RequestAt(t, moments[1..], i - 1);
      assert moments[1..][..i - 1] == moments[..i][1..];
      assert moments[1..][..i] == moments[..i + 1][1..];
    }
  }

  /** The slots of the attempts among some requests. */
  function Attempts(requests: seq<Request>): seq<nat> {
    if requests == [] then []
    else (if requests[0].Begin? then [requests[0].slot] else []) + Attempts(requests[1..])
  }

  /** The next enabled slot from `from`. */
  function Next(profiles: seq<Profile>, from: nat): nat
    requires profiles != []
  {
    NextFrom(profiles, from, 0)
  }

  /** `count` slots in rotation, starting at the first enabled one from `from`. */
  function Rotation(profiles: seq<Profile>, from: nat, count: nat): (r: seq<nat>)
    requires profiles != []
    ensures |r| == count
    decreases count
  {
    if count == 0 then []
    else
      var slot := Next(profiles, from);
      [slot] + Rotation(profiles, (slot + 1) % |profiles|, count - 1)
  }

  lemma TickRotates(s: Service, m: Moment)
    requires Consistent(s)
    ensures var (t, request) := Tick(s, m);
            if request.Begin? then
              request.slot == Next(s.profiles, s.nextProfile) && t.nextProfile == (request.slot + 1) % |s.profiles|
            else t.nextProfile == s.nextProfile
  {
  }

  lemma AttemptsCons(request: Request, more: seq<Request>)
    ensures Attempts([request] + more) == (if request.Begin? then [request.slot] else []) + Attempts(more)
  {
    assert ([request] + more)[1..] == more;
  }

  /** Attempts follow the rotation, whatever the driver reports and whenever ticks come. */
  lemma {:induction false} AttemptsRotate(s: Service, moments: seq<Moment>)
    requires Consistent(s)
    ensures var attempts := Attempts(Requests(s, moments));
            attempts == Rotation(s.profiles, s.nextProfile, |attempts|)
    decreases |moments|
  {
    hide Tick, Next, Consistent;
    if moments != [] {
      NotEmpty(s);
      var (t, request) := Tick(s, moments[0]);
      StepKeepsConsistent(s, Ticked(moments[0]));
      TickRotates(s, moments[0]);
      AttemptsRotate(t, moments[1..]);
      AttemptsCons(request, Requests(t, moments[1..]));
    }
  }

  lemma NotEmpty(s: Service)
    requires Consistent(s)
    ensures s.profiles != []
  {
  }

  /** Every attempt uses the stored credentials of an enabled slot. */
  lemma AttemptsUseStoredCredentials(s: Service, moments: seq<Moment>, i: nat)
    requires s.profiles != [] && i < |moments| && Requests(s, moments)[i].Begin?
    ensures var r := Requests(s, moments)[i];
            && r.slot < |s.profiles| && s.profiles[r.slot] == Profile(r.ssid, r.password, true)
  {
    RequestAt(s, moments, i);
  }

  /** The enabled slots met on one lap from `from`, from `offset` places on. */
  function Lap(profiles: seq<Profile>, from: nat, offset: nat): seq<nat>
    requires profiles != [] && offset <= |profiles|
    decreases |profiles| - offset
  {
    if offset == |profiles| then []
    else
      var slot := Around(|profiles|, from, offset);
      (if profiles[slot].enabled then [slot] else []) + Lap(profiles, from, offset + 1)
  }

  lemma AroundIs(n: nat, from: nat, offset: nat)
    requires from < n && offset <= n
    ensures Around(n, from, offset) == if from + offset < n then from + offset else from + offset - n
  {
  }

  /** How far a slot lies ahead of `from`. */
  function Ahead(n: nat, from: nat, slot: nat): int {
    if slot >= from then slot - from else slot + n - from
  }

  ghost function EnabledSlots(profiles: seq<Profile>): set<nat> {
    set x | 0 <= x < |profiles| && profiles[x].enabled
  }

  /** The enabled slots at least `offset` places ahead of `from`. */
  ghost function EnabledAhead(profiles: seq<Profile>, from: nat, offset: nat): set<nat> {
    set x | 0 <= x < |profiles| && profiles[x].enabled && Ahead(|profiles|, from, x) >= offset
  }

  lemma OneStepAhead(profiles: seq<Profile>, from: nat, offset: nat)
    requires from < |profiles| && offset < |profiles|
    ensures var slot := Around(|profiles|, from, offset);
            && slot !in EnabledAhead(profiles, from, offset + 1)
            && EnabledAhead(profiles, from, offset)
               == EnabledAhead(profiles, from, offset + 1) + if profiles[slot].enabled then {slot} else {}
  {
    hide Around;
    AroundIs(|profiles|, from, offset);
  }

  /** A lap meets each enabled slot that lies at least `offset` ahead exactly once. */
  lemma {:induction false} LapMeetsEach(profiles: seq<Profile>, from: nat, offset: nat)
    requires profiles != [] && from < |profiles| && offset <= |profiles|
    ensures multiset(Lap(profiles, from, offset)) == multiset(EnabledAhead(profiles, from, offset))
    decreases |profiles| - offset
  {
    if offset < |profiles| {
      hide Around, EnabledAhead;
      var slot := Around(|profiles|, from, offset);
      var rest := Lap(profiles, from, offset + 1);
      var ahead := EnabledAhead(profiles, from, offset + 1);
      LapMeetsEach(profiles, from, offset + 1);
      OneStepAhead(profiles, from, offset);
      if profiles[slot].enabled {
        assert multiset([slot] + rest) == multiset{slot} + multiset(rest);
        assert multiset(ahead + {slot}) == multiset(ahead) + multiset{slot};
      } else {
        assert [] + rest == rest;
      }
    } else {
      assert EnabledAhead(profiles, from, offset) == {};
    }
  }

  lemma LapIsEnabledSlots(profiles: seq<Profile>, from: nat)
    requires profiles != [] && from < |profiles|
    ensures multiset(Lap(profiles, from, 0)) == multiset(EnabledSlots(profiles))
    ensures |Lap(profiles, from, 0)| == |EnabledSlots(profiles)|
  {
    hide Lap;
    LapMeetsEach(profiles, from, 0);
    assert EnabledAhead(profiles, from, 0) == EnabledSlots(profiles);
    assert |Lap(profiles, from, 0)| == |multiset(Lap(profiles, from, 0))|;
  }

  /** The next slot, cyclically. */
  function After(n: nat, slot: nat): nat {
    if slot + 1 < n then slot + 1 else 0
  }

  lemma AfterIs(n: nat, slot: nat)
    requires slot < n
    ensures (slot + 1) % n == After(n, slot)
  {
  }

  lemma AroundAfter(n: nat, from: nat, offset: nat)
    requires from < n && offset < n
    ensures Around(n, from, offset + 1) == Around(n, After(n, from), offset)
    ensures Around(n, from, offset + 1) == After(n, Around(n, from, offset))
  {
    hide Around;
    AroundIs(n, from, offset);
    AroundIs(n, from, offset + 1);
    AroundIs(n, After(n, from), offset);
  }

  lemma FullCircle(n: nat, from: nat)
    requires from < n
    ensures Around(n, from, n) == Around(n, from, 0) == from
  {
    hide Around;
    AroundIs(n, from, n);
    AroundIs(n, from, 0);
  }

  /** Scanning past a disabled slot finds the same slot as starting one further on. */
  lemma {:induction false} ScanShift(profiles: seq<Profile>, from: nat, offset: nat)
    requires from < |profiles| && !profiles[from].enabled && offset < |profiles|
    ensures NextFrom(profiles, from, offset + 1) == NextFrom(profiles, After(|profiles|, from), offset)
    decreases |profiles| - offset
  {
    hide Around, After;
    AroundAfter(|profiles|, from, offset);
    if offset + 1 < |profiles| {
      ScanShift(profiles, from, offset + 1);
    } else {
      FullCircle(|profiles|, from);
      assert NextFrom(profiles, After(|profiles|, from), offset + 1) == |profiles|;
    }
  }

  lemma NextSkips(profiles: seq<Profile>, from: nat)
    requires from < |profiles| && !profiles[from].enabled
    ensures Next(profiles, from) == Next(profiles, After(|profiles|, from))
  {
    FullCircle(|profiles|, from);
    ScanShift(profiles, from, 0);
  }

  lemma NextStays(profiles: seq<Profile>, from: nat)
    requires from < |profiles| && profiles[from].enabled
    ensures Next(profiles, from) == from
  {
    FullCircle(|profiles|, from);
  }

  /** The rotation runs through the lap. */
  lemma {:induction false} RotationIsLap(profiles: seq<Profile>, from: nat, offset: nat)
    requires profiles != [] && from < |profiles| && offset <= |profiles|
    ensures Rotation(profiles, Around(|profiles|, from, offset), |Lap(profiles, from, offset)|)
         == Lap(profiles, from, offset)
    decreases |profiles| - offset
  {
    if offset < |profiles| {
      hide Around, Next, After;
      var n := |profiles|;
      var slot := Around(n, from, offset);
      AroundAfter(n, from, offset);
      AfterIs(n, slot) by { AroundInRange(n, from, offset); }
      RotationIsLap(profiles, from, offset + 1);
      var rest := Lap(profiles, from, offset + 1);
      if profiles[slot].enabled {
        NextStays(profiles, slot);
      } else {
        NextSkips(profiles, slot);
        assert [] + rest == rest;
      }
    }
  }

  lemma AroundInRange(n: nat, from: nat, offset: nat)
    requires n > 0
    ensures Around(n, from, offset) < n
  {
  }

  /** Any stretch of a rotation is a rotation. */
  lemma {:induction false} RotationWindow(profiles: seq<Profile>, from: nat, i: nat, k: nat, count: nat)
      returns (start: nat)
    requires profiles != [] && from < |profiles| && i + k <= count
    ensures start < |profiles| && Rotation(profiles, from, count)[i..i + k] == Rotation(profiles, start, k)
    decreases i + k
  {
    hide Next;
    var r := Rotation(profiles, from, count);
    if i > 0 {
      var next := (Next(profiles, from) + 1) % |profiles|;
      start := RotationWindow(profiles, next, i - 1, k, count - 1);
      assert r[i..i + k] == r[1..][i - 1..i - 1 + k];
    } else {
      start := from;
      if k > 0 {
        var next := (Next(profiles, from) + 1) % |profiles|;
        RotationPrefix(profiles, next, k - 1, count - 1);
        assert r[0..k] == [r[0]] + r[1..][..k - 1];
      }
    }
  }

  lemma {:induction false} RotationPrefix(profiles: seq<Profile>, from: nat, k: nat, count: nat)
    requires profiles != [] && k <= count
    ensures Rotation(profiles, from, count)[..k] == Rotation(profiles, from, k)
    decreases k
  {
    hide Next;
    if k > 0 {
      var next := (Next(profiles, from) + 1) % |profiles|;
      RotationPrefix(profiles, next, k - 1, count - 1);
      var r := Rotation(profiles, from, count);
      assert r[..k] == [r[0]] + r[1..][..k - 1];
    }
  }

  /**
    Round-robin fairness: while profiles are unchanged, any consecutive attempts as
    many as there are enabled slots use each enabled slot exactly once.
  */
  lemma RoundRobin(s: Service, moments: seq<Moment>, i: nat)
    requires Consistent(s)
    requires i + |EnabledSlots(s.profiles)| <= |Attempts(Requests(s, moments))|
    ensures var attempts := Attempts(Requests(s, moments));
            var k := |EnabledSlots(s.profiles)|;
            multiset(attempts[i..i + k]) == multiset(EnabledSlots(s.profiles))
  {
    hide Requests, Attempts, Rotation, Lap, Around;
    var attempts := Attempts(Requests(s, moments));
    var k := |EnabledSlots(s.profiles)|;
    AttemptsRotate(s, moments);
    var start := RotationWindow(s.profiles, s.nextProfile, i, k, |attempts|);
    LapIsEnabledSlots(s.profiles, start);
    RotationIsLap(s.profiles, start, 0);
    AroundIs(|s.profiles|, start, 0);
  }

  /** The earliest next request never moves back. */
  lemma {:induction false} WaitOnlyGrows(s: Service, moments: seq<Moment>)
    requires s.profiles != []
    ensures Run(s, moments).nextAttemptAt >= s.nextAttemptAt
    decreases |moments|
  {
    if moments != [] {
      WaitOnlyGrows(Tick(s, moments[0]).0, moments[1..]);
    }
  }

  lemma {:induction false} RunConcat(s: Service, a: seq<Moment>, b: seq<Moment>)
    requires s.profiles != []
    ensures Run(s, a + b) == Run(Run(s, a), b)
    decreases |a|
  {
    hide Tick;
    if a == [] {
      assert a + b == b;
    } else {
      assert (a + b)[1..] == a[1..] + b;
      RunConcat(Tick(s, a[0]).0, a[1..], b);
    }
  }

  lemma WaitBetween(s: Service, moments: seq<Moment>, i: nat, j: nat)
    requires s.profiles != [] && i <= j <= |moments|
    ensures Run(s, moments[..i]).nextAttemptAt <= Run(s, moments[..j]).nextAttemptAt
  {
    assert moments[..j] == moments[..i] + moments[i..j];
    RunConcat(s, moments[..i], moments[i..j]);
    WaitOnlyGrows(Run(s, moments[..i]), moments[i..j]);
  }

  /**
    Attempt spacing under any driver: two attempts are 10 s apart, and an attempt
    follows a disconnect by at least 500 ms.
  */
  lemma RequestsAreSpaced(s: Service, moments: seq<Moment>, i: nat, j: nat)
    requires s.profiles != [] && i < j < |moments|
    requires !Requests(s, moments)[i].Nothing? && !Requests(s, moments)[j].Nothing?
    ensures moments[j].now >= moments[i].now +
              if Requests(s, moments)[i].Begin? then 10_000 else 500
  {
    hide Run, Requests;
    RequestAt(s, moments, i);
    RequestAt(s, moments, j);
    WaitBetween(s, moments, i + 1, j);
  }

  /** Nothing is asked of a driver that is busy, of one whose wait is not over, or without an enabled slot. */
  lemma BusyDriverIsLeftAlone(s: Service, moments: seq<Moment>, i: nat)
    requires s.profiles != [] && i < |moments| && !Requests(s, moments)[i].Nothing?
    ensures !moments[i].connected && !moments[i].connecting
    ensures moments[i].now >= s.nextAttemptAt && AnyEnabled(s.profiles)
  {
    RequestAt(s, moments, i);
    WaitBetween(s, moments, 0, i);
    assert moments[..0] == [];
    var slot := NextFrom(s.profiles, Run(s, moments[..i]).nextProfile, 0);
    assert s.profiles[slot].enabled;
  }

  /** A tick that may lead to a request: the driver is idle and the wait is over. */
  predicate Ready(m: Moment, nextAttemptAt: nat) {
    !m.connected && !m.connecting && m.now >= nextAttemptAt
  }

  ghost predicate SomeReady(moments: seq<Moment>, nextAttemptAt: nat) {
    exists i :: 0 <= i < |moments| && Ready(moments[i], nextAttemptAt)
  }

  ghost predicate SomeRequest(requests: seq<Request>) {
    exists i :: 0 <= i < |requests| && !requests[i].Nothing?
  }

  /** With an enabled slot a ready tick makes a request, and any other only takes note of the driver. */
  lemma ReadyTick(s: Service, m: Moment)
    requires Consistent(s) && s.configured
    ensures !Tick(s, m).1.Nothing? <==> Ready(m, s.nextAttemptAt)
    ensures !Ready(m, s.nextAttemptAt) ==> Tick(s, m).0 == s.(state := Tick(s, m).0.state)
  {
    var i :| 0 <= i < |s.profiles| && s.profiles[i].enabled;
    SomeIsFound(s.profiles, s.nextProfile, 0, i);
  }

  /** A run makes some request exactly when some tick finds the driver idle and the wait over. */
  lemma {:induction false} RequestedIffReady(s: Service, moments: seq<Moment>)
    requires Consistent(s) && s.configured
    ensures SomeRequest(Requests(s, moments)) <==> SomeReady(moments, s.nextAttemptAt)
    decreases |moments|
  {
    hide Tick, Consistent, Ready;
    if moments != [] {
      NotEmpty(s);
      var m, rest := moments[0], moments[1..];
      var (t, request) := Tick(s, m);
      ReadyTick(s, m);
      var requests := Requests(s, moments);
      assert requests[0] == request;
      if Ready(m, s.nextAttemptAt) {
        assert SomeRequest(requests) && SomeReady(moments, s.nextAttemptAt);
      } else {
        StepKeepsConsistent(s, Ticked(m));
        RequestedIffReady(t, rest);
        LaterRequest(requests);
        LaterReady(moments, s.nextAttemptAt);
      }
    }
  }

  lemma LaterRequest(requests: seq<Request>)
    requires requests != [] && requests[0].Nothing?
    ensures SomeRequest(requests) <==> SomeRequest(requests[1..])
  {
    if SomeRequest(requests[1..]) {
      var i :| 0 <= i < |requests[1..]| && !requests[1..][i].Nothing?;
      assert !requests[i + 1].Nothing?;
    }
    if SomeRequest(requests) {
      var i :| 0 <= i < |requests| && !requests[i].Nothing?;
      assert requests[1..][i - 1] == requests[i];
    }
  }

  lemma LaterReady(moments: seq<Moment>, nextAttemptAt: nat)
    requires moments != [] && !Ready(moments[0], nextAttemptAt)
    ensures SomeReady(moments, nextAttemptAt) <==> SomeReady(moments[1..], nextAttemptAt)
  {
    hide Ready;
    if SomeReady(moments[1..], nextAttemptAt) {
      var i :| 0 <= i < |moments[1..]| && Ready(moments[1..][i], nextAttemptAt);
      assert Ready(moments[i + 1], nextAttemptAt);
    }
    if SomeReady(moments, nextAttemptAt) {
      var i :| 0 <= i < |moments| && Ready(moments[i], nextAttemptAt);
      assert moments[1..][i - 1] == moments[i];
    }
  }

  /** Without an attempt or a driver that reports connecting, the service does not come to believe it is connecting. */
  lemma {:induction false} BeliefNeedsACause(s: Service, moments: seq<Moment>)
    requires s.profiles != [] && !s.state.Connecting?
    requires forall m :: 0 <= m < |moments| ==> !moments[m].connecting && !Requests(s, moments)[m].Begin?
    ensures !Run(s, moments).state.Connecting?
    decreases |moments|
  {
    if moments != [] {
      var (t, request) := Tick(s, moments[0]);
      var requests := Requests(s, moments);
      assert requests[0] == request && requests[1..] == Requests(t, moments[1..]);
      assert !moments[0].connecting;
      var rest := moments[1..];
      forall m | 0 <= m < |rest|
        ensures !rest[m].connecting && !Requests(t, rest)[m].Begin?
      {
        assert rest[m] == moments[m + 1] && requests[m + 1] == Requests(t, rest)[m];
      }
      BeliefNeedsACause(t, rest);
    }
  }

  lemma {:induction false} RequestsOfStretch(s: Service, moments: seq<Moment>, i: nat, j: nat)
    requires s.profiles != [] && i <= j <= |moments|
    ensures Requests(s, moments)[i..j] == Requests(Run(s, moments[..i]), moments[i..j])
    decreases i
  {
    hide Run, Requests, Tick;
    var t := Run(s, moments[..i]);
    forall m | 0 <= m < j - i
      ensures Requests(s, moments)[i + m] == Requests(t, moments[i..j])[m]
    {
      RequestAt(s, moments, i + m);
      RequestAt(t, moments[i..j], m);
      assert moments[i..j][..m] == moments[i..i + m];
      assert moments[..i + m] == moments[..i] + moments[i..i + m];
      RunConcat(s, moments[..i], moments[i..i + m]);
    }
  }

  lemma DisconnectEndsAnAttempt(s: Service, m: Moment)
    requires s.profiles != [] && Tick(s, m).1.Disconnect?
    ensures s.state.Connecting? && Tick(s, m).0.state.Offline?
  {
  }

  /** Two disconnects have an attempt, or a report of connecting, between them. */
  lemma DisconnectsAlternate(s: Service, moments: seq<Moment>, i: nat, j: nat)
    requires s.profiles != [] && i < j < |moments|
    requires Requests(s, moments)[i].Disconnect? && Requests(s, moments)[j].Disconnect?
    ensures exists m :: i < m < j && (Requests(s, moments)[m].Begin? || moments[m].connecting)
  {
    hide Run, Requests, Tick;
    var requests := Requests(s, moments);
    RequestAt(s, moments, i);
    RequestAt(s, moments, j);
    DisconnectEndsAnAttempt(Run(s, moments[..i]), moments[i]);
    DisconnectEndsAnAttempt(Run(s, moments[..j]), moments[j]);
    if forall m :: i < m < j ==> !requests[m].Begin? && !moments[m].connecting {
      var t := Run(s, moments[..i + 1]);
      RequestsOfStretch(s, moments, i + 1, j);
      var between := moments[i + 1..j];
      forall m | 0 <= m < |between|
        ensures !between[m].connecting && !Requests(t, between)[m].Begin?
      {
        assert requests[i + 1..j][m] == requests[i + 1 + m];
      }
      BeliefNeedsACause(t, between);
      assert moments[..j] == moments[..i + 1] + moments[i + 1..j];
      RunConcat(s, moments[..i + 1], moments[i + 1..j]);
    }
  }

  /** Attempts are not bounded in time by the service: a driver that keeps reporting connecting is never interrupted. */
  lemma {:induction false} ConnectingIsNeverTimedOut(s: Service, moments: seq<Moment>)
    requires s.profiles != [] && forall m <- moments :: m.connecting
    ensures forall r <- Requests(s, moments) :: r.Nothing?
    decreases |moments|
  {
    if moments != [] {
      assert moments[0] in moments;
      ConnectingIsNeverTimedOut(Tick(s, moments[0]).0, moments[1..]);
    }
  }

  /**
    Once the driver is idle and the wait is over, a tick makes an attempt, or ends one
    so that the next idle tick at least 500 ms later makes one.
  */
  lemma IdleDriverGetsAnAttempt(s: Service, first: Moment, second: Moment)
    requires Consistent(s) && s.configured
    requires !first.connected && !first.connecting && first.now >= s.nextAttemptAt
    requires !second.connected && !second.connecting && second.now >= first.now + 500
    ensures var (t, request) := Tick(s, first);
            request.Begin? || (request.Disconnect? && Tick(t, second).1.Begin?)
  {
    var i :| 0 <= i < |s.profiles| && s.profiles[i].enabled;
    SomeIsFound(s.profiles, s.nextProfile, 0, i);
  }

  lemma {:induction false} SomeIsFound(profiles: seq<Profile>, from: nat, offset: nat, i: nat)
    requires from < |profiles| && i < |profiles| && profiles[i].enabled
    requires offset <= Ahead(|profiles|, from, i)
    ensures NextFrom(profiles, from, offset) < |profiles|
    decreases |profiles| - offset
  {
    hide Around;
    AroundIs(|profiles|, from, offset);
    if offset < Ahead(|profiles|, from, i) {
      SomeIsFound(profiles, from, offset + 1, i);
    }
  }

  /** After a request the wait is exactly 10 s or 500 ms; an attempt makes its slot the active one. */
  lemma WaitAfterRequest(s: Service, moments: seq<Moment>, i: nat)
    requires s.profiles != [] && i < |moments|
    ensures var request, t := Requests(s, moments)[i], Run(s, moments[..i + 1]);
            && (request.Begin? ==> t.nextAttemptAt == moments[i].now + 10_000 && t.activeSlot == request.slot)
            && (request.Disconnect? ==> t.nextAttemptAt == moments[i].now + 500)
            && (request.Nothing? ==> t.nextAttemptAt == Run(s, moments[..i]).nextAttemptAt)
  {
    RequestAt(s, moments, i);
  }

  /** What the service believes after a tick: what the driver reported, or that the attempt it has just made is on. */
  lemma BeliefAfterTick(s: Service, m: Moment)
    requires Consistent(s) && s.configured
    ensures var (t, request) := Tick(s, m);
            && (t.state.Connected? <==> m.connected)
            && (t.state.Connecting? <==> request.Begin? || (m.connecting && !m.connected))
            && t.configured && t.profiles == s.profiles
  {
  }

  /**
    A driver is told to disconnect before a new attempt exactly when the tick before has
    left an attempt on: it made one, or the driver reported connecting.
  */
  lemma DisconnectIff(s: Service, moments: seq<Moment>, i: nat)
    requires Consistent(s) && s.configured && i + 1 < |moments|
    ensures var requests := Requests(s, moments);
            requests[i + 1].Disconnect? <==>
              && Ready(moments[i + 1], Run(s, moments[..i + 1]).nextAttemptAt)
              && (requests[i].Begin? || (moments[i].connecting && !moments[i].connected))
  {
    hide Tick, Consistent, Ready, Run;
    NotEmpty(s);
    RequestAt(s, moments, i);
    RequestAt(s, moments, i + 1);
    StaysConfigured(s, moments[..i]);
    var t := Run(s, moments[..i]);
    BeliefAfterTick(t, moments[i]);
    StaysConfigured(s, moments[..i + 1]);
    DisconnectOfTick(Run(s, moments[..i + 1]), moments[i + 1]);
  }

  lemma {:induction false} StaysConfigured(s: Service, moments: seq<Moment>)
    requires Consistent(s) && s.configured
    ensures Consistent(Run(s, moments)) && Run(s, moments).configured
    decreases |moments|
  {
    hide Tick, Consistent;
    NotEmpty(s);
    if moments != [] {
      StepKeepsConsistent(s, Ticked(moments[0]));
      BeliefAfterTick(s, moments[0]);
      StaysConfigured(Tick(s, moments[0]).0, moments[1..]);
    }
  }

  lemma DisconnectOfTick(s: Service, m: Moment)
    requires Consistent(s) && s.configured
    ensures Tick(s, m).1.Disconnect? <==> Ready(m, s.nextAttemptAt) && s.state.Connecting?
  {
    ReadyTick(s, m);
  }

  /** What a profile's buffer can hold of a text. */
  function Cut(text: string, n: nat): string {
    if |text| <= n then text else text[..n]
  }

  /** A configuration is taken exactly for a slot that exists and an ssid that is not empty. */
  lemma ConfiguredIff(s: Service, slot: nat, ssid: Option<string>, password: Option<string>, now: nat)
    ensures var (ok, t) := Configure(s, slot, ssid, password, now);
            && (ok <==> slot < |s.profiles| && ssid.Some? && password.Some? && ssid.value != "")
            && (!ok ==> t == s)
  {
  }

  /**
    From configuring to attempting: while a slot is left alone, every attempt on it uses
    the ssid and the password it was configured with, cut to 32 and 64 bytes.
  */
  lemma ConfiguredIsAttempted(
    s: Service, slot: nat, ssid: string, password: string, now: nat, moments: seq<Moment>, i: nat)
    requires slot < |s.profiles| && ssid != "" && i < |moments|
    ensures var t := Step(s, Configured(slot, Some(ssid), Some(password), now));
            var request := Requests(t, moments)[i];
            request.Begin? && request.slot == slot ==> request == Begin(slot, Cut(ssid, 32), Cut(password, 64))
  {
    var t := Step(s, Configured(slot, Some(ssid), Some(password), now));
    if Requests(t, moments)[i].Begin? {
      AttemptsUseStoredCredentials(t, moments, i);
    }
  }

  /** A new configuration is tried at once: at the first tick of an idle driver some attempt is made. */
  lemma ConfiguredIsTriedAtOnce(s: Service, slot: nat, ssid: string, password: string, now: nat, m: Moment)
    requires Consistent(s) && slot < |s.profiles| && ssid != ""
    requires !m.connected && !m.connecting && m.now >= now
    ensures var t := Step(s, Configured(slot, Some(ssid), Some(password), now));
            Tick(t, m).1.Begin? && (|s.profiles| == 1 ==> Tick(t, m).1.slot == slot)
  {
    var e := Configured(slot, Some(ssid), Some(password), now);
    var t := Step(s, e);
    StepKeepsConsistent(s, e);
    ReadyTick(t, m);
  }

  /** Neither configuring nor clearing a slot touches the profiles of the others. */
  lemma OtherSlotsKeepTheirs(s: Service, e: Event, other: nat)
    requires s.profiles != [] && other < |s.profiles| && !e.AllCleared?
    requires (e.Configured? || e.Cleared?) ==> e.slot != other
    ensures |Step(s, e).profiles| == |s.profiles| && Step(s, e).profiles[other] == s.profiles[other]
  {
  }

  /** A cleared slot is not attempted. */
  lemma ClearedIsNotAttempted(s: Service, slot: nat, moments: seq<Moment>, i: nat)
    requires slot < |s.profiles| && i < |moments|
    ensures var request := Requests(Step(s, Cleared(slot)), moments)[i];
            request.Begin? ==> request.slot != slot
  {
    hide Requests, Run, Tick;
    var t := Step(s, Cleared(slot));
    if Requests(t, moments)[i].Begin? {
      AttemptsUseStoredCredentials(t, moments, i);
    }
  }

  /** After all are cleared nothing is asked of the driver. */
  lemma AllClearedIsSilent(s: Service, moments: seq<Moment>, i: nat)
    requires s.profiles != [] && i < |moments|
    ensures Requests(Step(s, AllCleared), moments)[i].Nothing?
  {
    hide Requests, Run, Tick;
    var u := Step(s, AllCleared);
    if !Requests(u, moments)[i].Nothing? {
      BusyDriverIsLeftAlone(u, moments, i);
    }
  }

  /** Clearing the slot last attempted lets the next idle tick try another at once; any other changes no wait. */
  lemma ClearingEndsTheWait(s: Service, moments: seq<Moment>, slot: nat, m: Moment)
    requires Consistent(s) && s.configured && moments != [] && slot < |s.profiles|
    requires Requests(s, moments)[|moments| - 1].Begin? && !m.connected && !m.connecting
    ensures var last := Requests(s, moments)[|moments| - 1].slot;
            var t := Run(s, moments);
            var u := Step(t, Cleared(slot));
            if slot == last then Tick(u, m).1.Begin? <==> AnyEnabled(u.profiles)
            else u.nextAttemptAt == t.nextAttemptAt && u.state == t.state && u.activeSlot == last
  {
    hide Tick, Requests, Run;
    var n := |moments| - 1;
    WaitAfterRequest(s, moments, n);
    assert moments[..n + 1] == moments;
    var t := Run(s, moments);
    StaysConfigured(s, moments);
    var u := Step(t, Cleared(slot));
    StepKeepsConsistent(t, Cleared(slot));
    if u.configured {
      ReadyTick(u, m);
      DisconnectOfTick(u, m);
    } else {
      IdleWhenUnconfigured(u, m);
    }
  }

  lemma IdleWhenUnconfigured(s: Service, m: Moment)
    requires s.profiles != [] && !s.configured
    ensures Tick(s, m).1.Nothing? && Tick(s, m).0.state.Offline?
  {
  }
}
