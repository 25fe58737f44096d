/**
  The station failover of the ESP-IDF image (firmware/esp-idf/main/wifi_station.cpp):
  a polling task interleaved with event handlers. Each poll, each handler and each
  status query is one atomic step.
*/
module WifiStation {
  import opened Ticks

  type Slot = s: nat | s < 2

  /** A profile tried: `esp_wifi_set_config` was called for it during a certain poll. */
  datatype Attempt = Attempt(slot: Slot, poll: nat)

  /**
    The globals; and, kept by the model alone, a clock that never wraps, the time of
    the last poll, the true time behind `attemptStarted`, the polls counted and the attempts made.
  */
  datatype Station = Station(
    hz: nat, enabled: (bool, bool), nextSlot: Slot, activeSlot: Slot,
    configured: bool, connecting: bool, connected: bool, attemptStarted: Tick,
    clock: nat, lastPoll: nat, started: nat, polls: nat, attempts: seq<Attempt>)
  {
    function Now(): Tick {
      At(clock)
    }

    predicate Enabled(slot: Slot) {
      if slot == 0 then enabled.0 else enabled.1
    }
  }

  function Other(slot: Slot): Slot {
    (slot + 1) % 2
  }

  function AttemptTicks(hz: nat): nat {
    MsToTicks(10000, hz)
  }

  function CooldownTicks(hz: nat): nat {
    MsToTicks(500, hz)
  }

  /** How the driver answers one attempt. */
  datatype Answer = Answer(setConfig: bool, connect: bool)

  /** The start of the polling task, at whatever time the device has come up; its waits count from then on. */
  function Boot(hz: nat, enabled: (bool, bool), clock: nat): Station {
    Station(hz, enabled, 0, 0, enabled.0 || enabled.1, false, false, 0, clock, clock, 0, 0, [])
  }

  /** `applyProfile`. */
  function Apply(s: Station, slot: Slot, a: Answer): (Station, bool) {
    if !s.Enabled(slot) then (s, false)
    else
      var tried := s.(attempts := s.attempts + [Attempt(slot, s.polls)]);
      if !a.setConfig then (tried, false)
      else
        (tried.(activeSlot := slot, nextSlot := Other(slot), connecting := true, connected := false,
                attemptStarted := s.Now(), started := s.clock), a.connect)
  }

  /** The two turns of the poll's inner loop; the second reads `nextSlot` again. */
  function ApplyTwo(s: Station, first: Answer, second: Answer): Station {
    var (t, ok) := Apply(s, s.nextSlot, first);
    if ok then t else Apply(t, Other(t.nextSlot), second).0
  }

  predicate MayAttempt(s: Station) {
    !s.connecting
    && (s.attemptStarted == 0 || Minus(s.Now(), s.attemptStarted) >= CooldownTicks(s.hz))
  }

  predicate TimedOut(s: Station) {
    s.connecting && Minus(s.Now(), s.attemptStarted) >= AttemptTicks(s.hz)
  }

  function Poll(station: Station, first: Answer, second: Answer): Station {
    var s := station.(lastPoll := station.clock, polls := station.polls + 1);
    if !s.configured || s.connected then s
    else if MayAttempt(s) then ApplyTwo(s, first, second)
    else if TimedOut(s) then
      s.(connecting := false, attemptStarted := s.Now(), started := s.clock, nextSlot := Other(s.activeSlot))
    else s
  }

  datatype Event =
    | Polled(first: Answer, second: Answer)
    | Disconnected
    | GotIp
    | StatusAsked(associated: bool)
    | Elapse(ticks: nat)

  function Step(s: Station, e: Event): Station {
    match e
    case Polled(first, second) => Poll(s, first, second)
    case Disconnected => s.(connecting := false, connected := false)
    case GotIp => s.(connected := true, connecting := false)
    case StatusAsked(associated) => if associated then s.(connected := true) else s
    case Elapse(ticks) => s.(clock := s.clock + ticks)
  }

  function Steps(s: Station, events: seq<Event>): Station
    decreases |events|
  {
    if events == [] then s else Steps(Step(s, events[0]), events[1..])
  }

  /** The file's globals and the code that changes them. */
  class Wifi {
    const hz: nat
    const enabled: (bool, bool)
    var nextSlot: Slot
    var activeSlot: Slot
    var configured: bool
    var connecting: bool
    var connected: bool
    var attemptStarted: Tick
    var clock: nat
    ghost var lastPoll: nat
    ghost var started: nat
    ghost var polls: nat
    ghost var attempts: seq<Attempt>

    ghost function View(): Station
      reads this
    {
      Station(hz, enabled, nextSlot, activeSlot, configured, connecting, connected, attemptStarted,
              clock, lastPoll, started, polls, attempts)
    }

    constructor (hz: nat, enabled: (bool, bool), clock: nat)
      ensures View() == Boot(hz, enabled, clock)
    {
      this.hz, this.enabled, this.clock := hz, enabled, clock;
      nextSlot, activeSlot, attemptStarted := 0, 0, 0;
      configured, connecting, connected := enabled.0 || enabled.1, false, false;
      lastPoll, started, polls, attempts := clock, 0, 0, [];
    }

    method ApplyProfile(slot: Slot, a: Answer) returns (ok: bool)
      modifies this
      ensures (View(), ok) == Apply(old(View()), slot, a)
    {
      if !(if slot == 0 then enabled.0 else enabled.1) {
        return false;
      }
      attempts := attempts + [Attempt(slot, polls)];
      if !a.setConfig {
        return false;
      }
      activeSlot := slot;
      nextSlot := (slot + 1) % 2;
      connecting := true;
      connected := false;
      attemptStarted := At(clock);
      started := clock;
      ok := a.connect;
    }

    /** The body of the failover task's endless loop. */
    method PollOnce(answers: seq<Answer>)
      requires |answers| == 2
      modifies this
      ensures View() == Poll(old(View()), answers[0], answers[1])
    {
      hide Minus, At, MsToTicks, Apply;
      lastPoll := clock;
      polls := polls + 1;
      if configured && !connected {
        var now := At(clock);
        if !connecting && (attemptStarted == 0 || Minus(now, attemptStarted) >= CooldownTicks(hz)) {
          var offset := 0;
          ghost var ready := View();
          while offset < 2
            invariant offset <= 2
            invariant offset == 0 ==> View() == ready
            invariant offset == 1 ==> (View(), false) == Apply(ready, ready.nextSlot, answers[0])
            invariant offset == 2 ==> View() == ApplyTwo(ready, answers[0], answers[1])
          {
            var slot := (nextSlot + offset) % 2;
            var ok := ApplyProfile(slot, answers[offset]);
            if ok {
              break;
            }
            offset := offset + 1;
          }
        } else if connecting && Minus(now, attemptStarted) >= AttemptTicks(hz) {
          connecting := false;
          attemptStarted := now;
          started := clock;
          nextSlot := (activeSlot + 1) % 2;
        }
      }
    }

    method OnDisconnected()
      modifies this
      ensures View() == Step(old(View()), Disconnected)
    {
      connecting := false;
      connected := false;
    }

    method OnGotIp()
      modifies this
      ensures View() == Step(old(View()), GotIp)
    {
      connected := true;
      connecting := false;
    }

    /** A status query changes `connected`, but leaves `connecting`; the copy it returns does not show both. */
    method Status(associated: bool) returns (reportsConnecting: bool)
      modifies this
      ensures View() == Step(old(View()), StatusAsked(associated))
      ensures reportsConnecting == (old(connecting) && !associated)
    {
      reportsConnecting := connecting;
      if associated {
        connected := true;
        reportsConnecting := false;
      }
    }

    /** One atomic step of the task, of a handler, of a status query or of time. */
    method Take(e: Event)
      modifies this
      ensures View() == Step(old(View()), e)
    {
      hide Poll;
      match e
      case Polled(first, second) =>
        PollOnce([first, second]);
      case Disconnected =>
        OnDisconnected();
      case GotIp =>
        OnGotIp();
      case StatusAsked(associated) =>
        var shown := Status(associated);
      case Elapse(ticks) =>
        clock := clock + ticks;
    }
  }
}
