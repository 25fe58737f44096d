/**
  The cooperative Wi-Fi service of the Arduino image (firmware/arduino/esp32shell/wifi_service.h),
  ticked from the main loop over a driver that may answer anything. The number of
  profile slots is a parameter; the source has two. Time does not wrap here.
*/
module WifiService {
  import opened CStrings

  const RETRY_INTERVAL_MS: nat := 10000
  const RECONNECT_COOLDOWN_MS: nat := 500

  datatype State = Offline | Connecting | Connected
  datatype Profile = Profile(ssid: string, password: string, enabled: bool)

  const NO_PROFILE := Profile("", "", false)

  datatype Service = Service(
    profiles: seq<Profile>, nextAttemptAt: nat, state: State,
    configured: bool, cooldown: bool, nextProfile: nat, activeSlot: nat)

  /** What one operation asks of the driver. */
  datatype Request = Nothing | Begin(slot: nat, ssid: string, password: string) | Disconnect

  /** What the driver reports during a tick at a given time. */
  datatype Moment = Moment(now: nat, connected: bool, connecting: bool)

  predicate AnyEnabled(profiles: seq<Profile>) {
    exists i :: 0 <= i < |profiles| && profiles[i].enabled
  }

  /** The slot `offset` places after `from`, cyclically. */
  function Around(n: nat, from: nat, offset: nat): nat
    requires n > 0
  {
    (from + offset) % n
  }

  /** The first enabled slot at or after `offset` places from `from`, or the number of slots. */
  function NextFrom(profiles: seq<Profile>, from: nat, offset: nat): (slot: nat)
    requires profiles != []
    ensures slot <= |profiles|
    ensures slot < |profiles| ==> profiles[slot].enabled
    decreases |profiles| - offset
  {
    if offset >= |profiles| then |profiles|
    else if profiles[Around(|profiles|, from, offset)].enabled then Around(|profiles|, from, offset)
    else NextFrom(profiles, from, offset + 1)
  }

  /** `strncpy` into a zeroed buffer that keeps its last byte. */
  function Clipped(text: string, capacity: nat): string
    requires capacity > 0
  {
    if |text| < capacity then text else text[..capacity - 1]
  }

  function Configure(s: Service, slot: nat, ssid: Option<string>, password: Option<string>, now: nat): (bool, Service) {
    if slot >= |s.profiles| || ssid.None? || password.None? || ssid.value == "" then (false, s)
    else
      var profile := Profile(Clipped(ssid.value, 33), Clipped(password.value, 65), true);
      (true, s.(profiles := s.profiles[slot := profile], configured := true, nextAttemptAt := now,
                state := Offline, cooldown := false))
  }

  ghost function ClearSlot(s: Service, slot: nat): Service {
    if slot >= |s.profiles| then s
    else
      var profiles := s.profiles[slot := NO_PROFILE];
      var cleared := s.(profiles := profiles, configured := AnyEnabled(profiles));
      if s.activeSlot == slot then cleared.(state := Offline, nextAttemptAt := 0, cooldown := false) else cleared
  }

  /** `clear()` clears every slot; the wait ends only if that included the active one. */
  function Clear(s: Service): Service {
    var active := s.activeSlot < |s.profiles|;
    s.(profiles := seq(|s.profiles|, _ => NO_PROFILE), configured := false, state := Offline,
       nextAttemptAt := if active then 0 else s.nextAttemptAt, cooldown := !active && s.cooldown)
  }

  function Tick(s: Service, m: Moment): (r: (Service, Request))
    requires s.profiles != []
    ensures r.0.profiles == s.profiles
  {
    if !s.configured then (s.(state := Offline), Nothing)
    else if m.connected then (s.(state := Connected), Nothing)
    else if m.connecting then (s.(state := Connecting), Nothing)
    else if m.now < s.nextAttemptAt then (s.(state := Offline), Nothing)
    else
      var slot := NextFrom(s.profiles, s.nextProfile, 0);
      if slot >= |s.profiles| then (s.(state := Offline, cooldown := false), Nothing)
      else if s.state.Connecting? then
        (s.(state := Offline, cooldown := true, nextAttemptAt := m.now + RECONNECT_COOLDOWN_MS), Disconnect)
      else
        (s.(state := Connecting, cooldown := false, nextAttemptAt := m.now + RETRY_INTERVAL_MS,
            activeSlot := slot, nextProfile := (slot + 1) % |s.profiles|),
         Begin(slot, s.profiles[slot].ssid, s.profiles[slot].password))
  }

  /** The service object, together with the requests it has made of its driver. */
  class Wifi {
    const profiles: array<Profile>
    var nextAttemptAt: nat
    var state: State
    var configured: bool
    var cooldown: bool
    var nextProfile: nat
    var activeSlot: nat
    ghost var requests: seq<Request>

    ghost function View(): Service
      reads this, profiles
    {
      Service(profiles[..], nextAttemptAt, state, configured, cooldown, nextProfile, activeSlot)
    }

    constructor (slots: nat)
      requires slots > 0
      ensures profiles.Length == slots && fresh(profiles) && requests == []
      ensures View() == Service(seq(slots, _ => NO_PROFILE), 0, Offline, false, false, 0, 0)
    {
      profiles := new Profile[slots](_ => NO_PROFILE);
      nextAttemptAt, state, configured, cooldown, nextProfile, activeSlot := 0, Offline, false, false, 0, 0;
      requests := [];
    }

    method AnyConfigured() returns (any: bool)
      ensures any == AnyEnabled(profiles[..])
    {
      var i := 0;
      while i < profiles.Length && !profiles[i].enabled
        invariant i <= profiles.Length
        invariant forall j :: 0 <= j < i ==> !profiles[j].enabled
      {
        i := i + 1;
      }
      any := i < profiles.Length;
      assert any ==> profiles[..][i].enabled;
    }

    method FindNext() returns (slot: nat)
      requires profiles.Length > 0
      ensures slot == NextFrom(profiles[..], nextProfile, 0)
    {
      var offset := 0;
      while offset < profiles.Length
        invariant offset <= profiles.Length
        invariant NextFrom(profiles[..], nextProfile, offset) == NextFrom(profiles[..], nextProfile, 0)
      {
        slot := (nextProfile + offset) % profiles.Length;
        if profiles[slot].enabled {
          return;
        }
        offset := offset + 1;
      }
      slot := profiles.Length;
    }

    method ConfigureSlot(slot: nat, ssid: Option<string>, password: Option<string>, now: nat) returns (ok: bool)
      modifies this, profiles
      ensures (ok, View()) == Configure(old(View()), slot, ssid, password, now) && requests == old(requests)
    {
      if slot >= profiles.Length || ssid.None? || password.None? || ssid.value == "" {
        return false;
      }
      profiles[slot] := Profile(Clipped(ssid.value, 33), Clipped(password.value, 65), true);
      configured := AnyConfigured();
      assert profiles[..][slot].enabled;
      nextAttemptAt := now;
      state := Offline;
      cooldown := false;
      ok := true;
    }

    method ClearOne(slot: nat)
      modifies this, profiles
      ensures View() == ClearSlot(old(View()), slot)
      ensures requests == old(requests) +
                if slot < profiles.Length && old(activeSlot) == slot then [Disconnect] else []
    {
      if slot >= profiles.Length {
        return;
      }
      var wasActive := activeSlot == slot;
      profiles[slot] := NO_PROFILE;
      configured := AnyConfigured();
      if wasActive {
        requests := requests + [Disconnect];
        state := Offline;
        nextAttemptAt := 0;
        cooldown := false;
      }
    }

    method ClearAll()
      modifies this, profiles
      ensures View() == Clear(old(View()))
      ensures requests == old(requests) + [Disconnect] +
                if old(activeSlot) < profiles.Length then [Disconnect] else []
    {
      requests := requests + [Disconnect];
      var slot := 0;
      while slot < profiles.Length
        invariant slot <= profiles.Length
        invariant forall j :: 0 <= j < slot ==> profiles[j] == NO_PROFILE
        invariant nextProfile == old(nextProfile) && activeSlot == old(activeSlot)
        invariant if activeSlot < slot then nextAttemptAt == 0 && !cooldown
                  else nextAttemptAt == old(nextAttemptAt) && cooldown == old(cooldown)
        invariant requests == old(requests) + [Disconnect] + if activeSlot < slot then [Disconnect] else []
      {
        ClearOne(slot);
        slot := slot + 1;
      }
      configured := false;
      state := Offline;
    }

    method TickAt(m: Moment)
      requires profiles.Length > 0
      modifies this
      ensures var (after, request) := Tick(old(View()), m);
              View() == after && requests == old(requests) + if request.Nothing? then [] else [request]
    {
      if !configured {
        state := Offline;
        return;
      }
      if m.connected {
        state := Connected;
        return;
      }
      if m.connecting {
        state := Connecting;
        return;
      }
      var previousAttempt := state == Connecting;
      state := Offline;
      if m.now < nextAttemptAt {
        return;
      }
      if cooldown {
        cooldown := false;
      }
      var slot := FindNext();
      if slot >= profiles.Length {
        state := Offline;
        return;
      }
      if previousAttempt {
        requests := requests + [Disconnect];
        cooldown := true;
        nextAttemptAt := m.now + RECONNECT_COOLDOWN_MS;
        return;
      }
      requests := requests + [Begin(slot, profiles[slot].ssid, profiles[slot].password)];
      activeSlot := slot;
      state := Connecting;
      nextAttemptAt := m.now + RETRY_INTERVAL_MS;
      nextProfile := (slot + 1) % profiles.Length;
    }
  }
}
