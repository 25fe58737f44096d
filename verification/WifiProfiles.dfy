/**
  Wi-Fi profiles in non-volatile storage: `wifiConfig` writes them
  (firmware/esp-idf/main/idf_command_services.h) and `loadProfiles` reads them at
  the next boot (firmware/esp-idf/main/wifi_station.cpp).
*/
module WifiProfiles {
  import opened CStrings
  import opened CommandCore
  import Routing

  const SLOTS: nat := 2
  const SSID_CAPACITY: nat := 33
  const PASSWORD_CAPACITY: nat := 65
  const NVS_KEY_LENGTH: nat := 15

  type Slot = s: nat | s < SLOTS

  datatype Key = Ssid(slot: Slot) | Password(slot: Slot) | LegacySsid | LegacyPassword {
    function Name(): string {
      match this
      case Ssid(s) => "wifi_ssid_" + [SlotDigit(s)]
      case Password(s) => "wifi_password_" + [SlotDigit(s)]
      case LegacySsid => "wifi_ssid"
      case LegacyPassword => "wifi_password"
    }
  }

  function SlotDigit(slot: Slot): char {
    if slot == 0 then '0' else '1'
  }

  /** Keys may stand for their names: these differ and fit the store's limit. */
  lemma NamesAreDistinct(a: Key, b: Key)
    ensures |a.Name()| <= NVS_KEY_LENGTH
    ensures a.Name() == b.Name() ==> a == b
  {
    var m, n := a.Name(), b.Name();
    if m == n && (a.Ssid? || a.Password?) {
      assert m[|m| - 1] == n[|n| - 1];
    }
  }

  type Store = map<Key, string>

  datatype Parsed = Malformed | Oversized | Named(slot: Slot, ssid: string, password: string)

  /** `[<0|1> ]<ssid> <password>`. */
  function Parse(arguments: string): Parsed {
    var numbered := |arguments| >= 2 && '0' <= arguments[0] <= '1' && arguments[1] == ' ';
    var slot: Slot := if numbered && arguments[0] == '1' then 1 else 0;
    var rest := if numbered then arguments[2..] else arguments;
    var i := IndexOf(rest, ' ');
    if i == |rest| || i == 0 || i + 1 == |rest| then Malformed
    else if i >= SSID_CAPACITY || |rest| - i - 1 >= PASSWORD_CAPACITY then Oversized
    else Named(slot, rest[..i], rest[i + 1..])
  }

  /** Which calls on the store succeed. */
  datatype Calls = Calls(open: bool, ssid: bool, password: bool, legacySsid: bool, legacyPassword: bool, commit: bool)

  const ALL_SUCCEED := Calls(true, true, true, true, true, true)

  /** The writes of `wifi-config`, in order, up to the first that fails. */
  function Writes(p: Parsed): seq<(Key, string)>
    requires p.Named?
  {
    [(Ssid(p.slot), p.ssid), (Password(p.slot), p.password)]
    + if p.slot == 0 then [(LegacySsid, p.ssid), (LegacyPassword, p.password)] else []
  }

  function Apply(store: Store, writes: seq<(Key, string)>): Store
    decreases |writes|
  {
    if writes == [] then store else Apply(store[writes[0].0 := writes[0].1], writes[1..])
  }

  /** How many of four calls in a row succeed before one fails. */
  function Successes(calls: Calls): nat {
    if !calls.ssid then 0
    else if !calls.password then 1
    else if !calls.legacySsid then 2
    else if !calls.legacyPassword then 3
    else 4
  }

  /** `wifi-config`: its verdict and the store it leaves. */
  function Configure(store: Store, arguments: string, calls: Calls): (bool, Store) {
    var p := Parse(arguments);
    if !p.Named? || !calls.open then (false, store)
    else
      var writes := Writes(p);
      var n := Successes(calls);
      if n < |writes| then (false, Apply(store, writes[..n]))
      else (calls.commit, Apply(store, writes))
  }

  lemma {:induction false} ApplyOneMore(store: Store, writes: seq<(Key, string)>, k: nat)
    requires k < |writes|
    ensures Apply(store, writes[..k + 1]) == Apply(store, writes[..k])[writes[k].0 := writes[k].1]
    decreases k
  {
    if k > 0 {
      ApplyOneMore(store[writes[0].0 := writes[0].1], writes[1..], k - 1);
      assert writes[..k + 1][1..] == writes[1..][..k] && writes[..k][1..] == writes[1..][..k - 1];
    }
  }

  /** The command's use of the store, which changes call by call. */
  class ProfileStore {
    var store: Store

    constructor (store: Store)
      ensures this.store == store
    {
      this.store := store;
    }

    method Set(key: Key, value: string, succeeds: bool) returns (ok: bool)
      modifies this
      ensures ok == succeeds && store == if succeeds then old(store)[key := value] else old(store)
    {
      if succeeds {
        store := store[key := value];
      }
      ok := succeeds;
    }

    method WifiConfig(arguments: string, calls: Calls) returns (ok: bool)
      modifies this
      ensures (ok, store) == Configure(old(store), arguments, calls)
    {
      var p := Parse(arguments);
      if !p.Named? || !calls.open {
        return false;
      }
      ghost var writes := Writes(p);
      assert store == Apply(store, writes[..0]) && writes[..|writes|] == writes;
      ApplyOneMore(store, writes, 0);
      ApplyOneMore(store, writes, 1);
      ok := Set(Ssid(p.slot), p.ssid, calls.ssid);
      if ok {
        ok := Set(Password(p.slot), p.password, calls.password);
      }
      if p.slot == 0 {
        ApplyOneMore(old(store), writes, 2);
        ApplyOneMore(old(store), writes, 3);
        if ok {
          ok := Set(LegacySsid, p.ssid, calls.legacySsid);
          if ok {
            ok := Set(LegacyPassword, p.password, calls.legacyPassword);
          }
        }
      }
      ok := ok && calls.commit;
    }
  }

  datatype Profile = Profile(ssid: string, password: string, enabled: bool)

  const NO_PROFILE := Profile("", "", false)

  /** `readString`: whether a non-empty value was read, and what the buffer holds then. */
  function ReadString(store: Store, key: Key, buffer: string, capacity: nat): (bool, string) {
    if key in store && |store[key]| < capacity then (store[key] != "", store[key]) else (false, buffer)
  }

  /** Two reads joined by `&&`: the second happens only when the first succeeds. */
  function ReadProfile(store: Store, profile: Profile, ssidKey: Key, passwordKey: Key): Profile {
    var (haveSsid, ssid) := ReadString(store, ssidKey, profile.ssid, SSID_CAPACITY);
    if !haveSsid then Profile(ssid, profile.password, false)
    else
      var (havePassword, password) := ReadString(store, passwordKey, profile.password, PASSWORD_CAPACITY);
      Profile(ssid, password, havePassword)
  }

  /** What a boot makes of one slot. */
  function Loaded(store: Store, slot: Slot): Profile {
    var numbered := ReadProfile(store, NO_PROFILE, Ssid(slot), Password(slot));
    if slot == 0 && !numbered.enabled then ReadProfile(store, numbered, LegacySsid, LegacyPassword) else numbered
  }

  method LoadProfiles(store: Store, readable: bool) returns (profiles: array<Profile>, configured: bool)
    ensures fresh(profiles) && profiles.Length == SLOTS
    ensures forall slot: Slot :: profiles[slot] == if readable then Loaded(store, slot) else NO_PROFILE
    ensures configured <==> exists slot: Slot :: profiles[slot].enabled
  {
    profiles := new Profile[SLOTS](_ => NO_PROFILE);
    configured := false;
    if !readable {
      return;
    }
    var slot := 0;
    while slot < SLOTS
      invariant slot <= SLOTS
      invariant forall k: Slot :: profiles[k] ==
                  if k < slot then ReadProfile(store, NO_PROFILE, Ssid(k), Password(k)) else NO_PROFILE
    {
      profiles[slot] := ReadProfile(store, profiles[slot], Ssid(slot), Password(slot));
      slot := slot + 1;
    }
    if !profiles[0].enabled {
      profiles[0] := ReadProfile(store, profiles[0], LegacySsid, LegacyPassword);
    }
    configured := profiles[0].enabled || profiles[1].enabled;
    var first: Slot, second: Slot := 0, 1;
    assert configured ==> profiles[first].enabled || profiles[second].enabled;
  }

  /** Whatever calls fail, the other slot loads as before. */
  lemma OtherSlotIsUntouched(store: Store, arguments: string, calls: Calls, other: Slot)
    requires Parse(arguments).Named? ==> Parse(arguments).slot != other
    ensures Loaded(Configure(store, arguments, calls).1, other) == Loaded(store, other)
  {
    var p := Parse(arguments);
    if p.Named? && calls.open {
      var writes := Writes(p);
      var n := Successes(calls);
      assert writes[..|writes|] == writes;
      ApplyKeeps(store, writes[..if n < |writes| then n else |writes|], other);
    }
  }

  predicate Mine(key: Key, slot: Slot) {
    key == Ssid(slot) || key == Password(slot) || (slot == 0 && (key.LegacySsid? || key.LegacyPassword?))
  }

  lemma {:induction false} ApplyKeeps(store: Store, writes: seq<(Key, string)>, other: Slot)
    requires forall w <- writes :: !Mine(w.0, other)
    ensures Loaded(Apply(store, writes), other) == Loaded(store, other)
    decreases |writes|
  {
    if writes != [] {
      assert writes[0] in writes;
      var changed := store[writes[0].0 := writes[0].1];
      ApplyKeeps(changed, writes[1..], other);
      assert Loaded(changed, other) == Loaded(store, other);
    }
  }

  ghost predicate Storable(ssid: string, password: string) {
    && 1 <= |ssid| < SSID_CAPACITY && ' ' !in ssid && NulFree(ssid)
    && 1 <= |password| < PASSWORD_CAPACITY && NulFree(password)
  }

  lemma ParseNumbered(slot: Slot, ssid: string, password: string)
    requires Storable(ssid, password)
    ensures Parse([SlotDigit(slot)] + " " + (ssid + " " + password)) == Named(slot, ssid, password)
  {
    var rest := ssid + " " + password;
    var arguments := [SlotDigit(slot)] + " " + rest;
    assert arguments[2..] == rest;
    SeparatorAfter(ssid, password);
  }

  lemma SeparatorAfter(ssid: string, password: string)
    requires ' ' !in ssid
    ensures var rest := ssid + " " + password;
            IndexOf(rest, ' ') == |ssid| && rest[..|ssid|] == ssid && rest[|ssid| + 1..] == password
  {
    var rest := ssid + " " + password;
    forall j | 0 <= j < |ssid|
      ensures rest[j] != ' '
    {
      assert rest[j] == ssid[j] && ssid[j] in ssid;
    }
    IndexOfIs(rest, ' ', |ssid|);
  }

  /** Without a slot digit the arguments mean slot 0, unless the ssid itself reads as one. */
  lemma ParseUnnumbered(ssid: string, password: string)
    requires Storable(ssid, password)
    ensures Parse(ssid + " " + password) == Named(0, ssid, password) <==> ssid != "0" && ssid != "1"
  {
    var arguments := ssid + " " + password;
    SeparatorAfter(ssid, password);
    if ssid == "0" || ssid == "1" {
      assert arguments[0] == ssid[0] && arguments[1] == ' ';
      assert arguments[2..] == password;
    } else {
      assert arguments[0] == ssid[0];
      if |ssid| == 1 {
        assert ssid == [ssid[0]];
      } else {
        assert arguments[1] == ssid[1] && ssid[1] in ssid;
      }
    }
  }

  lemma SavedProfileLoads(store: Store, p: Parsed)
    requires p.Named? && 1 <= |p.ssid| < SSID_CAPACITY && 1 <= |p.password| < PASSWORD_CAPACITY
    ensures Loaded(Apply(store, Writes(p)), p.slot) == Profile(p.ssid, p.password, true)
  {
    var writes := Writes(p);
    var first := store[writes[0].0 := writes[0].1];
    var second := first[writes[1].0 := writes[1].1];
    if p.slot == 0 {
      assert writes[1..][1..] == writes[2..] && writes[2..][1..] == writes[3..] && writes[3..][1..] == [];
      var third := second[writes[2].0 := writes[2].1];
      assert Apply(second, writes[2..]) == Apply(third, writes[3..]) == third[writes[3].0 := writes[3].1];
    } else {
      assert writes[1..][1..] == [];
    }
    assert Apply(store, writes) == Apply(first, writes[1..]) == Apply(second, writes[1..][1..]);
  }

  /**
    A profile typed at the prompt survives a reboot: every byte of the ssid and the
    password, trailing blanks included, and the other slot loads as it did.
  */
  lemma ProfileRoundTrip(store: Store, slot: Slot, ssid: string, password: string)
    requires Storable(ssid, password)
    ensures var arguments := [SlotDigit(slot)] + " " + (ssid + " " + password);
            && Route(WifiConfig.Word() + " " + arguments) == Call(WifiConfig, arguments)
            && var (ok, saved) := Configure(store, arguments, ALL_SUCCEED);
               && ok && Loaded(saved, slot) == Profile(ssid, password, true)
               && Loaded(saved, 1 - slot) == Loaded(store, 1 - slot)
  {
    hide Loaded, Route, Parse, Apply;
    var arguments := [SlotDigit(slot)] + " " + (ssid + " " + password);
    Routing.WordsAreSolid(WifiConfig);
    Routing.RouteOf(WifiConfig, arguments, 0);
    ParseNumbered(slot, ssid, password);
    SavedProfileLoads(store, Named(slot, ssid, password));
    OtherSlotIsUntouched(store, arguments, ALL_SUCCEED, 1 - slot);
  }

  lemma SplitAtSpace(text: string)
    ensures var i := IndexOf(text, ' ');
            ' ' !in text[..i] && (i < |text| ==> text == text[..i] + " " + text[i + 1..])
  {
  }

  /** What an accepted command line says: one of the two forms, with credentials of usable lengths. */
  lemma ParseIsSound(arguments: string)
    requires Parse(arguments).Named?
    ensures var p := Parse(arguments);
            && 1 <= |p.ssid| <= 32 && ' ' !in p.ssid && 1 <= |p.password| <= 64
            && (arguments == [SlotDigit(p.slot)] + " " + (p.ssid + " " + p.password)
                || (p.slot == 0 && arguments == p.ssid + " " + p.password))
  {
    hide IndexOf;
    var numbered := |arguments| >= 2 && '0' <= arguments[0] <= '1' && arguments[1] == ' ';
    if numbered {
      assert arguments == [arguments[0]] + " " + arguments[2..];
      SplitAtSpace(arguments[2..]);
    } else {
      SplitAtSpace(arguments);
    }
  }

  /** Both values of a pair are there, not empty, and fit the buffers they are read into. */
  predicate Readable(store: Store, ssid: Key, password: Key) {
    && ssid in store && 1 <= |store[ssid]| <= 32
    && password in store && 1 <= |store[password]| <= 64
  }

  /** A boot enables a slot exactly when its own pair is readable, or, for slot 0, the older pair. */
  lemma LoadedIff(store: Store, slot: Slot)
    ensures var own := Readable(store, Ssid(slot), Password(slot));
            var older := slot == 0 && Readable(store, LegacySsid, LegacyPassword);
            && (Loaded(store, slot).enabled <==> own || older)
            && (own ==> Loaded(store, slot) == Profile(store[Ssid(slot)], store[Password(slot)], true))
            && (!own && older ==> Loaded(store, slot) == Profile(store[LegacySsid], store[LegacyPassword], true))
  {
  }

  /** A save is reported exactly when the arguments are well-formed and every call it needs succeeds. */
  lemma SavedIff(store: Store, arguments: string, calls: Calls)
    ensures Configure(store, arguments, calls).0 <==>
            && Parse(arguments).Named? && calls.open && calls.ssid && calls.password && calls.commit
            && (Parse(arguments).slot == 0 ==> calls.legacySsid && calls.legacyPassword)
    ensures !Parse(arguments).Named? || !calls.open ==> Configure(store, arguments, calls).1 == store
  {
    hide Parse, Apply;
  }

  /** What a reported save is worth: the next boot loads exactly what was named. */
  lemma ReportedSaveLoads(store: Store, arguments: string, calls: Calls)
    requires Configure(store, arguments, calls).0
    ensures var p := Parse(arguments);
            p.Named? && Loaded(Configure(store, arguments, calls).1, p.slot) == Profile(p.ssid, p.password, true)
  {
    hide Parse, Apply, Loaded;
    ParseIsSound(arguments);
    SavedProfileLoads(store, Parse(arguments));
  }
}
