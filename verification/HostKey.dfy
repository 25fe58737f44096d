/**
  Provisioning a host key over the serial line: hexadecimal text is typed, routed,
  decoded and stored (`configSet` and `decodeHex` in firmware/arduino/esp32shell/esp32shell.ino).
*/
module HostKey {
  import opened CStrings
  import opened CommandCore
  import SerialShell
  import ShellSession
  import Routing

  type Byte = b: int | 0 <= b < 256

  /** The value of a hexadecimal digit, or -1. */
  function Nibble(c: char): (n: int)
    ensures -1 <= n < 16
  {
    if '0' <= c <= '9' then c as int - '0' as int
    else if 'a' <= c <= 'f' then c as int - 'a' as int + 10
    else if 'A' <= c <= 'F' then c as int - 'A' as int + 10
    else -1
  }

  predicate IsHex(c: char) {
    '0' <= c <= '9' || 'a' <= c <= 'f' || 'A' <= c <= 'F'
  }

  function DecodePairs(text: string): Option<seq<Byte>>
    requires |text| % 2 == 0
  {
    if text == "" then Some([])
    else
      var high, low := Nibble(text[0]), Nibble(text[1]);
      if high < 0 || low < 0 then None
      else
        After([high * 16 + low], DecodePairs(text[2..]))
  }

  function After(bytes: seq<Byte>, rest: Option<seq<Byte>>): Option<seq<Byte>> {
    if rest.None? then None else Some(bytes + rest.value)
  }

  lemma AfterNothing(rest: Option<seq<Byte>>)
    ensures After([], rest) == rest
  {
    if rest.Some? {
      assert [] + rest.value == rest.value;
    }
  }

  lemma AfterTwice(a: seq<Byte>, b: seq<Byte>, rest: Option<seq<Byte>>)
    ensures After(a, After(b, rest)) == After(a + b, rest)
  {
    if rest.Some? {
      assert a + (b + rest.value) == a + b + rest.value;
    }
  }

  function DecodeHex(text: string, capacity: nat): Option<seq<Byte>> {
    if text == "" || |text| % 2 != 0 || |text| / 2 > capacity then None else DecodePairs(text)
  }

  /** Base16 with upper-case digits, section 8 of RFC 4648. */
  function EncodeUpper(bytes: seq<Byte>): (text: string)
    ensures |text| == 2 * |bytes|
  {
    if bytes == [] then "" else [Digit(bytes[0] / 16), Digit(bytes[0] % 16)] + EncodeUpper(bytes[1..])
  }

  function Digit(n: int): char
    requires 0 <= n < 16
  {
    if n < 10 then ('0' as int + n) as char else ('A' as int + n - 10) as char
  }

  function Upper(c: char): char {
    if 'a' <= c <= 'z' then (c as int - 'a' as int + 'A' as int) as char else c
  }

  function UpperAll(text: string): string {
    if text == "" then "" else [Upper(text[0])] + UpperAll(text[1..])
  }

  /** The decoder's loop, which fills the buffer as it goes and stops at the first bad digit. */
  method DecodeHexInto(text: string, output: array<Byte>) returns (ok: bool, length: nat)
    modifies output
    ensures length <= output.Length
    ensures ok <==> DecodeHex(text, output.Length).Some?
    ensures ok ==> output[..length] == DecodeHex(text, output.Length).value
    ensures output[length..] == old(output[length..])
  {
    length := 0;
    if |text| == 0 || |text| % 2 != 0 || |text| / 2 > output.Length {
      return false, 0;
    }
    var index := 0;
    assert text[0..] == text && After([], DecodePairs(text)) == DecodePairs(text) by {
      AfterNothing(DecodePairs(text));
    }
    while index < |text|
      invariant index <= |text| && index == 2 * length && length <= output.Length
      invariant output[length..] == old(output[length..])
      invariant DecodePairs(text) == After(output[..length], DecodePairs(text[index..]))
    {
      var high, low := Nibble(text[index]), Nibble(text[index + 1]);
      assert text[index..][2..] == text[index + 2..];
      if high < 0 || low < 0 {
        return false, length;
      }
      AfterTwice(output[..length], [high * 16 + low], DecodePairs(text[index + 2..]));
      output[length] := high * 16 + low;
      assert output[..length + 1] == output[..length] + [high * 16 + low];
      length, index := length + 1, index + 2;
    }
    ok := true;
  }

  predicate AllHex(text: string) {
    forall c <- text :: IsHex(c)
  }

  lemma TwoMore(a: char, b: char, rest: string)
    ensures UpperAll([a, b] + rest) == [Upper(a), Upper(b)] + UpperAll(rest)
    ensures AllHex([a, b] + rest) <==> IsHex(a) && IsHex(b) && AllHex(rest)
  {
    var text := [a, b] + rest;
    assert text[1..] == [b] + rest && text[1..][1..] == rest;
    assert UpperAll(text) == [Upper(a)] + ([Upper(b)] + UpperAll(rest));
    assert text[0] in text && text[1] in text;
    assert forall c <- rest :: c in text;
  }

  lemma {:induction false} PairsAccepted(text: string)
    requires |text| % 2 == 0
    ensures DecodePairs(text).Some? <==> AllHex(text)
    ensures DecodePairs(text).Some? ==> EncodeUpper(DecodePairs(text).value) == UpperAll(text)
    decreases |text|
  {
    hide AllHex, Nibble, Digit, Upper, IsHex;
    if text == "" {
      NothingIsHex();
    } else {
      hide UpperAll;
      var rest := text[2..];
      PairsAccepted(rest);
      assert text == [text[0], text[1]] + rest;
      TwoMore(text[0], text[1], rest);
      NibbleOfHex(text[0]);
      NibbleOfHex(text[1]);
      if DecodePairs(text).Some? {
        DigitOfNibble(text[0]);
        DigitOfNibble(text[1]);
        var bytes := DecodePairs(text).value;
        assert bytes[1..] == DecodePairs(rest).value;
      }
    }
  }

  lemma NothingIsHex()
    ensures AllHex("")
  {
  }

  lemma NibbleOfHex(c: char)
    ensures Nibble(c) >= 0 <==> IsHex(c)
  {
  }

  lemma DigitOfNibble(c: char)
    requires IsHex(c)
    ensures Digit(Nibble(c)) == Upper(c)
  {
  }

  /** What is accepted: non-empty text of an even number of hexadecimal digits that fits; what it re-encodes to. */
  lemma DecodeHexAccepts(text: string, capacity: nat)
    ensures DecodeHex(text, capacity).Some? <==>
            text != "" && |text| % 2 == 0 && |text| / 2 <= capacity && AllHex(text)
    ensures DecodeHex(text, capacity).Some? ==> EncodeUpper(DecodeHex(text, capacity).value) == UpperAll(text)
  {
    if |text| % 2 == 0 {
      PairsAccepted(text);
    }
  }

  lemma ByteOfDigits(byte: Byte)
    ensures var high, low := Nibble(Digit(byte / 16)), Nibble(Digit(byte % 16));
            high >= 0 && low >= 0 && high * 16 + low == byte
  {
    hide Nibble, Digit;
    NibbleOfDigit(byte / 16);
    NibbleOfDigit(byte % 16);
  }

  lemma {:induction false} PairsOfEncoding(bytes: seq<Byte>)
    ensures DecodePairs(EncodeUpper(bytes)) == Some(bytes)
    decreases |bytes|
  {
    if bytes != [] {
      hide Nibble, Digit;
      PairsOfEncoding(bytes[1..]);
      var text, rest := EncodeUpper(bytes), EncodeUpper(bytes[1..]);
      assert text[0] == Digit(bytes[0] / 16) && text[1] == Digit(bytes[0] % 16) && text[2..] == rest;
      ByteOfDigits(bytes[0]);
      assert [bytes[0]] + bytes[1..] == bytes;
    }
  }

  lemma NibbleOfDigit(n: int)
    requires 0 <= n < 16
    ensures Nibble(Digit(n)) == n
  {
  }

  lemma DecodeUndoesEncode(bytes: seq<Byte>, capacity: nat)
    requires 0 < |bytes| <= capacity
    ensures DecodeHex(EncodeUpper(bytes), capacity) == Some(bytes)
  {
    hide DecodePairs, EncodeUpper;
    PairsOfEncoding(bytes);
  }

  lemma {:induction false} EncodingIsHex(bytes: seq<Byte>)
    ensures AllHex(EncodeUpper(bytes))
    decreases |bytes|
  {
    PairsOfEncoding(bytes);
    PairsAccepted(EncodeUpper(bytes));
  }

  datatype Preference = Text(text: string) | Blob(bytes: seq<Byte>)
  type Preferences = map<string, Preference>

  datatype Outcome = UsageError | KeyTooLong | KeyNotAllowed | WeakPassword | BadHostKey | Updated

  predicate AllowedKey(key: string) {
    key in ["wifi_ssid", "wifi_password", "ssh_username", "ssh_password", "ssh_host_key"]
  }

  predicate AcceptablePassword(password: string) {
    |password| >= 12 && (exists c <- password :: 'A' <= c <= 'Z')
    && (exists c <- password :: 'a' <= c <= 'z') && exists c <- password :: '0' <= c <= '9'
  }

  const MIN_HOST_KEY := 128
  const MAX_HOST_KEY := 1984

  /** `config-set`: what it answers and the preferences it leaves; `digest` is SHA-256. */
  function ConfigSet(digest: string -> seq<Byte>, stored: Preferences, arguments: string): (Outcome, Preferences) {
    var i := IndexOf(arguments, ' ');
    if i == |arguments| || i == 0 || i + 1 == |arguments| then (UsageError, stored)
    else
      var key, value := arguments[..i], arguments[i + 1..];
      if i >= 32 then (KeyTooLong, stored)
      else if !AllowedKey(key) then (KeyNotAllowed, stored)
      else if key == "ssh_password" then
        if !AcceptablePassword(value) then (WeakPassword, stored)
        else (Updated, stored["ssh_pw_hash" := Blob(digest(value))] - {"ssh_password"})
      else if key == "ssh_host_key" then
        var bytes := DecodeHex(value, MAX_HOST_KEY);
        if bytes.None? || |bytes.value| < MIN_HOST_KEY then (BadHostKey, stored)
        else (Updated, stored["ssh_host_key" := Blob(bytes.value)])
      else (Updated, stored[key := Text(value)])
  }

  /** Services whose `config-set` is the one above. */
  ghost predicate ServesConfigSet(services: Services<Preferences>, digest: string -> seq<Byte>) {
    forall stored, arguments ::
      services.serve(stored, Command.ConfigSet, arguments).device == ConfigSet(digest, stored, arguments).1
  }

  const HOST_KEY := "ssh_host_key"

  function ProvisioningLine(key: seq<Byte>): string {
    Command.ConfigSet.Word() + " " + (HOST_KEY + " " + EncodeUpper(key))
  }

  lemma HostKeyIsAllowed()
    ensures AllowedKey(HOST_KEY) && HOST_KEY != "ssh_password" && |HOST_KEY| == 12 && ' ' !in HOST_KEY
  {
    assert HOST_KEY[4] != "ssh_password"[4];
  }

  lemma HostKeyArguments(digest: string -> seq<Byte>, stored: Preferences, key: seq<Byte>)
    requires MIN_HOST_KEY <= |key| <= MAX_HOST_KEY
    ensures ConfigSet(digest, stored, HOST_KEY + " " + EncodeUpper(key)) == (Updated, stored[HOST_KEY := Blob(key)])
  {
    hide DecodeHex, EncodeUpper, AllowedKey;
    HostKeyIsAllowed();
    var name: string := HOST_KEY;
    var arguments := name + " " + EncodeUpper(key);
    forall j | 0 <= j < |name|
      ensures arguments[j] != ' '
    {
      assert arguments[j] == name[j] && name[j] in name;
    }
    IndexOfIs(arguments, ' ', |name|);
    assert arguments[..|name|] == name && arguments[|name| + 1..] == EncodeUpper(key);
    DecodeUndoesEncode(key, MAX_HOST_KEY);
  }

  /** A plain line is stored byte for byte. */
  lemma {:induction false} ReceivePlain<D>(services: Services<D>, r: SerialShell.Reader<D>, line: string)
    requires line != "" && |r.line + line| <= MAX_COMMAND_LENGTH && forall c <- line :: !ShellSession.IsLineEnd(c)
    ensures var q := SerialShell.ReceiveAll(services, r, line);
            q.line == r.line + line && !q.endingSeen && q.device == r.device && q.dispatched == r.dispatched
    decreases |line|
  {
    hide SerialShell.Enter;
    assert line[0] in line && r.line + [line[0]] + line[1..] == r.line + line;
    var q := SerialShell.Receive(services, r, line[0]);
    if line[1..] != "" {
      ReceivePlain(services, q, line[1..]);
    } else {
      assert r.line + line == r.line + [line[0]];
    }
  }

  lemma ProvisioningLineIsPlain(key: seq<Byte>)
    requires |key| <= MAX_HOST_KEY
    ensures var line := ProvisioningLine(key);
            |line| <= MAX_COMMAND_LENGTH && forall c <- line :: c != NUL && !ShellSession.IsLineEnd(c)
  {
    EncodingIsHex(key);
    assert |Command.ConfigSet.Word()| == 10 && |HOST_KEY| == 12;
  }

  /** Any host key of acceptable size, sent in hexadecimal to an idle prompt, is stored byte for byte. */
  lemma HostKeyRoundTrip(
    services: Services<Preferences>, digest: string -> seq<Byte>, r: SerialShell.Reader<Preferences>, key: seq<Byte>)
    requires ServesConfigSet(services, digest) && r.line == ""
    requires MIN_HOST_KEY <= |key| <= MAX_HOST_KEY
    ensures |ProvisioningLine(key)| <= MAX_COMMAND_LENGTH
    ensures SerialShell.ReceiveAll(services, r, ProvisioningLine(key) + "\n").device
         == r.device[HOST_KEY := Blob(key)]
  {
    hide ConfigSet, EncodeUpper;
    var arguments := HOST_KEY + " " + EncodeUpper(key);
    var line := ProvisioningLine(key);
    ProvisioningLineIsPlain(key);
    assert "" + line == line;
    ReceivePlain(services, r, line);
    SerialShell.ReceiveConcat(services, r, line, "\n");
    var typed := SerialShell.ReceiveAll(services, r, line);
    assert "\n"[1..] == "";
    assert SerialShell.ReceiveAll(services, typed, "\n") == SerialShell.Receive(services, typed, '\n');
    assert Terminated(line) == line;
    Routing.RouteOf(Command.ConfigSet, arguments, 0);
    HostKeyArguments(digest, r.device, key);
  }

  /** A setting that is refused changes nothing. */
  lemma RefusedSettingChangesNothing(digest: string -> seq<Byte>, stored: Preferences, arguments: string)
    requires ConfigSet(digest, stored, arguments).0 != Updated
    ensures ConfigSet(digest, stored, arguments).1 == stored
  {
    hide AllowedKey, AcceptablePassword, DecodeHex, IndexOf;
  }

  lemma Arguments(key: string, value: string)
    requires ' ' !in key
    ensures var arguments := key + " " + value;
            IndexOf(arguments, ' ') == |key| && arguments[..|key|] == key && arguments[|key| + 1..] == value
  {
    var arguments := key + " " + value;
    forall j | 0 <= j < |key|
      ensures arguments[j] != ' '
    {
      assert arguments[j] == key[j] && key[j] in key;
    }
    IndexOfIs(arguments, ' ', |key|);
  }

  predicate HasOneOf(text: string, low: char, high: char) {
    exists i :: 0 <= i < |text| && low <= text[i] <= high
  }

  const PASSWORD := "ssh_password"

  lemma PasswordKey()
    ensures AllowedKey(PASSWORD) && |PASSWORD| == 12 && ' ' !in PASSWORD
  {
  }

  lemma AcceptableIff(password: string)
    ensures AcceptablePassword(password) <==>
            |password| >= 12 && HasOneOf(password, 'A', 'Z') && HasOneOf(password, 'a', 'z')
            && HasOneOf(password, '0', '9')
  {
    assert forall i :: 0 <= i < |password| ==> password[i] in password;
  }

  /** A password is taken exactly when it is strong; only its digest is stored, and any plain one is removed. */
  lemma PasswordSetting(digest: string -> seq<Byte>, stored: Preferences, password: string)
    requires password != ""
    ensures var strong := |password| >= 12 && HasOneOf(password, 'A', 'Z') && HasOneOf(password, 'a', 'z')
                          && HasOneOf(password, '0', '9');
            ConfigSet(digest, stored, PASSWORD + " " + password) ==
              if strong then (Updated, stored["ssh_pw_hash" := Blob(digest(password))] - {"ssh_password"})
              else (WeakPassword, stored)
  {
    hide AllowedKey, AcceptablePassword, DecodeHex, HasOneOf, IndexOf;
    PasswordKey();
    Arguments(PASSWORD, password);
    AcceptableIff(password);
  }

  /** A host key is taken exactly when it is an even number of 256 to 3968 hexadecimal digits; it is stored decoded. */
  lemma HostKeySetting(digest: string -> seq<Byte>, stored: Preferences, text: string)
    requires text != ""
    ensures var (outcome, after) := ConfigSet(digest, stored, HOST_KEY + " " + text);
            if 256 <= |text| <= 3968 && |text| % 2 == 0 && AllHex(text) then
              && outcome == Updated
              && exists bytes :: after == stored[HOST_KEY := Blob(bytes)] && EncodeUpper(bytes) == UpperAll(text)
            else outcome == BadHostKey && after == stored
  {
    hide AllowedKey, AcceptablePassword, DecodeHex, DecodePairs, EncodeUpper, UpperAll, AllHex, IndexOf;
    HostKeyIsAllowed();
    Arguments(HOST_KEY, text);
    DecodeHexAccepts(text, 1984);
    var decoded := DecodeHex(text, 1984);
    if decoded.Some? {
      DecodedHalf(text, 1984);
      assert EncodeUpper(decoded.value) == UpperAll(text);
    }
  }

  lemma DecodedHalf(text: string, capacity: nat)
    requires DecodeHex(text, capacity).Some?
    ensures 2 * |DecodeHex(text, capacity).value| == |text|
  {
    DecodeHexAccepts(text, capacity);
    UpperAllLength(text);
  }

  lemma {:induction false} UpperAllLength(text: string)
    ensures |UpperAll(text)| == |text|
    decreases |text|
  {
    if text != "" {
      UpperAllLength(text[1..]);
    }
  }

  /** Any other key that is allowed stores its value as it is; a key that is not allowed is refused. */
  lemma OtherSetting(digest: string -> seq<Byte>, stored: Preferences, key: string, value: string)
    requires key != "" && ' ' !in key && value != "" && key != PASSWORD && key != HOST_KEY
    ensures ConfigSet(digest, stored, key + " " + value) ==
              if key == "wifi_ssid" || key == "wifi_password" || key == "ssh_username" then
                (Updated, stored[key := Text(value)])
              else (if |key| >= 32 then KeyTooLong else KeyNotAllowed, stored)
  {
    hide AcceptablePassword, DecodeHex, IndexOf;
    Arguments(key, value);
    assert AllowedKey(key) <==> key == "wifi_ssid" || key == "wifi_password" || key == "ssh_username";
  }

  /** No setting ever stores a plain password. */
  lemma PasswordIsNeverStored(digest: string -> seq<Byte>, stored: Preferences, arguments: string)
    requires "ssh_password" !in stored
    ensures "ssh_password" !in ConfigSet(digest, stored, arguments).1
  {
    hide AllowedKey, AcceptablePassword, DecodeHex, IndexOf;
    assert "ssh_host_key"[4] != "ssh_password"[4] && |"ssh_pw_hash"| != |"ssh_password"|;
  }
}
