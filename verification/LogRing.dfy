/**
  The two bounded logs, byte by byte: `BoundedLog` of the Arduino image
  (firmware/arduino/esp32shell/device_toolbox.h) and the ring behind `logs` in the
  ESP-IDF image (firmware/esp-idf/main/idf_log_buffer.cpp).
*/
module LogRing {
  import opened CStrings

  const ENTRIES: nat := 64

  /** The entry that the `k`-th message ever accepted is stored in. */
  function Entry(k: nat): (e: nat)
    ensures e < ENTRIES
  {
    k % ENTRIES
  }

  /** A row's C string, whatever bytes follow its terminator. */
  ghost predicate RowHolds(rows: array2<char>, row: nat, text: string)
    requires row < rows.Length0
    reads rows
  {
    && NulFree(text) && |text| < rows.Length1
    && (forall j :: 0 <= j < |text| ==> rows[row, j] == text[j])
    && rows[row, |text|] == NUL
  }

  /** The most recent messages, as many as the ring has entries. */
  function Recent(messages: seq<string>): (r: seq<string>)
    ensures |r| <= ENTRIES && |r| <= |messages|
  {
    if |messages| <= ENTRIES then messages else messages[|messages| - ENTRIES..]
  }

  /** A ring after some messages: the entry of each recent one holds it. */
  ghost predicate Rings(rows: array2<char>, next: nat, count: nat, messages: seq<string>)
    reads rows
  {
    && rows.Length0 == ENTRIES
    && next == Entry(|messages|) && count == |Recent(messages)|
    && forall k :: |messages| - count <= k < |messages| ==> RowHolds(rows, Entry(k), messages[k])
  }

  /** The entry of the `index`-th recent message, by the two formulas of the source. */
  function FirstByCount(next: nat, count: nat): nat {
    if count == ENTRIES then next else 0
  }

  function FirstByDistance(next: nat, count: nat): nat
    requires count <= ENTRIES
  {
    (next + ENTRIES - count) % ENTRIES
  }

  lemma FormulasAgree(n: nat, count: nat)
    requires count == if n < ENTRIES then n else ENTRIES
    ensures FirstByCount(Entry(n), count) == FirstByDistance(Entry(n), count)
  {
  }

  lemma EntryOf(n: nat, count: nat, index: nat)
    requires count == (if n < ENTRIES then n else ENTRIES) && index < count
    ensures (FirstByCount(Entry(n), count) + index) % ENTRIES == Entry(n - count + index)
  {
  }

  /** A recent message is never overwritten by the one appended after it. */
  lemma EntriesDiffer(n: nat, k: nat)
    requires k < n < k + ENTRIES
    ensures Entry(k) != Entry(n)
  {
  }

  lemma EntryAdvances(n: nat)
    ensures (Entry(n) + 1) % ENTRIES == Entry(n + 1)
  {
  }

  /** `strncpy` into a row whose last byte is then cleared: the rest of the row is padded. */
  method CopyPadded(rows: array2<char>, row: nat, text: string)
    requires row < rows.Length0 && NulFree(text) && |text| < rows.Length1
    modifies rows
    ensures RowHolds(rows, row, text)
    ensures forall r, t :: 0 <= r < rows.Length0 && r != row && old(RowHolds(rows, r, t)) ==> RowHolds(rows, r, t)
  {
    var j := 0;
    while j < rows.Length1
      invariant j <= rows.Length1
      invariant forall i :: 0 <= i < j ==> rows[row, i] == if i < |text| then text[i] else NUL
      invariant forall r, i ::
                  0 <= r < rows.Length0 && 0 <= i < rows.Length1 && r != row ==> rows[r, i] == old(rows[r, i])
    {
      rows[row, j] := if j < |text| then text[j] else NUL;
      j := j + 1;
    }
  }

  /** `memcpy` and a terminator: what the row held after it stays. */
  method CopyTerminated(rows: array2<char>, row: nat, text: string)
    requires row < rows.Length0 && NulFree(text) && |text| < rows.Length1
    modifies rows
    ensures RowHolds(rows, row, text)
    ensures forall j :: |text| < j < rows.Length1 ==> rows[row, j] == old(rows[row, j])
    ensures forall r, t :: 0 <= r < rows.Length0 && r != row && old(RowHolds(rows, r, t)) ==> RowHolds(rows, r, t)
  {
    forall j | 0 <= j < |text| {
      rows[row, j] := text[j];
    }
    rows[row, |text|] := NUL;
  }

  /** Where the ring stands when its next entry has taken a message. */
  lemma RingAdvances(count: nat, messages: seq<string>, text: string)
    requires count == |Recent(messages)|
    ensures (Entry(|messages|) + 1) % ENTRIES == Entry(|messages| + 1)
    ensures |Recent(messages + [text])| == if count < ENTRIES then count + 1 else count
    ensures forall k ::
              |messages| - count <= k < |messages| && k + ENTRIES > |messages| ==> Entry(k) != Entry(|messages|)
  {
    EntryAdvances(|messages|);
    forall k | |messages| - count <= k < |messages| && k + ENTRIES > |messages|
      ensures Entry(k) != Entry(|messages|)
    {
      EntriesDiffer(|messages|, k);
    }
  }

  /** Reads a row as a C string. */
  method ReadRow(rows: array2<char>, row: nat, ghost text: string) returns (r: string)
    requires row < rows.Length0 && RowHolds(rows, row, text)
    ensures r == text
  {
    assert forall j :: 0 <= j < |text| ==> text[j] in text;
    var length := 0;
    r := "";
    while rows[row, length] != NUL
      invariant length <= |text| && r == text[..length]
      decreases |text| - length
    {
      assert text[..length + 1] == text[..length] + [text[length]];
      r := r + [rows[row, length]];
      length := length + 1;
    }
  }

  class BoundedLog {
    const entries: array2<char>
    var next: nat
    var count: nat
    ghost var accepted: seq<string>

    ghost predicate Valid()
      reads this, entries
    {
      entries.Length1 == MAX_LENGTH + 1 && Rings(entries, next, count, accepted)
    }

    constructor ()
      ensures Valid() && accepted == [] && fresh(entries)
    {
      entries := new char[ENTRIES, MAX_LENGTH + 1]((i, j) => NUL);
      next, count := 0, 0;
      accepted := [];
    }

    static const MAX_LENGTH: nat := 96

    method Append(message: Option<string>) returns (ok: bool)
      requires Valid()
      requires message.Some? ==> NulFree(message.value)
      modifies this, entries
      ensures Valid()
      ensures ok <==> message.Some? && |message.value| <= 96
      ensures accepted == if ok then old(accepted) + [message.value] else old(accepted)
    {
      hide Entry, RowHolds, NulFree, Recent;
      ok := message.Some? && |message.value| <= MAX_LENGTH;
      if !ok {
        return;
      }
      var text := message.value;
      RingAdvances(count, accepted, text);
      CopyPadded(entries, next, text);
      accepted := accepted + [text];
      next := (next + 1) % ENTRIES;
      if count < ENTRIES {
        count := count + 1;
      }
    }

    method At(index: nat) returns (text: string)
      requires Valid()
      ensures text == if index < |Recent(accepted)| then Recent(accepted)[index] else ""
    {
      if index >= count {
        return "";
      }
      hide Entry, FirstByCount;
      var first := FirstByCount(next, count);
      ghost var k := |accepted| - count + index;
      EntryOf(|accepted|, count, index);
      text := ReadRow(entries, (first + index) % ENTRIES, accepted[k]);
    }
  }

  /** Drops the line ends that a formatted log message carries. */
  function Chomp(text: string): string {
    if text != "" && (text[|text| - 1] == '\n' || text[|text| - 1] == '\r') then Chomp(text[..|text| - 1]) else text
  }

  lemma {:induction false} ChompIs(text: string, k: nat)
    requires k <= |text| && (k > 0 ==> text[k - 1] != '\n' && text[k - 1] != '\r')
    requires forall j :: k <= j < |text| ==> text[j] == '\n' || text[j] == '\r'
    ensures Chomp(text) == text[..k]
    decreases |text|
  {
    if k < |text| {
      ChompIs(text[..|text| - 1], k);
      assert text[..|text| - 1][..k] == text[..k];
    }
  }

  /** What is dropped is exactly the run of line ends at the end. */
  lemma {:induction false} ChompDropsLineEnds(text: string)
    ensures |Chomp(text)| <= |text| && Chomp(text) == text[..|Chomp(text)|]
    ensures Chomp(text) != "" ==> var last := Chomp(text)[|Chomp(text)| - 1]; last != '\n' && last != '\r'
    ensures forall j :: |Chomp(text)| <= j < |text| ==> text[j] == '\n' || text[j] == '\r'
    decreases |text|
  {
    if text != "" && (text[|text| - 1] == '\n' || text[|text| - 1] == '\r') {
      var shorter := text[..|text| - 1];
      ChompDropsLineEnds(shorter);
      assert shorter[..|Chomp(shorter)|] == text[..|Chomp(shorter)|];
    }
  }

  class LogBuffer {
    const entries: array2<char>
    var nextEntry: nat
    var entryCount: nat
    ghost var accepted: seq<string>

    static const CAPACITY: nat := 128

    ghost predicate Valid()
      reads this, entries
    {
      entries.Length1 == CAPACITY && Rings(entries, nextEntry, entryCount, accepted)
    }

    constructor ()
      ensures Valid() && accepted == [] && fresh(entries)
    {
      entries := new char[ENTRIES, CAPACITY]((i, j) => NUL);
      nextEntry, entryCount := 0, 0;
      accepted := [];
    }

    /** What of a formatted message is logged: its first 127 bytes, up to a NUL, without trailing line ends. */
    static function Kept(formatted: string): string {
      Chomp(Terminated(if |formatted| < CAPACITY then formatted else formatted[..CAPACITY - 1]))
    }

    /** The loop that shortens a message past its trailing line ends. */
    static method ChompLength(message: string) returns (length: nat)
      ensures length <= |message| && Chomp(message) == message[..length]
    {
      length := |message|;
      while length > 0 && (message[length - 1] == '\n' || message[length - 1] == '\r')
        invariant length <= |message|
        invariant forall j :: length <= j < |message| ==> message[j] == '\n' || message[j] == '\r'
      {
        length := length - 1;
      }
      ChompIs(message, length);
    }

    /** `capturing` drops a message that arrives while another is being stored. */
    method Capture(formatted: string, capturing: bool)
      requires Valid()
      modifies this, entries
      ensures Valid()
      ensures accepted == old(accepted) + if capturing || Kept(formatted) == "" then [] else [Kept(formatted)]
    {
      hide Entry, RowHolds, Chomp, Recent, Terminated;
      var message := Terminated(if |formatted| < CAPACITY then formatted else formatted[..CAPACITY - 1]);
      if capturing {
        return;
      }
      var length := ChompLength(message);
      if length > 0 {
        RingAdvances(entryCount, accepted, message[..length]);
        CopyTerminated(entries, nextEntry, message[..length]);
        accepted := accepted + [message[..length]];
        nextEntry := (nextEntry + 1) % ENTRIES;
        if entryCount < ENTRIES {
          entryCount := entryCount + 1;
        }
      }
    }

    /** The lines that `logs` prints after its header. */
    method Dump() returns (lines: seq<string>)
      requires Valid()
      ensures lines == Recent(accepted)
    {
      hide Entry, FirstByCount, FirstByDistance;
      var first := FirstByDistance(nextEntry, entryCount);
      FormulasAgree(|accepted|, entryCount);
      lines := [];
      for index := 0 to entryCount
        invariant lines == Recent(accepted)[..index]
      {
        EntryOf(|accepted|, entryCount, index);
        ghost var text := Recent(accepted)[index];
        assert text == accepted[|accepted| - entryCount + index];
        var line := ReadRow(entries, (first + index) % ENTRIES, text);
        lines := lines + [line];
      }
    }
  }

  /** The recent messages are the last 64, or all while there are fewer. */
  lemma RecentAreLast(messages: seq<string>, older: seq<string>)
    requires |messages| <= 64 && (older != [] ==> |messages| == 64)
    ensures Recent(older + messages) == messages
  {
    if older == [] {
      assert older + messages == messages;
    } else {
      assert (older + messages)[|older|..] == messages;
    }
  }

  predicate LineEnds(text: string) {
    forall c <- text :: c == '\n' || c == '\r'
  }

  lemma ChompEnds(text: string, ends: string)
    requires LineEnds(ends) && (text != "" ==> text[|text| - 1] != '\n' && text[|text| - 1] != '\r')
    ensures Chomp(text + ends) == text
  {
    var all := text + ends;
    forall j | |text| <= j < |all|
      ensures all[j] == '\n' || all[j] == '\r'
    {
      assert all[j] == ends[j - |text|] && ends[j - |text|] in ends;
    }
    ChompIs(all, |text|);
    assert all[..|text|] == text;
  }

  lemma JoinedIsNulFree(text: string, ends: string)
    requires NulFree(text) && LineEnds(ends)
    ensures NulFree(text + ends)
  {
    assert forall c <- text + ends :: c in text || c in ends;
  }

  /**
    What is logged of a formatted message: all of a text of at most 127 bytes that does
    not end in a line end, whatever line ends follow it.
  */
  lemma KeptWhole(text: string, ends: string)
    requires NulFree(text) && LineEnds(ends) && |text| <= 127
    requires text != "" ==> text[|text| - 1] != '\n' && text[|text| - 1] != '\r'
    ensures LogBuffer.Kept(text + ends) == text
  {
    hide Terminated, NulFree, LineEnds, Chomp;
    var fits := if |text + ends| < 128 then ends else ends[..127 - |text|];
    assert (if |text + ends| < 128 then text + ends else (text + ends)[..127]) == text + fits;
    PrefixOfEnds(ends, |fits|);
    assert ends[..|ends|] == ends;
    JoinedIsNulFree(text, fits);
    TerminatedWhole(text + fits);
    ChompEnds(text, fits);
  }

  lemma PrefixOfEnds(ends: string, n: nat)
    requires LineEnds(ends) && n <= |ends|
    ensures LineEnds(ends[..n])
  {
    assert forall c <- ends[..n] :: c in ends;
  }

  lemma TerminatedWhole(text: string)
    requires NulFree(text)
    ensures Terminated(text) == text
  {
  }

  /** And of a longer one its first 127 bytes. */
  lemma KeptCut(formatted: string)
    requires NulFree(formatted) && |formatted| > 127 && formatted[126] != '\n' && formatted[126] != '\r'
    ensures LogBuffer.Kept(formatted) == formatted[..127]
  {
    hide Terminated;
    var message := formatted[..127];
    assert forall c <- message :: c in formatted;
    TerminatedWhole(message);
    ChompIs(message, 127);
    assert message[..127] == message;
  }
}
