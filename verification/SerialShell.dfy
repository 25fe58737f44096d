/**
  The line reader of the Arduino image (`loop` in firmware/arduino/esp32shell/esp32shell.ino)
  and its agreement with the session of the ESP-IDF image.
*/
module SerialShell {
  import opened CStrings
  import opened CommandCore
  import ShellSession
  import Typing
  import Routing

  const SERIAL_PROMPT := "esp32shell> "

  /** `Serial.println` of each line. */
  function PrintLines(lines: seq<string>): string {
    if lines == [] then "" else lines[0] + "\r\n" + PrintLines(lines[1..])
  }

  /** The reader between two bytes. */
  datatype Reader<D> = Reader(
    line: string, endingSeen: bool, device: D, dispatched: seq<string>, output: string)

  ghost function Enter<D>(services: Services<D>, r: Reader<D>): Reader<D> {
    var text := Terminated(r.line);
    var result := Dispatch(services, r.device, text);
    Reader("", r.endingSeen, result.device, r.dispatched + [text],
           r.output + "\r\n" + PrintLines(result.lines) + SERIAL_PROMPT)
  }

  /** One byte. The reader has no erase key and ignores a request to close. */
  ghost function Receive<D>(services: Services<D>, r: Reader<D>, c: char): Reader<D> {
    if ShellSession.IsLineEnd(c) then
      (if r.endingSeen then r else Enter(services, r)).(endingSeen := c == '\r')
    else if |r.line| < MAX_COMMAND_LENGTH + 1 then
      r.(line := r.line + [c], endingSeen := false, output := r.output + [c])
    else r
  }

  ghost function ReceiveAll<D>(services: Services<D>, r: Reader<D>, bytes: string): Reader<D>
    decreases |bytes|
  {
    if bytes == "" then r else ReceiveAll(services, Receive(services, r, bytes[0]), bytes[1..])
  }

  lemma {:induction false} ReceiveConcat<D>(services: Services<D>, r: Reader<D>, a: string, b: string)
    ensures ReceiveAll(services, r, a + b) == ReceiveAll(services, ReceiveAll(services, r, a), b)
    decreases |a|
  {
    hide Receive;
    if a == "" {
      assert a + b == b;
    } else {
      assert (a + b)[1..] == a[1..] + b;
      ReceiveConcat(services, Receive(services, r, a[0]), a[1..], b);
    }
  }

  /** The sketch's globals. */
  class Sketch<!D> {
    const services: Services<D>
    var device: D
    var readLine: string
    var lineEndingSeen: bool
    var written: string
    ghost var dispatched: seq<string>

    constructor (services: Services<D>, device: D)
      ensures this.services == services && View() == Reader("", false, device, [], "")
    {
      this.services := services;
      this.device := device;
      readLine, lineEndingSeen, written := "", false, "";
      dispatched := [];
    }

    ghost function View(): Reader<D>
      reads this
    {
      Reader(readLine, lineEndingSeen, device, dispatched, written)
    }

    method Println(lines: seq<string>)
      modifies this`written
      ensures written == old(written) + PrintLines(lines)
    {
      var i := 0;
      assert lines[0..] == lines;
      while i < |lines|
        invariant i <= |lines|
        invariant written + PrintLines(lines[i..]) == old(written) + PrintLines(lines)
      {
        written := written + lines[i] + "\r\n";
        assert lines[i..][1..] == lines[i + 1..];
        i := i + 1;
      }
    }

    method Submit()
      modifies this
      ensures View() == Enter(services, old(View()))
    {
      hide Dispatch, PrintLines, IndexOf, Terminated;
      written := written + "\r\n";
      var text := readLine[..IndexOf(readLine, NUL)];
      assert text == Terminated(readLine) by { TerminatedIs(readLine); }
      var result := Routing.DispatchLine(services, device, text);
      device := result.device;
      dispatched := dispatched + [text];
      Println(result.lines);
      readLine := "";
      written := written + SERIAL_PROMPT;
    }

    /** One call of `loop`, with the bytes that are available. */
    method Loop(available: string)
      modifies this
      ensures View() == ReceiveAll(services, old(View()), available)
    {
      hide Enter;
      var i := 0;
      assert available[0..] == available;
      while i < |available|
        invariant i <= |available|
        invariant ReceiveAll(services, View(), available[i..]) == ReceiveAll(services, old(View()), available)
      {
        var c := available[i];
        assert available[i..][1..] == available[i + 1..];
        ghost var before := View();
        if c == '\r' || c == '\n' {
          var isCr := c == '\r';
          if !lineEndingSeen {
            Submit();
          }
          lineEndingSeen := isCr;
        } else if |readLine| < MAX_COMMAND_LENGTH + 1 {
          readLine := readLine + [c];
          written := written + [c];
          lineEndingSeen := false;
        }
        assert View() == Receive(services, before, c);
        i := i + 1;
      }
    }
  }

  lemma TerminatedIs(buffer: string)
    ensures Terminated(buffer) == buffer[..IndexOf(buffer, NUL)]
  {
  }

  function NonEmpty(lines: seq<string>): seq<string> {
    if lines == [] then []
    else if lines[0] == "" then NonEmpty(lines[1..])
    else [lines[0]] + NonEmpty(lines[1..])
  }

  lemma {:induction false} NonEmptyConcat(a: seq<string>, b: seq<string>)
    ensures NonEmpty(a + b) == NonEmpty(a) + NonEmpty(b)
    decreases |a|
  {
    if a == [] {
      assert a + b == b;
    } else {
      assert (a + b)[1..] == a[1..] + b;
      NonEmptyConcat(a[1..], b);
    }
  }

  lemma NonEmptyLast(lines: seq<string>, line: string)
    ensures NonEmpty(lines + [line]) == if line == "" then NonEmpty(lines) else NonEmpty(lines) + [line]
  {
    NonEmptyConcat(lines, [line]);
    assert [line][1..] == [];
  }

  /** Whether no line outgrows the limit, given how much of the first has been read. */
  predicate ShortLines(pending: nat, bytes: string)
    decreases |bytes|
  {
    bytes != "" ==>
      if ShellSession.IsLineEnd(bytes[0]) then ShortLines(0, bytes[1..])
      else pending < MAX_COMMAND_LENGTH && ShortLines(pending + 1, bytes[1..])
  }

  ghost predicate NoneCloses(lines: seq<string>) {
    forall line <- lines :: !Route(line).Close?
  }

  lemma {:induction false} UntilCloseConcat(a: seq<string>, b: seq<string>)
    requires NoneCloses(a)
    ensures Typing.UntilClose(a + b) == a + Typing.UntilClose(b)
    decreases |a|
  {
    hide Route;
    if a == [] {
      assert a + b == b && [] + Typing.UntilClose(b) == Typing.UntilClose(b);
    } else {
      assert a[0] in a;
      assert a + b == [a[0]] + (a[1..] + b);
      Typing.UntilCloseGoesOn(a[0], a[1..] + b);
      UntilCloseConcat(a[1..], b);
    }
  }

  /** Both readers at the same byte of the same stream, before any command closes the session. */
  ghost predicate InStep<D, E>(s: ShellSession.Session<D>, r: Reader<E>) {
    && !s.closed && s.line == r.line && s.afterCr == r.endingSeen && (s.afterCr ==> s.line == "")
    && NonEmpty(s.dispatched) == NonEmpty(r.dispatched) && NoneCloses(NonEmpty(r.dispatched))
  }

  /** The session has closed; what the reader dispatches from then on is beyond comparison. */
  ghost predicate Parted<D, E>(s: ShellSession.Session<D>, r: Reader<E>) {
    && s.closed && NonEmpty(s.dispatched) == Typing.UntilClose(NonEmpty(r.dispatched))
    && !NoneCloses(NonEmpty(r.dispatched))
  }

  lemma EnterInStep<D, E>(
    sv: Services<D>, sw: Services<E>, s: ShellSession.Session<D>, r: Reader<E>)
    requires InStep(s, r.(endingSeen := s.afterCr)) || InStep(s.(afterCr := false), r.(endingSeen := false))
    ensures var t, q := ShellSession.Enter(sv, s), Enter(sw, r);
            if t.closed then Parted(t, q) else InStep(t, q.(endingSeen := s.afterCr))
  {
    hide Dispatch, Route, Terminated, ShellSession.Lines, PrintLines;
    var text := Terminated(s.line);
    Typing.ClosesByRoute(sv, s.device, text);
    NonEmptyLast(s.dispatched, text);
    NonEmptyLast(r.dispatched, text);
    EmptyStays();
    if Route(text).Close? {
      UntilCloseConcat(NonEmpty(r.dispatched), [text]);
      assert [text] == [text] + [];
      Typing.UntilCloseStops(text, []);
      assert text in NonEmpty(r.dispatched) + [text];
    }
  }

  lemma EmptyStays()
    ensures !Route("").Close? && Terminated("") == ""
  {
    assert Trim("") == "";
    Routing.ClosingLines("");
    Routing.WordsAreSolid(Exit);
    Routing.WordsAreSolid(Quit);
  }

  /** The second of two CRs: the session dispatches an empty line, the reader nothing. */
  lemma ExtraEmptyDispatch<D>(sv: Services<D>, s: ShellSession.Session<D>)
    requires !s.closed && s.line == ""
    ensures var t := ShellSession.Enter(sv, s);
            !t.closed && t.line == "" && t.afterCr == s.afterCr && t.dispatched == s.dispatched + [""]
  {
    hide Dispatch, Route, Terminated, ShellSession.Lines;
    EmptyStays();
    Typing.ClosesByRoute(sv, s.device, "");
  }

  lemma StepTogether<D, E>(
    sv: Services<D>, sw: Services<E>, s: ShellSession.Session<D>, r: Reader<E>, c: char)
    requires InStep(s, r) && !ShellSession.IsErase(c)
    requires !ShellSession.IsLineEnd(c) ==> |s.line| < MAX_COMMAND_LENGTH
    ensures var t, q := ShellSession.Press(sv, s, c), Receive(sw, r, c);
            if t.closed then Parted(t, q)
            else InStep(t, q) && |t.line| == if ShellSession.IsLineEnd(c) then 0 else |s.line| + 1
  {
    hide NonEmpty, NoneCloses, Enter, ShellSession.Enter;
    if ShellSession.IsLineEnd(c) {
      var cr := s.(afterCr := c == '\r');
      if r.endingSeen {
        if c == '\r' {
          ExtraEmptyDispatch(sv, cr);
          NonEmptyLast(s.dispatched, "");
        }
      } else {
        EnterInStep(sv, sw, cr, r);
        EnterClearsLine(sv, cr);
      }
    }
  }

  lemma EnterClearsLine<D>(sv: Services<D>, s: ShellSession.Session<D>)
    ensures var t := ShellSession.Enter(sv, s); !t.closed ==> t.line == ""
  {
  }

  /** Once parted, further bytes only append to what the reader has dispatched. */
  lemma {:induction false} StayParted<D, E>(
    sv: Services<D>, sw: Services<E>, s: ShellSession.Session<D>, r: Reader<E>, bytes: string)
    requires Parted(s, r)
    ensures Parted(s, ReceiveAll(sw, r, bytes))
    decreases |bytes|
  {
    hide Route, Enter;
    if bytes != "" {
      var q := Receive(sw, r, bytes[0]);
      assert exists more :: q.dispatched == r.dispatched + more by {
        EnterAppends(sw, r);
        assert r.dispatched == r.dispatched + [];
      }
      var more :| q.dispatched == r.dispatched + more;
      NonEmptyConcat(r.dispatched, more);
      UntilCloseSettled(NonEmpty(r.dispatched), NonEmpty(more));
      StayParted(sv, sw, s, q, bytes[1..]);
    }
  }

  lemma EnterAppends<D>(services: Services<D>, r: Reader<D>)
    ensures Enter(services, r).dispatched == r.dispatched + [Terminated(r.line)]
  {
  }

  lemma {:induction false} UntilCloseSettled(a: seq<string>, b: seq<string>)
    requires !NoneCloses(a)
    ensures Typing.UntilClose(a + b) == Typing.UntilClose(a) && !NoneCloses(a + b)
    decreases |a|
  {
    hide Route;
    var line :| line in a && Route(line).Close?;
    assert line in a + b;
    assert a == [a[0]] + a[1..] && a + b == [a[0]] + (a[1..] + b);
    if Route(a[0]).Close? {
      Typing.UntilCloseStops(a[0], a[1..]);
      Typing.UntilCloseStops(a[0], a[1..] + b);
    } else {
      assert line in a[1..];
      UntilCloseSettled(a[1..], b);
      Typing.UntilCloseGoesOn(a[0], a[1..]);
      Typing.UntilCloseGoesOn(a[0], a[1..] + b);
    }
  }

  /**
    On one stream the two readers stay in step byte by byte until a command closes
    the session; from then on the session's dispatches are the reader's up to that command.
  */
  lemma {:induction false} ReadersAgreeFrom<D, E>(
    sv: Services<D>, sw: Services<E>, s: ShellSession.Session<D>, r: Reader<E>, bytes: string)
    requires InStep(s, r) && ShortLines(|s.line|, bytes) && forall c <- bytes :: !ShellSession.IsErase(c)
    ensures var t, q := ShellSession.Feed(sv, s, bytes), ReceiveAll(sw, r, bytes);
            if t.closed then Parted(t, q) else InStep(t, q)
    decreases |bytes|
  {
    hide ShellSession.Press, Receive, NonEmpty, NoneCloses, Parted;
    if bytes != "" {
      var c, rest := bytes[0], bytes[1..];
      assert c in bytes;
      StepTogether(sv, sw, s, r, c);
      var t, q := ShellSession.Press(sv, s, c), Receive(sw, r, c);
      if t.closed {
        ShellSession.FeedClosed(sv, t, rest);
        StayParted(sv, sw, t, q, rest);
      } else {
        ReadersAgreeFrom(sv, sw, t, q, rest);
      }
    }
  }

  /**
    Both shells, on any stream without erase keys whose lines are at most 4096 bytes:
    the same non-empty lines are dispatched up to the first that closes the session, and
    until then the pending lines and the line-ending flags are equal.
  */
  lemma ReadersAgree<D, E>(sv: Services<D>, sw: Services<E>, device: D, other: E, bytes: string)
    requires ShortLines(0, bytes) && forall c <- bytes :: !ShellSession.IsErase(c)
    ensures var t := ShellSession.Feed(sv, ShellSession.Opened(device, [], ""), bytes);
            var q := ReceiveAll(sw, Reader("", false, other, [], ""), bytes);
            && NonEmpty(t.dispatched) == Typing.UntilClose(NonEmpty(q.dispatched))
            && (!t.closed ==> t.line == q.line && t.afterCr == q.endingSeen)
  {
    hide ShellSession.Feed, ReceiveAll, ShellSession.Lines, Route;
    var t := ShellSession.Feed(sv, ShellSession.Opened(device, [], ""), bytes);
    var q := ReceiveAll(sw, Reader("", false, other, [], ""), bytes);
    ReadersAgreeFrom(sv, sw, ShellSession.Opened(device, [], ""), Reader("", false, other, [], ""), bytes);
    if !t.closed {
      var lines := NonEmpty(q.dispatched);
      UntilCloseConcat(lines, []);
      assert lines + [] == lines;
    }
  }

  /** The bytes that only one reader stores: an erase key, or one more than the session's line has room for. */
  predicate Divides<D>(s: ShellSession.Session<D>, c: char) {
    ShellSession.IsErase(c) || (!ShellSession.IsLineEnd(c) && |s.line| >= MAX_COMMAND_LENGTH)
  }

  ghost predicate NoneDivides<D>(sv: Services<D>, s: ShellSession.Session<D>, bytes: string)
    decreases |bytes|
  {
    bytes != "" && !s.closed ==>
      !Divides(s, bytes[0]) && NoneDivides(sv, ShellSession.Press(sv, s, bytes[0]), bytes[1..])
  }

  /** In step after every prefix, up to the byte that closes the session. */
  ghost predicate AlwaysInStep<D, E>(
    sv: Services<D>, sw: Services<E>, s: ShellSession.Session<D>, r: Reader<E>, bytes: string)
    decreases |bytes|
  {
    !s.closed ==>
      && InStep(s, r)
      && (bytes != "" ==>
            AlwaysInStep(sv, sw, ShellSession.Press(sv, s, bytes[0]), Receive(sw, r, bytes[0]), bytes[1..]))
  }

  /** Such a byte parts the pending lines at once. */
  lemma DividingByte<D, E>(sv: Services<D>, sw: Services<E>, s: ShellSession.Session<D>, r: Reader<E>, c: char)
    requires InStep(s, r) && |s.line| <= MAX_COMMAND_LENGTH && Divides(s, c)
    ensures var t, q := ShellSession.Press(sv, s, c), Receive(sw, r, c);
            !t.closed && |t.line| < |q.line|
  {
  }

  lemma LinesAreEqual<D, E>(s: ShellSession.Session<D>, r: Reader<E>)
    requires InStep(s, r)
    ensures s.line == r.line
  {
  }

  lemma NotDividing<D>(s: ShellSession.Session<D>, c: char)
    requires !Divides(s, c)
    ensures !ShellSession.IsErase(c) && (!ShellSession.IsLineEnd(c) ==> |s.line| < MAX_COMMAND_LENGTH)
  {
  }

  /**
    The readers stay in step up to the close exactly when no erase key, and no byte
    beyond the 4096th of a line, arrives before it.
  */
  lemma {:induction false} AlwaysInStepIff<D, E>(
    sv: Services<D>, sw: Services<E>, s: ShellSession.Session<D>, r: Reader<E>, bytes: string)
    requires s.closed || (InStep(s, r) && |s.line| <= MAX_COMMAND_LENGTH)
    ensures AlwaysInStep(sv, sw, s, r, bytes) <==> NoneDivides(sv, s, bytes)
    decreases |bytes|
  {
    hide ShellSession.Press, Receive, InStep, Divides, Parted;
    if bytes != "" && !s.closed {
      var c, rest := bytes[0], bytes[1..];
      var t, q := ShellSession.Press(sv, s, c), Receive(sw, r, c);
      if Divides(s, c) {
        DividingByte(sv, sw, s, r, c);
        if InStep(t, q) {
          LinesAreEqual(t, q);
        }
      } else {
        NotDividing(s, c);
        StepTogether(sv, sw, s, r, c);
        AlwaysInStepIff(sv, sw, t, q, rest);
      }
    }
  }

  /** Both shells from the start: the same, for every stream. */
  lemma ReadersInStepIff<D, E>(sv: Services<D>, sw: Services<E>, device: D, other: E, bytes: string)
    ensures var s, r := ShellSession.Opened(device, [], ""), Reader("", false, other, [], "");
            AlwaysInStep(sv, sw, s, r, bytes) <==> NoneDivides(sv, s, bytes)
  {
    AlwaysInStepIff(sv, sw, ShellSession.Opened(device, [], ""), Reader("", false, other, [], ""), bytes);
  }

  /** One key and its erasure. */
  const ERASED: string := ['a', ShellSession.BACKSPACE]

  lemma ErasedIsEmpty()
    ensures Typing.Typed(ERASED, Typing.Cr).Valid() && Typing.Edited(ERASED) == ""
  {
    var keys := ERASED;
    assert keys[..1] == ['a'] && ['a'][..0] == "";
    assert Typing.Edited(['a']) == Typing.Edited("") + ['a'] == ['a'];
    forall n | 0 <= n <= |keys|
      ensures |Typing.Edited(keys[..n])| <= MAX_COMMAND_LENGTH
    {
      if n == 0 {
        assert keys[..n] == "";
      } else if n == 2 {
        assert keys[..n] == keys;
      }
    }
  }

  lemma SessionErasesIt<D>(sv: Services<D>, s: ShellSession.Session<D>)
    requires !s.closed && s.line == "" && s.dispatched == []
    ensures NonEmpty(ShellSession.Feed(sv, s, ERASED + "\n").dispatched) == []
  {
    hide ShellSession.Feed, ShellSession.Enter, Route, Typing.Edited, NonEmpty;
    ErasedIsEmpty();
    Typing.FeedKeys(sv, s, ERASED);
    ShellSession.FeedLast(sv, s, ERASED, '\n');
    ExtraEmptyDispatch(sv, ShellSession.Feed(sv, s, ERASED));
    NonEmptyLast([], "");
    assert [] + [""] == [""] && NonEmpty([]) == [] by { NothingIsNonEmpty(); }
  }

  lemma NothingIsNonEmpty()
    ensures NonEmpty([]) == []
  {
  }

  /** What an erase key does: the session erases with it, the sketch keeps it as a part of the line. */
  lemma EraseKeyTellsApart<D, E>(sv: Services<D>, sw: Services<E>, device: D, other: E)
    ensures NonEmpty(ShellSession.Feed(sv, ShellSession.Opened(device, [], ""), ERASED + "\n").dispatched) == []
    ensures NonEmpty(ReceiveAll(sw, Reader("", false, other, [], ""), ERASED + "\n").dispatched) == [ERASED]
  {
    hide NonEmpty, ShellSession.Feed, ReceiveAll, ShellSession.Lines;
    SessionErasesIt(sv, ShellSession.Opened(device, [], ""));
    assert "" + ERASED == ERASED;
    SketchKeepsIt(sw, Reader("", false, other, [], ""), ERASED);
  }

  /** The limit is exact: the sketch keeps one byte more than the session, so a line of 4097 bytes tells them apart. */
  lemma OneByteTooMany<D, E>(sv: Services<D>, sw: Services<E>, device: D, other: E, line: string)
    requires |line| == MAX_COMMAND_LENGTH + 1 && NulFree(line)
    requires forall c <- line :: !ShellSession.IsErase(c) && !ShellSession.IsLineEnd(c)
    ensures NonEmpty(ShellSession.Feed(sv, ShellSession.Opened(device, [], ""), line + "\n").dispatched) == []
    ensures NonEmpty(ReceiveAll(sw, Reader("", false, other, [], ""), line + "\n").dispatched) == [line]
  {
    hide NonEmpty, ShellSession.Feed, ReceiveAll, ShellSession.Lines;
    var kept, last := line[..MAX_COMMAND_LENGTH], line[MAX_COMMAND_LENGTH];
    assert line == kept + [last];
    SessionDropsIt(sv, ShellSession.Opened(device, [], ""), kept, last);
    assert "" + line == line;
    SketchKeepsIt(sw, Reader("", false, other, [], ""), line);
  }

  lemma {:induction false} PlainKeys(keys: string)
    requires forall c <- keys :: !ShellSession.IsErase(c)
    ensures Typing.Edited(keys) == keys
    decreases |keys|
  {
    if keys != "" {
      var before := keys[..|keys| - 1];
      assert keys == before + [keys[|keys| - 1]] && keys[|keys| - 1] in keys;
      PlainKeys(before);
    }
  }

  lemma SessionDropsIt<D>(sv: Services<D>, s: ShellSession.Session<D>, kept: string, last: char)
    requires !s.closed && s.line == "" && s.dispatched == [] && |kept| == MAX_COMMAND_LENGTH
    requires forall c <- kept + [last] :: !ShellSession.IsErase(c) && !ShellSession.IsLineEnd(c)
    ensures NonEmpty(ShellSession.Feed(sv, s, kept + [last] + "\n").dispatched) == []
  {
    hide ShellSession.Feed, ShellSession.Enter, Route;
    forall n | 0 <= n <= |kept|
      ensures |Typing.Edited(kept[..n])| <= MAX_COMMAND_LENGTH
    {
      PlainKeys(kept[..n]);
    }
    PlainKeys(kept);
    assert last in kept + [last];
    Typing.FeedKeys(sv, s, kept);
    ShellSession.FeedLast(sv, s, kept, last);
    ShellSession.FeedLast(sv, s, kept + [last], '\n');
    var t := ShellSession.Feed(sv, s, kept + [last]);
    ExtraEmptyDispatch(sv, t);
    NonEmptyLast([], "");
    assert [] + [""] == [""];
  }

  lemma {:induction false} SketchKeepsIt<D>(sw: Services<D>, r: Reader<D>, line: string)
    requires !r.endingSeen && r.dispatched == []
    requires 0 < |r.line + line| <= MAX_COMMAND_LENGTH + 1 && NulFree(r.line + line)
    requires forall c <- line :: !ShellSession.IsLineEnd(c)
    ensures NonEmpty(ReceiveAll(sw, r, line + "\n").dispatched) == [r.line + line]
    decreases |line|
  {
    hide Enter;
    if line == "" {
      assert r.line + line == r.line && line + "\n" == "\n" && "\n"[1..] == "";
      EnterAppends(sw, r);
      NonEmptyLast([], r.line);
      assert ReceiveAll(sw, r, "\n") == Receive(sw, r, '\n');
      assert [] + [r.line] == [r.line];
    } else {
      assert line[0] in line;
      assert (line + "\n")[1..] == line[1..] + "\n";
      assert r.line + [line[0]] + line[1..] == r.line + line;
      SketchKeepsIt(sw, Receive(sw, r, line[0]), line[1..]);
    }
  }
}
