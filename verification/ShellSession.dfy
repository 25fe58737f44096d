/**
  The interactive session of the ESP-IDF image (firmware/common/shell_session.h):
  line editing, echo and dispatch over a byte transport.
*/
module ShellSession {
  import opened CStrings
  import opened CommandCore
  import Routing

  const PROMPT := "esp32shell>"
  const BANNER := ["esp32shell ssh shell", "Type 'help' for commands."]
  const OVERFLOW := "error: command is too long"
  const BACKSPACE := '\U{8}'
  const DELETE := '\U{7f}'
  const ERASE := [BACKSPACE, ' ', BACKSPACE]

  predicate IsLineEnd(c: char) {
    c == '\r' || c == '\n'
  }

  predicate IsErase(c: char) {
    c == BACKSPACE || c == DELETE
  }

  /** What a `CommandOutput` sends for some lines; a C string ends at its first NUL. */
  function Lines(lines: seq<string>): string {
    if lines == [] then "" else Terminated(lines[0]) + "\r\n" + Lines(lines[1..])
  }

  /**
    A session between two bytes. `prompted` records whether a prompt precedes the
    pending line on the screen; the source keeps no such flag.
  */
  datatype Session<D> = Session(
    line: string, afterCr: bool, prompted: bool, closed: bool,
    device: D, dispatched: seq<string>, output: string)

  /** A new session that follows what was dispatched and sent before. */
  function Opened<D>(device: D, dispatched: seq<string>, sent: string): Session<D> {
    Session("", false, true, false, device, dispatched, sent + Lines(BANNER) + PROMPT)
  }

  /** The effect of dispatching the pending line. */
  ghost function Enter<D>(services: Services<D>, s: Session<D>): Session<D> {
    var text := Terminated(s.line);
    var result := Dispatch(services, s.device, text);
    var closed := result.status == SessionClosed;
    var answer := s.output + "\r\n" + Lines(result.lines);
    Session(if closed then s.line else "", s.afterCr, !closed, closed, result.device,
            s.dispatched + [text], if closed then answer else answer + PROMPT)
  }

  /** The effect of one received byte; a closed session ignores it. */
  ghost function Press<D>(services: Services<D>, s: Session<D>, c: char): Session<D> {
    if s.closed then s
    else if IsLineEnd(c) then
      if c == '\n' && s.afterCr then s.(afterCr := false)
      else Enter(services, s.(afterCr := c == '\r'))
    else if IsErase(c) then
      if s.line == "" then s
      else s.(line := s.line[..|s.line| - 1], output := s.output + ERASE)
    else if |s.line| < MAX_COMMAND_LENGTH then
      s.(afterCr := false, line := s.line + [c], output := s.output + Terminated([c]))
    else
      s.(afterCr := false, line := "", prompted := false, output := s.output + Terminated(OVERFLOW) + "\r\n")
  }

  ghost function Feed<D>(services: Services<D>, s: Session<D>, bytes: string): Session<D>
    decreases |bytes|
  {
    if bytes == "" then s else Feed(services, Press(services, s, bytes[0]), bytes[1..])
  }

  lemma {:induction false} FeedConcat<D>(services: Services<D>, s: Session<D>, a: string, b: string)
    ensures Feed(services, s, a + b) == Feed(services, Feed(services, s, a), b)
    decreases |a|
  {
    hide Press;
    if a == "" {
      assert a + b == b;
    } else {
      assert (a + b)[1..] == a[1..] + b;
      FeedConcat(services, Press(services, s, a[0]), a[1..], b);
    }
  }

  lemma FeedLast<D>(services: Services<D>, s: Session<D>, bytes: string, c: char)
    ensures Feed(services, s, bytes + [c]) == Press(services, Feed(services, s, bytes), c)
  {
    hide Press;
    FeedConcat(services, s, bytes, [c]);
    assert [c][1..] == "";
  }

  lemma {:induction false} FeedClosed<D>(services: Services<D>, s: Session<D>, bytes: string)
    requires s.closed
    ensures Feed(services, s, bytes) == s
    decreases |bytes|
  {
    if bytes != "" {
      FeedClosed(services, s, bytes[1..]);
    }
  }

  /** What `connected` and `read` answer in one turn of the session's loop. */
  datatype Read = Data(bytes: string) | WouldBlock | Closed | Error
  datatype Poll = Poll(connected: bool, read: Read)

  /** All bytes a transport delivers until it reports the end. */
  function Received(polls: seq<Poll>): string {
    if polls == [] || !polls[0].connected then ""
    else
      match polls[0].read
      case Data(bytes) => bytes + Received(polls[1..])
      case WouldBlock => Received(polls[1..])
      case Closed => ""
      case Error => ""
  }

  /** However a read is split, and wherever the transport has nothing yet, the same bytes arrive. */
  lemma {:induction false} SplittingAReadIsInvisible(before: seq<Poll>, a: string, b: string, after: seq<Poll>)
    ensures Received(before + [Poll(true, Data(a + b))] + after)
         == Received(before + [Poll(true, Data(a)), Poll(true, WouldBlock), Poll(true, Data(b))] + after)
    decreases |before|
  {
    var whole := before + [Poll(true, Data(a + b))] + after;
    var split := before + [Poll(true, Data(a)), Poll(true, WouldBlock), Poll(true, Data(b))] + after;
    if before == [] {
      var third := [Poll(true, Data(b))] + after;
      var second := [Poll(true, WouldBlock)] + third;
      assert whole[1..] == after && split[1..] == second && second[1..] == third && third[1..] == after;
      assert Received(split) == a + Received(second) && Received(second) == Received(third) == b + Received(after);
      assert a + b + Received(after) == a + (b + Received(after));
    } else {
      assert whole[1..] == before[1..] + [Poll(true, Data(a + b))] + after;
      assert split[1..] == before[1..] + [Poll(true, Data(a)), Poll(true, WouldBlock), Poll(true, Data(b))] + after;
      SplittingAReadIsInvisible(before[1..], a, b, after);
    }
  }

  /** Bytes that follow a closing command change nothing. */
  lemma LeftOverBytesAreIgnored<D>(services: Services<D>, s: Session<D>, bytes: string, more: string)
    requires Feed(services, s, bytes).closed
    ensures Feed(services, s, bytes + more) == Feed(services, s, bytes)
  {
    FeedConcat(services, s, bytes, more);
    FeedClosed(services, Feed(services, s, bytes), more);
  }

  ghost predicate Fits<D>(s: Session<D>) {
    && |s.line| <= MAX_COMMAND_LENGTH
    && forall text <- s.dispatched :: |text| <= MAX_COMMAND_LENGTH && Route(text) != Print(TooLong)
  }

  lemma EnterFits<D>(services: Services<D>, s: Session<D>)
    requires Fits(s)
    ensures Fits(Enter(services, s))
  {
    hide Route, Dispatch, Lines, Terminated;
    ShortLinesAreNeverTooLong(Terminated(s.line));
    var t := Enter(services, s);
    assert forall text <- t.dispatched :: text in s.dispatched || text == Terminated(s.line);
  }

  lemma PressFits<D>(services: Services<D>, s: Session<D>, c: char)
    requires Fits(s)
    ensures Fits(Press(services, s, c))
  {
    hide Route, Enter, Terminated;
    if IsLineEnd(c) {
      EnterFits(services, s.(afterCr := c == '\r'));
    }
  }

  /** The pending line never outgrows its buffer, so no dispatched line is too long for the dispatcher. */
  lemma {:induction false} LinesFit<D>(services: Services<D>, s: Session<D>, bytes: string)
    requires Fits(s)
    ensures Fits(Feed(services, s, bytes))
    decreases |bytes|
  {
    hide Press, Fits;
    if bytes != "" {
      PressFits(services, s, bytes[0]);
      LinesFit(services, Press(services, s, bytes[0]), bytes[1..]);
    }
  }

  lemma ShortLinesAreNeverTooLong(line: string)
    requires |line| <= MAX_COMMAND_LENGTH
    ensures Route(line) != Print(TooLong)
  {
    hide Command.Word, Named, IndexOf;
    var command := TrimLeft(line);
    assert |TrimRight(command)| <= |command| <= |line|;
  }

  datatype Result = TransportClosed | NoMemory | CommandRequestedClose

  /** Writing the terminator at `used` ends the C string of the buffer there, or earlier. */
  lemma TerminatorEnds(buffer: string, used: nat)
    requires used < |buffer| && buffer[used] == NUL
    ensures buffer[..IndexOf(buffer, NUL)] == Terminated(buffer[..used])
  {
    var i := IndexOf(buffer, NUL);
    IndexOfIs(buffer[..used], NUL, i);
    assert buffer[..used][..i] == buffer[..i];
  }

  /** The session object: the transport's sent bytes and the device are what it changes. */
  class Shell<!D> {
    const services: Services<D>
    var device: D
    var sent: string
    ghost var dispatched: seq<string>

    constructor (services: Services<D>, device: D)
      ensures this.services == services && this.device == device && sent == "" && dispatched == []
    {
      this.services := services;
      this.device := device;
      sent := "";
      dispatched := [];
    }

    method Raw(text: string)
      modifies this`sent
      ensures sent == old(sent) + Terminated(text)
    {
      sent := sent + text[..IndexOf(text, NUL)];
    }

    method Line(text: string)
      modifies this`sent
      ensures sent == old(sent) + Terminated(text) + "\r\n"
    {
      Raw(text);
      Raw("\r\n");
    }

    method LineAll(lines: seq<string>)
      modifies this`sent
      ensures sent == old(sent) + Lines(lines)
    {
      var i := 0;
      assert lines[0..] == lines;
      while i < |lines|
        invariant i <= |lines|
        invariant sent + Lines(lines[i..]) == old(sent) + Lines(lines)
      {
        Line(lines[i]);
        assert lines[i..][1..] == lines[i + 1..];
        i := i + 1;
      }
    }

    /** The session `s` as the object's fields, the line buffer and the two locals of `Run` hold it. */
    ghost predicate Shows(s: Session<D>, line: array<char>, used: nat, afterCr: bool)
      reads this, line
    {
      && used <= MAX_COMMAND_LENGTH && line.Length == MAX_COMMAND_LENGTH + 1
      && line[..used] == s.line && afterCr == s.afterCr && !s.closed
      && device == s.device && dispatched == s.dispatched && sent == s.output
    }

    /** Ends the pending line and hands it to the dispatcher. */
    method Submit(line: array<char>, used: nat, ghost s: Session<D>) returns (close: bool)
      requires Shows(s, line, used, s.afterCr)
      modifies this, line
      ensures var s' := Enter(services, s);
              && close == s'.closed && sent == s'.output
              && device == s'.device && dispatched == s'.dispatched
    {
      hide Dispatch, Lines, IndexOf, Terminated;
      Raw("\r\n");
      line[used] := NUL;
      assert line[..][..used] == line[..used] == s.line;
      TerminatorEnds(line[..], used);
      var text := line[..][..IndexOf(line[..], NUL)];
      var result := Routing.DispatchLine(services, device, text);
      device := result.device;
      dispatched := dispatched + [text];
      LineAll(result.lines);
      close := result.status == SessionClosed;
      if !close {
        Raw(PROMPT);
      }
    }

    /** One byte of the inner loop. */
    method Key(line: array<char>, used: nat, afterCr: bool, ch: char, ghost s: Session<D>)
      returns (used': nat, afterCr': bool, close: bool)
      requires Shows(s, line, used, afterCr)
      modifies this, line
      ensures var s' := Press(services, s, ch);
              && close == s'.closed && sent == s'.output
              && device == s'.device && dispatched == s'.dispatched
              && (!close ==> Shows(s', line, used', afterCr'))
    {
      hide Enter, Lines;
      used', afterCr', close := used, afterCr, false;
      if ch == '\r' || ch == '\n' {
        if ch == '\n' && afterCr {
          afterCr' := false;
          return;
        }
        afterCr' := ch == '\r';
        close := Submit(line, used, s.(afterCr := afterCr'));
        if !close {
          EnterClears(services, s.(afterCr := afterCr'));
          used' := 0;
        }
      } else if ch == BACKSPACE || ch == DELETE {
        if used > 0 {
          used' := used - 1;
          Raw(ERASE);
          assert line[..used'] == s.line[..|s.line| - 1];
        }
      } else if used < MAX_COMMAND_LENGTH {
        afterCr' := false;
        line[used] := ch;
        used' := used + 1;
        assert line[..used'] == s.line + [ch];
        Raw([ch]);
      } else {
        afterCr' := false;
        Line(OVERFLOW);
        used' := 0;
      }
    }

    /** The inner loop: the bytes of one read, up to a closing command. */
    method Chunk(input: string, line: array<char>, used: nat, afterCr: bool, ghost s: Session<D>)
      returns (used': nat, afterCr': bool, close: bool)
      requires Shows(s, line, used, afterCr)
      modifies this, line
      ensures var s' := Feed(services, s, input);
              && close == s'.closed && sent == s'.output
              && device == s'.device && dispatched == s'.dispatched
              && (!close ==> Shows(s', line, used', afterCr'))
    {
      hide Press;
      ghost var now := s;
      used', afterCr', close := used, afterCr, false;
      var i := 0;
      assert input[0..] == input;
      while i < |input|
        invariant i <= |input|
        invariant Shows(now, line, used', afterCr')
        invariant Feed(services, now, input[i..]) == Feed(services, s, input)
      {
        ghost var rest := input[i..];
        assert rest[1..] == input[i + 1..];
        used', afterCr', close := Key(line, used', afterCr', input[i], now);
        now := Press(services, now, input[i]);
        i := i + 1;
        if close {
          FeedClosed(services, now, rest[1..]);
          return;
        }
      }
    }

    /**
      The session loop over a finite run of the transport. The outcome depends on
      the transport only through the bytes it delivers in all.
    */
    method Run(polls: seq<Poll>, haveBuffer: bool) returns (result: Result)
      modifies this
      ensures var initial := Opened(old(device), old(dispatched), old(sent));
              var final := if haveBuffer then Feed(services, initial, Received(polls)) else initial;
              && sent == final.output && device == final.device && dispatched == final.dispatched
              && result == (if !haveBuffer then NoMemory
                            else if final.closed then CommandRequestedClose
                            else TransportClosed)
    {
      hide Press, Lines, Terminated;
      ghost var s := Opened(device, dispatched, sent);
      ghost var final := Feed(services, s, Received(polls));
      LineAll(BANNER);
      Raw(PROMPT);
      if !haveBuffer {
        return NoMemory;
      }
      var line := new char[MAX_COMMAND_LENGTH + 1];
      var used := 0;
      var previousWasCarriageReturn := false;
      var turn := 0;
      assert polls[0..] == polls;
      while turn < |polls| && polls[turn].connected
        invariant turn <= |polls|
        invariant fresh(line) && Shows(s, line, used, previousWasCarriageReturn)
        invariant Feed(services, s, Received(polls[turn..])) == final
      {
        ghost var later := Received(polls[turn + 1..]);
        assert polls[turn..][1..] == polls[turn + 1..];
        match polls[turn].read
        case WouldBlock =>
          turn := turn + 1;
        case Data(input) =>
          FeedConcat(services, s, input, later);
          var close;
          used, previousWasCarriageReturn, close := Chunk(input, line, used, previousWasCarriageReturn, s);
          s := Feed(services, s, input);
          if close {
            FeedClosed(services, s, later);
            return CommandRequestedClose;
          }
          turn := turn + 1;
        case _ =>
          return TransportClosed;
      }
      return TransportClosed;
    }
  }

  lemma EnterClears<D>(services: Services<D>, s: Session<D>)
    ensures var s' := Enter(services, s); !s'.closed ==> s'.line == "" && s'.afterCr == s.afterCr
  {
  }
}
