/**
  Everything that both shells send and everything that becomes of the device, over
  whole runs: the echo of each line, the answer to it, and the prompt.
*/
module Transcript {
  import opened CStrings
  import opened CommandCore
  import opened ShellSession
  import opened Typing
  import Dispatching
  import SerialShell

  lemma Regroup(a: string, b: string, c: string)
    ensures a + "\r\n" + (b + c) == a + "\r\n" + b + c
  {
  }

  /** The answer to each line is its text and a line end, one after another. */
  lemma {:induction false} LinesAreJoined(a: seq<string>, b: seq<string>)
    ensures Lines(a + b) == Lines(a) + Lines(b)
    decreases |a|
  {
    hide Terminated;
    if a == [] {
      assert a + b == b;
    } else {
      assert (a + b)[1..] == a[1..] + b;
      LinesAreJoined(a[1..], b);
      Regroup(Terminated(a[0]), Lines(a[1..]), Lines(b));
    }
  }

  lemma {:induction false} PrintedLinesAreJoined(a: seq<string>, b: seq<string>)
    ensures SerialShell.PrintLines(a + b) == SerialShell.PrintLines(a) + SerialShell.PrintLines(b)
    decreases |a|
  {
    if a == [] {
      assert a + b == b;
    } else {
      assert (a + b)[1..] == a[1..] + b;
      PrintedLinesAreJoined(a[1..], b);
      Regroup(a[0], SerialShell.PrintLines(a[1..]), SerialShell.PrintLines(b));
    }
  }

  lemma OneLine(text: string)
    requires NulFree(text)
    ensures Lines([text]) == text + "\r\n" && SerialShell.PrintLines([text]) == text + "\r\n"
  {
    assert [text][1..] == [];
  }

  /** In every session the device is what the dispatched lines, one after another, have made of it. */
  lemma {:induction false} DeviceIsDispatched<D>(services: Services<D>, device: D, s: Session<D>, bytes: string)
    requires s.device == Dispatching.DeviceAfter(services, device, s.dispatched)
    ensures var t := Feed(services, s, bytes);
            t.device == Dispatching.DeviceAfter(services, device, t.dispatched)
    decreases |bytes|
  {
    hide Dispatch, Lines, Dispatching.DeviceAfter;
    if bytes != "" {
      Dispatching.DeviceAfterOneMore(services, device, s.dispatched, Terminated(s.line));
      DeviceIsDispatched(services, device, Press(services, s, bytes[0]), bytes[1..]);
    }
  }

  /** The same from the start of a session, for any bytes. */
  lemma SessionDevice<D>(services: Services<D>, device: D, bytes: string)
    ensures var t := Feed(services, Opened(device, [], ""), bytes);
            t.device == Dispatching.DeviceAfter(services, device, t.dispatched)
  {
    hide Feed, Lines;
    DeviceIsDispatched(services, device, Opened(device, [], ""), bytes);
  }

  /** The same for the sketch. */
  lemma {:induction false} SketchDevice<D>(
    services: Services<D>, device: D, r: SerialShell.Reader<D>, bytes: string)
    requires r.device == Dispatching.DeviceAfter(services, device, r.dispatched)
    ensures var q := SerialShell.ReceiveAll(services, r, bytes);
            q.device == Dispatching.DeviceAfter(services, device, q.dispatched)
    decreases |bytes|
  {
    hide Dispatch, SerialShell.PrintLines, Dispatching.DeviceAfter;
    if bytes != "" {
      Dispatching.DeviceAfterOneMore(services, device, r.dispatched, Terminated(r.line));
      SketchDevice(services, device, SerialShell.Receive(services, r, bytes[0]), bytes[1..]);
    }
  }

  /** What the user sees of some keystrokes. */
  function Echo(keys: string): string
    decreases |keys|
  {
    if keys == "" then ""
    else
      var before, key := keys[..|keys| - 1], keys[|keys| - 1];
      Echo(before) +
      if IsErase(key) then (if Edited(before) == "" then "" else ['\U{8}', ' ', '\U{8}'])
      else if key == NUL then ""
      else [key]
  }

  lemma {:induction false} KeysAreEchoed<D>(services: Services<D>, s: Session<D>, keys: string)
    requires !s.closed && s.line == "" && Typed(keys, Cr).Valid()
    ensures Feed(services, s, keys).output == s.output + Echo(keys)
    decreases |keys|
  {
    hide Feed, Dispatch, Edited;
    if keys == "" {
      FeedNothing(services, s);
      assert s.output + "" == s.output;
    } else {
      var before, key := keys[..|keys| - 1], keys[|keys| - 1];
      assert keys == before + [key] && key in keys;
      KeysBefore(keys);
      KeysAreEchoed(services, s, before);
      FeedKeys(services, s, before);
      FeedLast(services, s, before, key);
      KeyIsEchoed(services, Feed(services, s, before), key, |Edited(keys)|) by { KeyGrows(keys); }
    }
  }

  lemma FeedNothing<D>(services: Services<D>, s: Session<D>)
    ensures Feed(services, s, "") == s
  {
  }

  lemma KeysBefore(keys: string)
    requires keys != "" && Typed(keys, Cr).Valid()
    ensures Typed(keys[..|keys| - 1], Cr).Valid() && |Edited(keys)| <= MAX_COMMAND_LENGTH
  {
    hide Edited;
    var before := keys[..|keys| - 1];
    forall n | 0 <= n <= |before|
      ensures before[..n] == keys[..n]
    {
    }
    assert forall c <- before :: c in keys;
    assert keys[..|keys|] == keys;
  }

  lemma KeyGrows(keys: string)
    requires keys != ""
    ensures !IsErase(keys[|keys| - 1]) ==> |Edited(keys)| == |Edited(keys[..|keys| - 1])| + 1
  {
  }

  lemma KeyIsEchoed<D>(services: Services<D>, s: Session<D>, key: char, length: nat)
    requires !s.closed && !IsLineEnd(key) && length <= MAX_COMMAND_LENGTH
    requires !IsErase(key) ==> length == |s.line| + 1
    ensures Press(services, s, key).output == s.output +
              if IsErase(key) then (if s.line == "" then "" else ['\U{8}', ' ', '\U{8}'])
              else if key == NUL then ""
              else [key]
  {
    assert Terminated([key]) == if key == NUL then "" else [key];
    assert s.output + "" == s.output;
  }

  lemma {:induction false} ErasesShowNothing(keys: string)
    requires OnlyErases(keys)
    ensures Echo(keys) == ""
    decreases |keys|
  {
    if keys != "" {
      var before := keys[..|keys| - 1];
      assert keys[|keys| - 1] in keys && forall c <- before :: c in keys;
      ErasesShowNothing(before);
      ErasesEditNothing(before);
    }
  }

  /** What a session sends for some typed lines, up to the first that closes it. */
  ghost function Sent<D>(services: Services<D>, device: D, afterCr: bool, typed: seq<Typed>): string
    decreases |typed|
  {
    if typed == [] then ""
    else if Lost(afterCr, typed[0]) then Sent(services, device, false, typed[1..])
    else
      var result := Dispatch(services, device, typed[0].Text());
      Echo(typed[0].keys) + "\r\n" + Lines(result.lines) +
      if Route(typed[0].Text()).Close? then ""
      else "esp32shell>" + Sent(services, result.device, typed[0].ending.Cr?, typed[1..])
  }

  /** The end of a line whose echo has been sent: a line end, the answer and the next prompt. */
  lemma EndingIsAnswered<D>(services: Services<D>, s: Session<D>, ending: Ending)
    requires !s.closed && (s.afterCr && ending.Lf? ==> s.line == "")
    ensures var t := Feed(services, s, ending.Bytes());
            var result := Dispatch(services, s.device, Terminated(s.line));
            if s.afterCr && ending.Lf? then t.output == s.output && t.device == s.device
            else
              && t.device == result.device
              && t.output == s.output + "\r\n" + Lines(result.lines)
                             + if Route(Terminated(s.line)).Close? then "" else "esp32shell>"
  {
    hide Dispatch, Route, Lines, Terminated;
    ClosesByRoute(services, s.device, Terminated(s.line));
    var bytes := ending.Bytes();
    var first := Press(services, s, bytes[0]);
    var answer := s.output + "\r\n" + Lines(Dispatch(services, s.device, Terminated(s.line)).lines);
    assert answer + "" == answer;
    if ending.CrLf? {
      assert bytes[1..] == "\n" && "\n"[1..] == "";
      assert Feed(services, first, "\n") == Press(services, first, '\n');
    } else {
      assert bytes[1..] == "";
    }
  }

  /** The whole output of one typed line. */
  lemma LineIsAnswered<D>(services: Services<D>, s: Session<D>, t: Typed)
    requires !s.closed && s.line == "" && t.Valid()
    ensures var u := Feed(services, s, t.keys + t.ending.Bytes());
            var result := Dispatch(services, s.device, t.Text());
            if Lost(s.afterCr, t) then u.output == s.output && u.device == s.device
            else
              && u.device == result.device
              && u.output == s.output + Echo(t.keys) + "\r\n" + Lines(result.lines)
                             + if Route(t.Text()).Close? then "" else "esp32shell>"
  {
    hide Route, Press, Dispatch, Lines;
    FeedConcat(services, s, t.keys, t.ending.Bytes());
    assert Typed(t.keys, Cr).Valid();
    FeedKeys(services, s, t.keys);
    KeysAreEchoed(services, s, t.keys);
    if OnlyErases(t.keys) {
      ErasesEditNothing(t.keys);
      ErasesShowNothing(t.keys);
      assert s.output + "" == s.output;
    }
    EndingIsAnswered(services, Feed(services, s, t.keys), t.ending);
  }

  /** Every byte that a session sends for any list of typed lines. */
  lemma {:induction false} LinesAreAnswered<D>(services: Services<D>, s: Session<D>, typed: seq<Typed>)
    requires !s.closed && s.line == "" && forall t <- typed :: t.Valid()
    ensures Feed(services, s, Stream(typed)).output == s.output + Sent(services, s.device, s.afterCr, typed)
    decreases |typed|
  {
    hide Route, Press, Dispatch, Lines, Lost, Echo, Edited, Typed.Valid, Typed.Text;
    if typed == [] {
      assert s.output + "" == s.output;
    } else {
      var t, rest := typed[0], typed[1..];
      var bytes := t.keys + t.ending.Bytes();
      var u := Feed(services, s, bytes);
      FeedLine(services, s, t);
      LineIsAnswered(services, s, t);
      FeedConcat(services, s, bytes, Stream(rest));
      if u.closed {
        FeedClosed(services, u, Stream(rest));
        JoinClosed(s.output, Echo(t.keys), Lines(Dispatch(services, s.device, t.Text()).lines));
      } else {
        LinesAreAnswered(services, u, rest);
        if !Lost(s.afterCr, t) {
          Join(s.output, Echo(t.keys), Lines(Dispatch(services, s.device, t.Text()).lines),
               Sent(services, u.device, u.afterCr, rest));
        }
      }
    }
  }

  lemma Join(a: string, b: string, c: string, d: string)
    ensures a + b + "\r\n" + c + "esp32shell>" + d == a + (b + "\r\n" + c + ("esp32shell>" + d))
  {
  }

  lemma JoinClosed(a: string, b: string, c: string)
    ensures a + b + "\r\n" + c + "" == a + (b + "\r\n" + c + "")
  {
  }

  const FIRST_LINE := "esp32shell ssh shell"
  const SECOND_LINE := "Type 'help' for commands."
  const TOO_LONG := "error: command is too long"

  lemma FixedTexts()
    ensures BANNER == [FIRST_LINE] + [SECOND_LINE] && OVERFLOW == TOO_LONG && PROMPT == "esp32shell>"
    ensures NulFree(FIRST_LINE) && NulFree(SECOND_LINE) && NulFree(TOO_LONG)
  {
  }

  lemma Greeting()
    ensures Lines(BANNER) == FIRST_LINE + "\r\n" + (SECOND_LINE + "\r\n")
  {
    hide Lines, NulFree, FIRST_LINE, SECOND_LINE, BANNER;
    FixedTexts();
    OneLine(FIRST_LINE);
    OneLine(SECOND_LINE);
    LinesAreJoined([FIRST_LINE], [SECOND_LINE]);
  }

  /** A whole session: banner and prompt, then for each line its echo, its answer and the next prompt. */
  lemma SessionTranscript<D>(services: Services<D>, device: D, typed: seq<Typed>)
    requires forall t <- typed :: t.Valid()
    ensures Feed(services, Opened(device, [], ""), Stream(typed)).output
         == FIRST_LINE + "\r\n" + (SECOND_LINE + "\r\n") + "esp32shell>" + Sent(services, device, false, typed)
  {
    hide Feed, Sent, Lines, Typed.Valid, FIRST_LINE, SECOND_LINE, BANNER;
    LinesAreAnswered(services, Opened(device, [], ""), typed);
    Greeting();
    FixedTexts();
    assert "" + Lines(BANNER) == Lines(BANNER);
  }

  lemma OverflowStep<D>(services: Services<D>, s: Session<D>, c: char)
    requires !s.closed && |s.line| == 4096 && !IsLineEnd(c) && !IsErase(c)
    ensures Press(services, s, c)
         == s.(afterCr := false, line := "", prompted := false, output := s.output + Terminated(OVERFLOW) + "\r\n")
  {
    hide Enter, Terminated, OVERFLOW;
  }

  /** A byte too many is dropped with the whole line, a message says so, and no prompt follows. */
  lemma OverflowIsReported<D>(services: Services<D>, s: Session<D>, c: char)
    requires !s.closed && |s.line| == 4096 && !IsLineEnd(c) && !IsErase(c)
    ensures var t := Feed(services, s, [c]);
            && !t.closed && t.line == "" && t.device == s.device && t.dispatched == s.dispatched
            && t.output == s.output + TOO_LONG + "\r\n"
  {
    hide Press, Terminated, NulFree, TOO_LONG, OVERFLOW;
    OverflowStep(services, s, c);
    FixedTexts();
    TerminatedWhole(OVERFLOW);
    assert [c][1..] == "";
  }

  lemma TerminatedWhole(text: string)
    requires NulFree(text)
    ensures Terminated(text) == text
  {
  }

  /** Nothing that a transport might deliver after its end is received. */
  lemma {:induction false} NothingAfterTheEnd(before: seq<Poll>, end: Poll, after: seq<Poll>)
    requires !end.connected || end.read.Closed? || end.read.Error?
    ensures Received(before + [end] + after) == Received(before)
    decreases |before|
  {
    if before == [] {
      assert ([] + [end] + after)[0] == end;
    } else {
      assert (before + [end] + after)[1..] == before[1..] + [end] + after;
      NothingAfterTheEnd(before[1..], end, after);
    }
  }

  /** The sketch knows no erase key: a line is its bytes, at most 4097 of them. */
  predicate Plain(t: Typed) {
    |t.keys| <= MAX_COMMAND_LENGTH + 1 && forall c <- t.keys :: !IsLineEnd(c)
  }

  /** What the sketch writes for some lines; after a CR an empty line is taken for the rest of a CRLF. */
  ghost function Written<D>(services: Services<D>, device: D, afterCr: bool, typed: seq<Typed>): string
    decreases |typed|
  {
    if typed == [] then ""
    else if afterCr && typed[0].keys == "" then Written(services, device, typed[0].ending.Cr?, typed[1..])
    else
      var result := Dispatch(services, device, Terminated(typed[0].keys));
      typed[0].keys + "\r\n" + SerialShell.PrintLines(result.lines) + "esp32shell> "
      + Written(services, result.device, typed[0].ending.Cr?, typed[1..])
  }

  lemma {:induction false} SketchEchoes<D>(services: Services<D>, r: SerialShell.Reader<D>, keys: string)
    requires |r.line + keys| <= MAX_COMMAND_LENGTH + 1 && forall c <- keys :: !IsLineEnd(c)
    ensures var q := SerialShell.ReceiveAll(services, r, keys);
            && q.line == r.line + keys && q.output == r.output + keys && q.device == r.device
            && q.endingSeen == (r.endingSeen && keys == "")
    decreases |keys|
  {
    hide SerialShell.Enter;
    if keys == "" {
      assert r.line + keys == r.line && r.output + keys == r.output;
    } else {
      assert keys[0] in keys && r.line + [keys[0]] + keys[1..] == r.line + keys;
      assert r.output + [keys[0]] + keys[1..] == r.output + keys;
      SketchEchoes(services, SerialShell.Receive(services, r, keys[0]), keys[1..]);
    }
  }

  lemma SketchAnswers<D>(services: Services<D>, r: SerialShell.Reader<D>, ending: Ending)
    ensures var q := SerialShell.ReceiveAll(services, r, ending.Bytes());
            var result := Dispatch(services, r.device, Terminated(r.line));
            && q.endingSeen == ending.Cr?
            && if r.endingSeen then q.output == r.output && q.device == r.device && q.line == r.line
               else
                 && q.device == result.device && q.line == ""
                 && q.output == r.output + "\r\n" + SerialShell.PrintLines(result.lines) + "esp32shell> "
  {
    hide Dispatch, SerialShell.PrintLines, Terminated;
    var bytes := ending.Bytes();
    var first := SerialShell.Receive(services, r, bytes[0]);
    if ending.CrLf? {
      assert bytes[1..] == "\n" && "\n"[1..] == "";
      assert SerialShell.ReceiveAll(services, first, "\n") == SerialShell.Receive(services, first, '\n');
    } else {
      assert bytes[1..] == "";
    }
  }

  /** Every byte that the sketch writes for any list of plain lines. */
  lemma {:induction false} SketchTranscript<D>(services: Services<D>, r: SerialShell.Reader<D>, typed: seq<Typed>)
    requires r.line == "" && forall t <- typed :: Plain(t)
    ensures SerialShell.ReceiveAll(services, r, Stream(typed)).output
         == r.output + Written(services, r.device, r.endingSeen, typed)
    decreases |typed|
  {
    hide Dispatch, SerialShell.Receive, SerialShell.PrintLines, Terminated;
    if typed == [] {
      assert r.output + "" == r.output;
    } else {
      var t, rest := typed[0], typed[1..];
      assert t in typed && "" + t.keys == t.keys;
      SerialShell.ReceiveConcat(services, r, t.keys + t.ending.Bytes(), Stream(rest));
      SerialShell.ReceiveConcat(services, r, t.keys, t.ending.Bytes());
      SketchEchoes(services, r, t.keys);
      var q := SerialShell.ReceiveAll(services, r, t.keys);
      SketchAnswers(services, q, t.ending);
      var u := SerialShell.ReceiveAll(services, q, t.ending.Bytes());
      SketchTranscript(services, u, rest);
      if r.endingSeen && t.keys == "" {
        assert r.output + "" == r.output;
      } else {
        SketchJoin(r.output, t.keys, SerialShell.PrintLines(Dispatch(services, r.device, Terminated(t.keys)).lines),
                   Written(services, u.device, u.endingSeen, rest));
      }
    }
  }

  lemma SketchJoin(a: string, b: string, c: string, d: string)
    ensures a + b + "\r\n" + c + "esp32shell> " + d == a + (b + "\r\n" + c + "esp32shell> " + d)
  {
  }

  /** The sketch neither keeps nor echoes what does not fit its line. */
  lemma {:induction false} SketchDropsTheRest<D>(services: Services<D>, r: SerialShell.Reader<D>, keys: string)
    requires |r.line| == 4097 && forall c <- keys :: !IsLineEnd(c)
    ensures SerialShell.ReceiveAll(services, r, keys) == r
    decreases |keys|
  {
    if keys != "" {
      assert keys[0] in keys;
      SketchDropsTheRest(services, r, keys[1..]);
    }
  }
}
