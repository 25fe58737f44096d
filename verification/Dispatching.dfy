/**
  What every line does, word by word: which text is printed, which service is called
  and with what, and what becomes of the service's answer.
*/
module Dispatching {
  import opened CStrings
  import opened CommandCore
  import Routing

  /** The commands whose service takes the rest of the line, and those whose verdict decides the status. */
  const WITH_ARGUMENTS: set<Command> := {
    WifiConfig, WifiProfileClear, ConfigGet, ConfigSet, ConfigClear, FsList, FsRead, FsWrite, FsRemove,
    GpioRead, GpioWrite, AppRun, AppStop
  }

  const REFUSABLE: set<Command> := {
    WifiConfig, WifiProfileClear, ConfigSet, ConfigClear, FsWrite, FsRemove, GpioWrite, AppRun, AppStop
  }

  /** The commands that the dispatcher answers itself or by closing the session. */
  const WITHOUT_SERVICE: set<Command> := {Help, Version, Exit, Quit}

  /** The text before the first space of a trimmed line. */
  function FirstWord(text: string): string {
    text[..IndexOf(text, ' ')]
  }

  lemma FirstWordNames(line: string, c: Command)
    requires 0 < |Trim(line)| <= 4096
    ensures FirstWord(Trim(line)) == c.Word() <==> Named(FirstWord(Trim(line))) == Some(c)
    ensures Trim(line) == c.Word() <==>
            FirstWord(Trim(line)) == c.Word() && IndexOf(Trim(line), ' ') == |Trim(line)|
  {
    hide Command.Word, Named;
    var text := Trim(line);
    Routing.WordsAreSolid(c);
    Routing.FirstWordDecides(c.Word(), text);
    Routing.NamedWord(c);
    Routing.NamedIsSound(FirstWord(text));
  }

  lemma WordsAreShort(line: string, c: Command)
    requires Trim(line) == c.Word()
    ensures 0 < |Trim(line)| <= 4096
  {
    hide Command.Word;
    Routing.WordsAreSolid(c);
  }

  /** When nothing is asked for, and when the line is refused unread. */
  lemma NothingIff(line: string)
    ensures Route(line) == Nothing <==> Trim(line) == ""
    ensures Route(line) == Print(TooLong) <==> |Trim(line)| > 4096
  {
    hide Command.Word, Named;
  }

  /** The dispatcher's own answers: each belongs to one word, alone on its line. */
  lemma AnswerIff(line: string)
    ensures Route(line) == Print(HelpText) <==> Trim(line) == "help"
    ensures Route(line) == Print(VersionText) <==> Trim(line) == "version"
    ensures Route(line) == Close <==> Trim(line) == "exit" || Trim(line) == "quit"
  {
    assert Help.Word() == "help" && Version.Word() == "version" && Exit.Word() == "exit" && Quit.Word() == "quit";
    hide Command.Word, Named;
    BareIff(line, Help);
    BareIff(line, Version);
    BareIff(line, Exit);
    BareIff(line, Quit);
    AnswerNames(line);
  }

  lemma AnswerNames(line: string)
    ensures Route(line) == Print(HelpText) ==> Trim(line) == Help.Word()
    ensures Route(line) == Print(VersionText) ==> Trim(line) == Version.Word()
    ensures Route(line) == Close ==> Trim(line) == Exit.Word() || Trim(line) == Quit.Word()
  {
    hide Command.Word, Named;
    var text := Trim(line);
    if 0 < |text| <= 4096 && Named(FirstWord(text)).Some? {
      FirstWordNames(line, Named(FirstWord(text)).value);
    }
  }

  lemma BareIff(line: string, c: Command)
    requires c in WITHOUT_SERVICE
    ensures Trim(line) == c.Word() ==>
              Route(line) == match c
                             case Help => Print(HelpText)
                             case Version => Print(VersionText)
                             case _ => Close
  {
    hide Command.Word, Named;
    if Trim(line) == c.Word() {
      WordsAreShort(line, c);
      FirstWordNames(line, c);
    }
  }

  /** What follows the first word, if anything does. */
  function Rest(line: string): Option<string> {
    var i := IndexOf(Trim(line), ' ');
    if i == |Trim(line)| then None else Some(TrimLeft(line)[i + 1..])
  }

  lemma RestOf(line: string, c: Command)
    requires 0 < |Trim(line)| <= 4096 && FirstWord(Trim(line)) == c.Word()
    ensures Rest(line).None? <==> Trim(line) == c.Word()
    ensures |c.Word()| <= |Trim(line)| && (Rest(line).None? <==> |c.Word()| == |Trim(line)|)
    ensures Rest(line).Some? ==> Rest(line).value == TrimLeft(line)[|c.Word()| + 1..]
  {
    hide Command.Word, Named;
    FirstWordNames(line, c);
  }

  lemma RouteIsLookup(line: string)
    requires 0 < |Trim(line)| <= 4096
    ensures Route(line) == Lookup(Named(FirstWord(Trim(line))), Rest(line))
  {
    hide Named, Lookup;
  }

  lemma LookupCalls(d: Command, rest: Option<string>, c: Command, arguments: string)
    ensures Lookup(Some(d), rest) == Call(c, arguments) <==>
            d == c && if rest.None? then c !in WITH_ARGUMENTS && c !in WITHOUT_SERVICE && arguments == ""
                      else c in WITH_ARGUMENTS && rest.value == arguments
  {
  }

  lemma LookupUsage(d: Command, rest: Option<string>, c: Command)
    ensures Lookup(Some(d), rest) == Print(Usage(c)) <==> d == c && rest.None? && c in WITH_ARGUMENTS
  {
  }

  /** The usage of a command is printed for its own word alone, and only if it takes arguments. */
  lemma UsageIff(line: string, c: Command)
    ensures Route(line) == Print(Usage(c)) <==> c in WITH_ARGUMENTS && Trim(line) == c.Word()
  {
    hide Command.Word, Named, Lookup, FirstWord, Rest, Trim;
    var text := Trim(line);
    if text == c.Word() {
      WordsAreShort(line, c);
    }
    NothingIff(line);
    if 0 < |text| <= 4096 {
      hide Route;
      RouteIsLookup(line);
      FirstWordNames(line, c);
      var named := Named(FirstWord(text));
      if named.Some? {
        FirstWordNames(line, named.value);
        RestOf(line, named.value);
        LookupUsage(named.value, Rest(line), c);
      } else {
        LookupUnknown(Rest(line));
      }
    }
  }

  lemma LookupUnknown(rest: Option<string>)
    ensures Lookup(None, rest) == Print(NoSuchCommand)
  {
  }

  /**
    Which service is called, and with what: the one named by the line's first word. A
    command without arguments wants its word alone; one with arguments gets every byte
    after the first space.
  */
  lemma CallIff(line: string, c: Command, arguments: string)
    ensures Route(line) == Call(c, arguments) <==>
            || (c !in WITH_ARGUMENTS && c !in WITHOUT_SERVICE && Trim(line) == c.Word() && arguments == "")
            || (c in WITH_ARGUMENTS && |Trim(line)| <= 4096 && FirstWord(Trim(line)) == c.Word()
                && |c.Word()| < |Trim(line)| <= |TrimLeft(line)| && arguments == TrimLeft(line)[|c.Word()| + 1..])
  {
    hide Command.Word, Named, Lookup, FirstWord, Rest;
    var text := Trim(line);
    if text == c.Word() {
      WordsAreShort(line, c);
    }
    NothingIff(line);
    if 0 < |text| <= 4096 {
      hide Route, Trim;
      RouteIsLookup(line);
      FirstWordNames(line, c);
      var named := Named(FirstWord(text));
      if named.Some? {
        FirstWordNames(line, named.value);
        RestOf(line, named.value);
        LookupCalls(named.value, Rest(line), c, arguments);
      } else {
        LookupUnknown(Rest(line));
      }
    }
  }

  predicate AllBlank(text: string) {
    forall c <- text :: c == ' ' || c == '\t'
  }

  /** Blanks around a word do not matter, so each of the above holds of the word with any blanks around it. */
  lemma BlanksAround(before: string, c: Command, after: string)
    requires AllBlank(before) && AllBlank(after)
    ensures Trim(before + c.Word() + after) == c.Word()
  {
    hide Command.Word;
    var word := c.Word();
    Routing.WordsAreSolid(c);
    var line := before + word + after;
    assert forall j :: 0 <= j < |before| ==> line[j] == before[j] && before[j] in before;
    assert line[|before|] == word[0];
    TrimLeftIs(line, |before|);
    var rest := word + after;
    assert line[|before|..] == rest;
    assert forall j :: |word| <= j < |rest| ==> rest[j] == after[j - |word|] && after[j - |word|] in after;
    assert rest[|word| - 1] == word[|word| - 1];
    TrimRightIs(rest, |word|);
    assert rest[..|word|] == word;
  }

  /** A service's answer: its lines are printed, its state is kept, and its refusal, where that counts, is reported. */
  lemma ServiceDecides<D>(services: Services<D>, device: D, line: string, c: Command, arguments: string)
    requires Route(line) == Call(c, arguments)
    ensures var reply, result := services.serve(device, c, arguments), Dispatch(services, device, line);
            && result.device == reply.device && result.lines == reply.lines
            && result.status == if c in REFUSABLE && !reply.ok then Invalid else Ok
  {
    hide Route;
  }

  /** Every other line leaves the device alone, except that a close may say its last words. */
  lemma OnlyServicesTouchTheDevice<D>(services: Services<D>, device: D, line: string)
    requires !Route(line).Call?
    ensures var result := Dispatch(services, device, line);
            if Trim(line) == "exit" || Trim(line) == "quit" then
              var reply := services.close(device);
              result.status == SessionClosed && result.device == reply.device && result.lines == reply.lines
            else
              && result.device == device && result.status != SessionClosed
              && (result.status == Empty <==> Trim(line) == "")
              && (result.status == Ok <==> Trim(line) == "help" || Trim(line) == "version")
              && (result.status == Unknown <==> Route(line) == Print(NoSuchCommand))
              && result.lines == if Trim(line) == "" then [] else services.text(Route(line).message)
  {
    hide Route;
    NothingIff(line);
    AnswerIff(line);
  }

  /** The device after some lines, one after another. */
  ghost function DeviceAfter<D>(services: Services<D>, device: D, lines: seq<string>): D
    decreases |lines|
  {
    if lines == [] then device
    else DeviceAfter(services, Dispatch(services, device, lines[0]).device, lines[1..])
  }

  lemma {:induction false} DeviceAfterOneMore<D>(services: Services<D>, device: D, lines: seq<string>, line: string)
    ensures DeviceAfter(services, device, lines + [line])
         == Dispatch(services, DeviceAfter(services, device, lines), line).device
    decreases |lines|
  {
    hide Dispatch;
    if lines == [] {
      assert [] + [line] == [line] && [line][1..] == [];
    } else {
      assert (lines + [line])[1..] == lines[1..] + [line];
      DeviceAfterOneMore(services, Dispatch(services, device, lines[0]).device, lines[1..], line);
    }
  }
}
