/**
  The dispatcher's ordered tests, and why their order is immaterial: a line is
  routed by the text before its first space alone.
*/
module Routing {
  import opened CStrings
  import opened CommandCore

  /** One test: the bare word, or the word followed by a space and something more. */
  datatype Test = Bare(command: Command) | Prefixed(command: Command) {
    predicate Matches(text: string) {
      if Bare? then text == command.Word() else StartsWith(text, command.Word() + " ")
    }
  }

  predicate StartsWith(text: string, prefix: string) {
    |text| > |prefix| && text[..|prefix|] == prefix
  }

  const CHAIN_LENGTH := 45

  /** The tests in the order in which the dispatcher tries them. */
  function TestAt(position: nat): Test {
    match position
    case 0 => Bare(Help)              case 1 => Bare(Version)
    case 2 => Bare(DeviceInfo)        case 3 => Bare(Uptime)
    case 4 => Bare(Heap)              case 5 => Bare(Reboot)
    case 6 => Bare(WifiStatus)        case 7 => Bare(Exit)
    case 8 => Bare(Quit)              case 9 => Bare(WifiConfig)
    case 10 => Prefixed(WifiConfig)   case 11 => Bare(WifiProfiles)
    case 12 => Bare(WifiProfileClear) case 13 => Prefixed(WifiProfileClear)
    case 14 => Bare(ConfigList)       case 15 => Bare(ConfigGet)
    case 16 => Prefixed(ConfigGet)    case 17 => Bare(ConfigSet)
    case 18 => Prefixed(ConfigSet)    case 19 => Bare(ConfigClear)
    case 20 => Prefixed(ConfigClear)  case 21 => Bare(FsList)
    case 22 => Prefixed(FsList)       case 23 => Bare(FsRead)
    case 24 => Prefixed(FsRead)       case 25 => Bare(FsWrite)
    case 26 => Prefixed(FsWrite)      case 27 => Bare(FsRemove)
    case 28 => Prefixed(FsRemove)     case 29 => Bare(Psram)
    case 30 => Bare(ResetReason)      case 31 => Bare(Tasks)
    case 32 => Bare(GpioModes)        case 33 => Bare(GpioRead)
    case 34 => Prefixed(GpioRead)     case 35 => Bare(GpioWrite)
    case 36 => Prefixed(GpioWrite)    case 37 => Bare(Logs)
    case 38 => Bare(OtaStatus)        case 39 => Bare(AppList)
    case 40 => Bare(AppRun)           case 41 => Prefixed(AppRun)
    case 42 => Bare(AppStop)          case 43 => Prefixed(AppStop)
    case _ => Bare(AppStatus)
  }

  const CHAIN: seq<Test> := seq(CHAIN_LENGTH, i requires 0 <= i => TestAt(i))

  function FirstMatch(tests: seq<Test>, text: string): (r: Option<Test>)
    ensures r.Some? ==> r.value in tests && r.value.Matches(text)
    ensures r.None? ==> forall t <- tests :: !t.Matches(text)
  {
    if tests == [] then None
    else if tests[0].Matches(text) then Some(tests[0])
    else FirstMatch(tests[1..], text)
  }

  /** The request of a line that `test` has matched; `command` is the line without its leading blanks. */
  function Action(test: Test, command: string): Request
    requires test.Prefixed? ==> |command| > |test.command.Word()|
  {
    match test
    case Prefixed(c) => Call(c, command[|c.Word()| + 1..])
    case Bare(c) => BareRequest(c)
  }

  /** Routing by the first of some tests that matches. */
  function RouteBy(tests: seq<Test>, line: string): Request {
    var command := TrimLeft(line);
    var text := TrimRight(command);
    if text == [] then Nothing
    else if |text| > MAX_COMMAND_LENGTH then Print(TooLong)
    else
      match FirstMatch(tests, text)
      case None => Print(NoSuchCommand)
      case Some(test) => Action(test, command)
  }

  /** A guess at the command behind a word from its length and a few characters. */
  ghost function Guess(word: string): Command {
    match |word|
    case 4 => if word[2] == 'l' then Help else if word[2] == 'a' then Heap
              else if word[0] == 'e' then Exit else if word[0] == 'q' then Quit else Logs
    case 5 => if word[0] == 'p' then Psram else Tasks
    case 6 => if word[0] == 'u' then Uptime else Reboot
    case 7 => if word[0] == 'v' then Version else if word[0] == 'a' then AppRun
              else if word[3] == 'l' then FsList else FsRead
    case 8 => if word[0] == 'f' then FsWrite else if word[4] == 'l' then AppList else AppStop
    case 9 => if word[0] == 'f' then FsRemove else GpioRead
    case 10 => if word[0] == 'c' then (if word[7] == 'g' then ConfigGet else ConfigSet)
               else if word[0] == 'g' then (if word[5] == 'm' then GpioModes else GpioWrite)
               else if word[0] == 'o' then OtaStatus else AppStatus
    case 11 => if word[0] == 'd' then DeviceInfo else if word[0] == 'c' then ConfigList
               else if word[5] == 's' then WifiStatus else WifiConfig
    case 12 => if word[0] == 'c' then ConfigClear else ResetReason
    case 13 => WifiProfiles
    case _ => WifiProfileClear
  }

  lemma GuessesServices(c: Command)
    requires c.TakesArguments()
    ensures Guess(c.Word()) == c
  {
  }

  lemma GuessesOthers(c: Command)
    requires !c.TakesArguments()
    ensures Guess(c.Word()) == c
  {
  }

  lemma GuessIsRight(c: Command)
    ensures Guess(c.Word()) == c
  {
    hide Command.Word, Guess;
    if c.TakesArguments() {
      GuessesServices(c);
    } else {
      GuessesOthers(c);
    }
  }

  lemma WordsAreDistinct(a: Command, b: Command)
    requires a.Word() == b.Word()
    ensures a == b
  {
    hide Command.Word;
    GuessIsRight(a);
    GuessIsRight(b);
  }

  lemma NamedWord(c: Command)
    ensures Named(c.Word()) == Some(c)
  {
    hide Command.Word;
    NamedIsSound(c.Word());
    WordsAreDistinct(Named(c.Word()).value, c);
  }

  lemma ServiceWordsHaveNoBlanks(c: Command)
    requires c.TakesArguments()
    ensures 4 <= |c.Word()| <= 18 && ' ' !in c.Word() && '\t' !in c.Word()
  {
  }

  lemma OtherWordsHaveNoBlanks(c: Command)
    requires !c.TakesArguments()
    ensures 4 <= |c.Word()| <= 18 && ' ' !in c.Word() && '\t' !in c.Word()
  {
  }

  lemma WordsAreSolid(c: Command)
    ensures 4 <= |c.Word()| <= 18 && Solid(c.Word())
  {
    hide Command.Word;
    if c.TakesArguments() {
      ServiceWordsHaveNoBlanks(c);
    } else {
      OtherWordsHaveNoBlanks(c);
    }
    assert forall i :: 0 <= i < |c.Word()| ==> c.Word()[i] in c.Word();
  }

  lemma NamedIsSound(word: string)
    ensures Named(word).Some? ==> Named(word).value.Word() == word
    ensures Named(word).None? ==> forall c: Command :: c.Word() != word
  {
  }

  lemma FirstWordDecides(word: string, text: string)
    requires text != "" && !IsBlank(text[|text| - 1]) && Solid(word)
    ensures var i := IndexOf(text, ' ');
            && (text == word <==> word == text[..i] && i == |text|)
            && (StartsWith(text, word + " ") <==> word == text[..i] && i < |text|)
  {
    var i := IndexOf(text, ' ');
    if text == word {
      IndexOfIs(text, ' ', |text|);
    }
    if StartsWith(text, word + " ") {
      SpaceAfterWord(word, text);
    } else if i < |text| {
      assert text[..i + 1] == text[..i] + " ";
    }
  }

  lemma SpaceAfterWord(word: string, text: string)
    requires Solid(word)
    requires StartsWith(text, word + " ")
    ensures IndexOf(text, ' ') == |word| && text[..|word|] == word
  {
    var prefix := word + " ";
    forall j | 0 <= j <= |word|
      ensures text[j] == prefix[j]
    {
      assert text[..|prefix|][j] == prefix[j];
    }
    IndexOfIs(text, ' ', |word|);
  }

  /** A test matches exactly when its word is the text before the first space and it wants what follows. */
  lemma MatchesByFirstWord(t: Test, text: string)
    requires text != "" && !IsBlank(text[|text| - 1])
    ensures var i := IndexOf(text, ' ');
            t.Matches(text) <==> t.command.Word() == text[..i] && (t.Bare? <==> i == |text|)
  {
    hide Command.Word;
    WordsAreSolid(t.command);
    FirstWordDecides(t.command.Word(), text);
  }

  lemma AtMostOneTestMatches(s: Test, t: Test, text: string)
    requires text != "" && !IsBlank(text[|text| - 1])
    requires s.Matches(text) && t.Matches(text)
    ensures s == t
  {
    hide Command.Word;
    MatchesByFirstWord(s, text);
    MatchesByFirstWord(t, text);
    WordsAreDistinct(s.command, t.command);
  }

  /** Every word is tested bare, and with arguments exactly those whose service takes some. */
  ghost predicate Complete(tests: seq<Test>) {
    forall t :: t in tests <==> t.Bare? || t.command.TakesArguments()
  }

  ghost function BarePosition(c: Command): nat {
    match c
    case Help => 0          case Version => 1       case DeviceInfo => 2    case Uptime => 3
    case Heap => 4          case Reboot => 5        case WifiStatus => 6    case Exit => 7
    case Quit => 8          case WifiConfig => 9    case WifiProfiles => 11
    case WifiProfileClear => 12                     case ConfigList => 14   case ConfigGet => 15
    case ConfigSet => 17    case ConfigClear => 19  case FsList => 21       case FsRead => 23
    case FsWrite => 25      case FsRemove => 27     case Psram => 29        case ResetReason => 30
    case Tasks => 31        case GpioModes => 32    case GpioRead => 33     case GpioWrite => 35
    case Logs => 37         case OtaStatus => 38    case AppList => 39      case AppRun => 40
    case AppStop => 42      case AppStatus => 44
  }

  lemma ChainIsComplete()
    ensures Complete(CHAIN)
  {
    forall t: Test
      ensures t in CHAIN <==> t.Bare? || t.command.TakesArguments()
    {
      var p := BarePosition(t.command);
      assert CHAIN[p] == TestAt(p) == Bare(t.command);
      if t.command.TakesArguments() {
        assert CHAIN[p + 1] == TestAt(p + 1) == Prefixed(t.command);
      }
    }
  }

  /** Any complete list of tests, in any order, routes every line by the table. */
  lemma RouteIsTableLookup(tests: seq<Test>, line: string)
    requires Complete(tests)
    ensures RouteBy(tests, line) == Route(line)
  {
    hide Command.Word;
    var text := Trim(line);
    if text != "" && |text| <= MAX_COMMAND_LENGTH {
      var i := IndexOf(text, ' ');
      NamedIsSound(text[..i]);
      match (FirstMatch(tests, text), Named(text[..i]))
      case (Some(t), _) =>
        MatchesByFirstWord(t, text);
        NamedWord(t.command);
        if t.Prefixed? {
          assert t in tests;
        }
      case (None, Some(c)) =>
        MatchesByFirstWord(if i == |text| then Bare(c) else Prefixed(c), text);
      case (None, None) =>
    }
  }

  lemma ChainRoutes(line: string)
    ensures RouteBy(CHAIN, line) == Route(line)
  {
    ChainIsComplete();
    RouteIsTableLookup(CHAIN, line);
  }

  lemma OrderIsImmaterial(tests: seq<Test>, line: string)
    requires multiset(tests) == multiset(CHAIN)
    ensures RouteBy(tests, line) == RouteBy(CHAIN, line)
  {
    ChainIsComplete();
    forall t: Test
      ensures t in tests <==> t in CHAIN
    {
      assert t in tests <==> t in multiset(tests);
      assert t in CHAIN <==> t in multiset(CHAIN);
    }
    RouteIsTableLookup(tests, line);
    RouteIsTableLookup(CHAIN, line);
  }

  /** What is left of a line that starts with a solid word and has something after its first space. */
  lemma TrimKeepsWord(word: string, arguments: string, k: nat)
    requires word != "" && Solid(word)
    requires k < |arguments| && !IsBlank(arguments[k])
    ensures var line := word + " " + arguments;
            var text := TrimRight(line);
            TrimLeft(line) == line && IndexOf(text, ' ') == |word| < |text| && text[..|word|] == word
  {
    var line := word + " " + arguments;
    assert line[0] == word[0];
    var text := TrimRight(line);
    assert line[|word| + 1 + k] == arguments[k];
    TrimRightKeeps(line, |word| + 1 + k);
    assert text[..|word|] == line[..|word|] == word;
    assert StartsWith(text, word + " ");
    FirstWordDecides(word, text);
  }

  /** A word with arguments that are not all blank reaches its service with every byte of them. */
  lemma RouteOf(c: Command, arguments: string, k: nat)
    requires c.TakesArguments() && |Trim(c.Word() + " " + arguments)| <= MAX_COMMAND_LENGTH
    requires k < |arguments| && !IsBlank(arguments[k])
    ensures Route(c.Word() + " " + arguments) == Call(c, arguments)
  {
    hide Command.Word;
    WordsAreSolid(c);
    NamedWord(c);
    RouteOfWord(c, c.Word(), arguments, k);
  }

  lemma RouteOfWord(c: Command, word: string, arguments: string, k: nat)
    requires c.TakesArguments() && |Trim(word + " " + arguments)| <= MAX_COMMAND_LENGTH
    requires word != "" && Solid(word) && Named(word) == Some(c)
    requires k < |arguments| && !IsBlank(arguments[k])
    ensures Route(word + " " + arguments) == Call(c, arguments)
  {
    var line := word + " " + arguments;
    TrimKeepsWord(word, arguments, k);
    assert line[|word| + 1..] == arguments;
  }

  lemma TrimLeftSkipsBlanks(blanks: string, line: string)
    requires forall c <- blanks :: IsBlank(c)
    ensures TrimLeft(blanks + line) == TrimLeft(line)
  {
    if blanks == [] {
      assert blanks + line == line;
    } else {
      assert blanks[0] in blanks;
      assert (blanks + line)[1..] == blanks[1..] + line;
      TrimLeftSkipsBlanks(blanks[1..], line);
    }
  }

  lemma LeadingBlanksNeverMatter(blanks: string, line: string)
    requires forall c <- blanks :: IsBlank(c)
    ensures Route(blanks + line) == Route(line)
  {
    TrimLeftSkipsBlanks(blanks, line);
  }

  /** A session closes on `exit` and `quit` and on nothing else. */
  lemma ClosingLines(line: string)
    ensures Route(line).Close? <==> Trim(line) == Exit.Word() || Trim(line) == Quit.Word()
  {
    hide Command.Word;
    var text := Trim(line);
    var i := IndexOf(text, ' ');
    NamedIsSound(text[..i]);
    if text == Exit.Word() {
      RouteOfBareWord(Exit, line);
    } else if text == Quit.Word() {
      RouteOfBareWord(Quit, line);
    }
    assert text[..|text|] == text;
  }

  lemma RouteOfBareWord(c: Command, line: string)
    requires Trim(line) == c.Word()
    ensures Route(line) == BareRequest(c)
  {
    hide Command.Word;
    var text := Trim(line);
    WordsAreSolid(c);
    FirstWordDecides(c.Word(), text);
    assert text[..|text|] == text;
    NamedWord(c);
  }

  /** The two loops that trim a line, by moving a pointer and by shortening a length. */
  method TrimLine(input: string) returns (command: string, length: nat)
    ensures command == TrimLeft(input)
    ensures length <= |command| && command[..length] == Trim(input)
  {
    var start := 0;
    while start < |input| && IsBlank(input[start])
      invariant start <= |input| && forall j :: 0 <= j < start ==> IsBlank(input[j])
    {
      start := start + 1;
    }
    TrimLeftIs(input, start);
    command := input[start..];
    length := |command|;
    while length > 0 && IsBlank(command[length - 1])
      invariant length <= |command|
      invariant forall j :: length <= j < |command| ==> IsBlank(command[j])
    {
      length := length - 1;
    }
    TrimRightIs(command, length);
  }

  /** The chain itself: the first test that matches decides. */
  method TryInOrder(text: string) returns (found: Option<Test>)
    ensures found == FirstMatch(CHAIN, text)
  {
    hide Command.Word, TestAt;
    var i := 0;
    assert CHAIN[0..] == CHAIN;
    while i < CHAIN_LENGTH && !TestAt(i).Matches(text)
      invariant i <= CHAIN_LENGTH
      invariant FirstMatch(CHAIN, text) == FirstMatch(CHAIN[i..], text)
    {
      assert CHAIN[i..][0] == TestAt(i);
      assert CHAIN[i..][1..] == CHAIN[i + 1..];
      i := i + 1;
    }
    if i < CHAIN_LENGTH {
      assert CHAIN[i..][0] == TestAt(i);
      return Some(TestAt(i));
    }
    return None;
  }

  /** The dispatcher. */
  method DispatchLine<D>(services: Services<D>, device: D, input: string) returns (result: Dispatched<D>)
    ensures result == Dispatch(services, device, input)
  {
    hide Command.Word, FirstMatch, CHAIN, TestAt;
    ChainRoutes(input);
    var command, length := TrimLine(input);
    if length == 0 {
      return Dispatched(Empty, device, []);
    }
    if length > MAX_COMMAND_LENGTH {
      return Dispatched(Invalid, device, services.text(TooLong));
    }
    var found := TryInOrder(command[..length]);
    if found.None? {
      return Dispatched(Unknown, device, services.text(NoSuchCommand));
    }
    match Action(found.value, command)
    case Print(m) =>
      return Dispatched(MessageStatus(m), device, services.text(m));
    case Close =>
      var reply := services.close(device);
      return Dispatched(SessionClosed, reply.device, reply.lines);
    case Call(c, arguments) =>
      var reply := services.serve(device, c, arguments);
      return Dispatched(if c.Checked() && !reply.ok then Invalid else Ok, reply.device, reply.lines);
    case Nothing =>
      assert false;
  }
}
