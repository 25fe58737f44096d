/**
  Typing and reading are inverse: what a user types, corrections included, is
  what the dispatcher receives.
*/
module Typing {
  import opened CStrings
  import opened CommandCore
  import opened ShellSession
  import Routing

  datatype Ending = Cr | Lf | CrLf {
    function Bytes(): string {
      match this
      case Cr => "\r"
      case Lf => "\n"
      case CrLf => "\r\n"
    }
  }

  /** The keystrokes of one line, erasures included, and the way it is ended. */
  datatype Typed = Typed(keys: string, ending: Ending) {
    function Text(): string {
      Terminated(Edited(keys))
    }

    ghost predicate Valid() {
      && (forall c <- keys :: !IsLineEnd(c))
      && forall n :: 0 <= n <= |keys| ==> |Edited(keys[..n])| <= MAX_COMMAND_LENGTH
    }
  }

  /** The line that some keystrokes edit an empty line into. */
  function Edited(keys: string): string
    decreases |keys|
  {
    if keys == "" then ""
    else
      var before := Edited(keys[..|keys| - 1]);
      var key := keys[|keys| - 1];
      if !IsErase(key) then before + [key]
      else if before == "" then ""
      else before[..|before| - 1]
  }

  predicate OnlyErases(keys: string) {
    forall c <- keys :: IsErase(c)
  }

  function Stream(typed: seq<Typed>): string {
    if typed == [] then "" else typed[0].keys + typed[0].ending.Bytes() + Stream(typed[1..])
  }

  function Texts(typed: seq<Typed>): seq<string> {
    if typed == [] then [] else [typed[0].Text()] + Texts(typed[1..])
  }

  /** A lone LF right after a CR, with at most erasures between, counts as the rest of a CRLF. */
  predicate Lost(afterCr: bool, t: Typed) {
    afterCr && t.ending.Lf? && OnlyErases(t.keys)
  }

  predicate LostAt(afterCr: bool, typed: seq<Typed>, i: nat)
    requires i < |typed|
  {
    Lost(if i == 0 then afterCr else typed[i - 1].ending.Cr?, typed[i])
  }

  predicate NoneLost(afterCr: bool, typed: seq<Typed>) {
    forall i :: 0 <= i < |typed| ==> !LostAt(afterCr, typed, i)
  }

  /** The lines that are submitted, given whether a CR came just before. */
  function Submitted(afterCr: bool, typed: seq<Typed>): seq<string>
    decreases |typed|
  {
    if typed == [] then []
    else if Lost(afterCr, typed[0]) then Submitted(false, typed[1..])
    else [typed[0].Text()] + Submitted(typed[0].ending.Cr?, typed[1..])
  }

  /** The lines up to and including the first that closes the session. */
  ghost function UntilClose(lines: seq<string>): seq<string> {
    if lines == [] || Route(lines[0]).Close? then lines[..if lines == [] then 0 else 1]
    else [lines[0]] + UntilClose(lines[1..])
  }

  lemma UntilCloseGoesOn(line: string, lines: seq<string>)
    requires !Route(line).Close?
    ensures UntilClose([line] + lines) == [line] + UntilClose(lines)
  {
    hide Route;
    assert ([line] + lines)[1..] == lines;
  }

  lemma UntilCloseNothing()
    ensures UntilClose([]) == []
  {
  }

  lemma UntilCloseStops(line: string, lines: seq<string>)
    requires Route(line).Close?
    ensures UntilClose([line] + lines) == [line]
  {
    hide Route;
  }

  lemma {:induction false} ErasesEditNothing(keys: string)
    requires OnlyErases(keys)
    ensures Edited(keys) == ""
    decreases |keys|
  {
    if keys != "" {
      ErasesEditNothing(keys[..|keys| - 1]);
      assert keys[|keys| - 1] in keys;
    }
  }

  /** Keystrokes leave their edited text in the line, and any that is stored forgets an earlier CR. */
  lemma {:induction false} FeedKeys<D>(services: Services<D>, s: Session<D>, keys: string)
    requires !s.closed && s.line == "" && Typed(keys, Cr).Valid()
    ensures var t := Feed(services, s, keys);
            && !t.closed && t.line == Edited(keys) && t.device == s.device && t.dispatched == s.dispatched
            && (t.afterCr <==> s.afterCr && OnlyErases(keys))
    decreases |keys|
  {
    if keys != "" {
      var before, key := keys[..|keys| - 1], keys[|keys| - 1];
      assert keys == before + [key];
      forall n | 0 <= n <= |before|
        ensures before[..n] == keys[..n]
      {
      }
      FeedKeys(services, s, before);
      FeedLast(services, s, before, key);
      assert keys[..|keys|] == keys;
      assert key in keys && OnlyErases(keys) == (OnlyErases(before) && IsErase(key));
      PressKey(services, Feed(services, s, before), key, Edited(keys));
    }
  }

  lemma PressKey<D>(services: Services<D>, s: Session<D>, key: char, text: string)
    requires !s.closed && !IsLineEnd(key) && |text| <= MAX_COMMAND_LENGTH
    requires text == if !IsErase(key) then s.line + [key]
                     else if s.line == "" then "" else s.line[..|s.line| - 1]
    ensures var t := Press(services, s, key);
            && !t.closed && t.line == text && t.device == s.device && t.dispatched == s.dispatched
            && (t.afterCr <==> s.afterCr && IsErase(key))
  {
  }

  /** A line is dispatched once, whatever ends it. */
  lemma FeedEnding<D>(services: Services<D>, s: Session<D>, ending: Ending)
    requires !s.closed && (s.afterCr && ending.Lf? ==> s.line == "")
    ensures var t := Feed(services, s, ending.Bytes());
            var text := Terminated(s.line);
            if s.afterCr && ending.Lf? then
              t == s.(afterCr := false)
            else
              && t.dispatched == s.dispatched + [text] && t.closed == Route(text).Close?
              && (!t.closed ==> t.line == "" && t.afterCr == ending.Cr?)
  {
    hide Dispatch, Route, Lines, Terminated;
    ClosesByRoute(services, s.device, Terminated(s.line));
    var bytes := ending.Bytes();
    var first := Press(services, s, bytes[0]);
    if ending.CrLf? {
      assert bytes[1..] == "\n" && "\n"[1..] == "";
      assert Feed(services, first, "\n") == Press(services, first, '\n');
    } else {
      assert bytes[1..] == "";
    }
  }

  lemma ClosesByRoute<D>(services: Services<D>, device: D, text: string)
    ensures Dispatch(services, device, text).status.SessionClosed? <==> Route(text).Close?
  {
  }

  /** One typed line: dispatched with its edited text, or lost as the rest of a CRLF. */
  lemma FeedLine<D>(services: Services<D>, s: Session<D>, t: Typed)
    requires !s.closed && s.line == "" && t.Valid()
    ensures var u := Feed(services, s, t.keys + t.ending.Bytes());
            if Lost(s.afterCr, t) then
              !u.closed && u.line == "" && !u.afterCr && u.dispatched == s.dispatched
            else
              && u.dispatched == s.dispatched + [t.Text()] && u.closed == Route(t.Text()).Close?
              && (!u.closed ==> u.line == "" && u.afterCr == t.ending.Cr?)
  {
    hide Route, Press;
    var typed := Feed(services, s, t.keys);
    FeedConcat(services, s, t.keys, t.ending.Bytes());
    FeedKeys(services, s, t.keys) by {
      assert Typed(t.keys, Cr).Valid();
    }
    if OnlyErases(t.keys) {
      ErasesEditNothing(t.keys);
    }
    FeedEnding(services, typed, t.ending);
  }

  /** The dispatched lines of any typed input are its submitted lines, up to the first `exit` or `quit`. */
  lemma {:induction false} TypedLinesAreDispatched<D>(services: Services<D>, s: Session<D>, typed: seq<Typed>)
    requires !s.closed && s.line == "" && forall t <- typed :: t.Valid()
    ensures Feed(services, s, Stream(typed)).dispatched == s.dispatched + UntilClose(Submitted(s.afterCr, typed))
    decreases |typed|
  {
    hide Route, Press, Lost, Edited, UntilClose;
    if typed == [] {
      assert s.dispatched + [] == s.dispatched;
      UntilCloseNothing();
    } else {
      var t, rest := typed[0], typed[1..];
      var bytes := t.keys + t.ending.Bytes();
      var u := Feed(services, s, bytes);
      FeedLine(services, s, t);
      FeedConcat(services, s, bytes, Stream(rest));
      if u.closed {
        FeedClosed(services, u, Stream(rest));
        UntilCloseStops(t.Text(), Submitted(t.ending.Cr?, rest));
      } else {
        TypedLinesAreDispatched(services, u, rest);
        if !Lost(s.afterCr, t) {
          UntilCloseGoesOn(t.Text(), Submitted(t.ending.Cr?, rest));
          assert s.dispatched + [t.Text()] + UntilClose(Submitted(t.ending.Cr?, rest))
              == s.dispatched + ([t.Text()] + UntilClose(Submitted(t.ending.Cr?, rest)));
        }
      }
    }
  }

  /** Exactly when no line is lost in this way, every typed line is submitted. */
  lemma {:induction false} AllSubmittedIffNoneLost(afterCr: bool, typed: seq<Typed>)
    ensures |Submitted(afterCr, typed)| <= |typed|
    ensures Submitted(afterCr, typed) == Texts(typed) <==> NoneLost(afterCr, typed)
    decreases |typed|
  {
    hide Lost, NoneLost;
    if typed == [] {
      NothingTyped(afterCr);
    } else {
      var t, rest := typed[0], typed[1..];
      TextsLength(typed);
      ShiftLost(afterCr, typed);
      if Lost(afterCr, t) {
        AllSubmittedIffNoneLost(false, rest);
      } else {
        AllSubmittedIffNoneLost(t.ending.Cr?, rest);
        SameHead(t.Text(), Submitted(t.ending.Cr?, rest), Texts(rest));
      }
    }
  }

  lemma NothingTyped(afterCr: bool)
    ensures NoneLost(afterCr, [])
  {
  }

  lemma SameHead(head: string, a: seq<string>, b: seq<string>)
    ensures [head] + a == [head] + b <==> a == b
  {
    assert ([head] + a)[1..] == a && ([head] + b)[1..] == b;
  }

  lemma TextsLength(typed: seq<Typed>)
    ensures |Texts(typed)| == |typed|
  {
  }

  lemma ShiftLost(afterCr: bool, typed: seq<Typed>)
    requires typed != []
    ensures NoneLost(afterCr, typed) <==>
            !Lost(afterCr, typed[0]) && NoneLost(typed[0].ending.Cr?, typed[1..])
  {
    var rest, cr := typed[1..], typed[0].ending.Cr?;
    assert LostAt(afterCr, typed, 0) == Lost(afterCr, typed[0]);
    forall i | 0 < i < |typed|
      ensures LostAt(afterCr, typed, i) == LostAt(cr, rest, i - 1)
    {
    }
    if NoneLost(afterCr, typed) {
      forall i | 0 <= i < |rest|
        ensures !LostAt(cr, rest, i)
      {
        assert !LostAt(afterCr, typed, i + 1);
      }
    }
  }

  /** A fresh session dispatches any list of typed lines as exactly that list, unless a lone LF follows a CR. */
  lemma TypingRoundTrip<D>(services: Services<D>, device: D, typed: seq<Typed>)
    requires forall t <- typed :: t.Valid()
    requires NoneLost(false, typed)
    ensures Feed(services, Opened(device, [], ""), Stream(typed)).dispatched == UntilClose(Texts(typed))
  {
    hide Route, Feed, Lines;
    TypedLinesAreDispatched(services, Opened(device, [], ""), typed);
    AllSubmittedIffNoneLost(false, typed);
    assert [] + UntilClose(Texts(typed)) == UntilClose(Texts(typed));
  }

  /** No line is lost up to and including the first that closes the session. */
  ghost predicate NoneLostUntilClose(afterCr: bool, typed: seq<Typed>)
    decreases |typed|
  {
    typed != [] ==>
      && !Lost(afterCr, typed[0])
      && (Route(typed[0].Text()).Close? || NoneLostUntilClose(typed[0].ending.Cr?, typed[1..]))
  }

  lemma LostIsEmpty(afterCr: bool, t: Typed)
    requires Lost(afterCr, t)
    ensures t.Text() == "" && !Route("").Close?
  {
    hide Route;
    ErasesEditNothing(t.keys);
    assert Trim("") == "";
    Routing.ClosingLines("");
    Routing.WordsAreSolid(Exit);
    Routing.WordsAreSolid(Quit);
  }

  /** No more lines are dispatched than typed, and as typed exactly when none is lost before the close. */
  lemma {:induction false} SameUntilClose(afterCr: bool, typed: seq<Typed>)
    ensures |UntilClose(Submitted(afterCr, typed))| <= |UntilClose(Texts(typed))|
    ensures UntilClose(Submitted(afterCr, typed)) == UntilClose(Texts(typed)) <==> NoneLostUntilClose(afterCr, typed)
    decreases |typed|
  {
    hide Route, Lost, UntilClose, Typed.Text;
    if typed != [] {
      var t, rest := typed[0], typed[1..];
      var text, cr := t.Text(), t.ending.Cr?;
      if Lost(afterCr, t) {
        LostIsEmpty(afterCr, t);
        SameUntilClose(false, rest);
        UntilCloseGoesOn(text, Texts(rest));
      } else if Route(text).Close? {
        UntilCloseStops(text, Texts(rest));
        UntilCloseStops(text, Submitted(cr, rest));
      } else {
        SameUntilClose(cr, rest);
        UntilCloseGoesOn(text, Texts(rest));
        UntilCloseGoesOn(text, Submitted(cr, rest));
        SameHead(text, UntilClose(Submitted(cr, rest)), UntilClose(Texts(rest)));
      }
    }
  }

  /** The exact condition of the round trip: lines are dispatched as typed iff none is lost before the close. */
  lemma RoundTripIffNoneLost<D>(services: Services<D>, device: D, typed: seq<Typed>)
    requires forall t <- typed :: t.Valid()
    ensures Feed(services, Opened(device, [], ""), Stream(typed)).dispatched == UntilClose(Texts(typed))
            <==> NoneLostUntilClose(false, typed)
  {
    hide Route, Feed, Lines, UntilClose;
    TypedLinesAreDispatched(services, Opened(device, [], ""), typed);
    SameUntilClose(false, typed);
    assert [] + UntilClose(Submitted(false, typed)) == UntilClose(Submitted(false, typed));
  }

  const LONE_LF := [Typed("a", Cr), Typed("", Lf)]

  lemma FirstOfThem()
    ensures Typed("a", Cr).Text() == "a" && Typed("a", Cr).Valid() && !Lost(false, Typed("a", Cr))
  {
    assert "a"[..0] == "" && "a"[..1] == "a";
    assert Edited("a") == Edited("") + ['a'] == "a";
  }

  lemma SecondOfThem()
    ensures Typed("", Lf).Text() == "" && Typed("", Lf).Valid() && Lost(true, Typed("", Lf))
  {
    assert ""[..0] == "";
  }

  lemma LoneLfLines()
    ensures Texts(LONE_LF) == ["a", ""] && Submitted(false, LONE_LF) == ["a"]
    ensures forall t <- LONE_LF :: t.Valid()
  {
    hide Typed.Text, Typed.Valid, Lost;
    var first, second := Typed("a", Cr), Typed("", Lf);
    FirstOfThem();
    SecondOfThem();
    assert LONE_LF[1..] == [second] && [second][1..] == [];
    assert Texts([second]) == [""] && Submitted(true, [second]) == Submitted(false, []) == [];
  }

  lemma LoneLfBytes()
    ensures Stream(LONE_LF) == "a\r\n"
  {
    var second := Typed("", Lf);
    assert LONE_LF[1..] == [second] && [second][1..] == [];
    assert Stream([second]) == "" + "\n" + Stream([]) == "\n";
    assert Stream(LONE_LF) == "a" + "\r" + Stream([second]) == "a\r\n";
  }

  /** A lost line: after `a` and CR, the empty one that a lone LF should end. */
  lemma LoneLfIsLost<D>(services: Services<D>, device: D)
    ensures Stream(LONE_LF) == "a\r\n" && Texts(LONE_LF) == ["a", ""]
    ensures Feed(services, Opened(device, [], ""), "a\r\n").dispatched == ["a"]
  {
    hide Feed, Route, Lines, UntilClose, Stream, Texts, Submitted;
    LoneLfLines();
    LoneLfBytes();
    TypedLinesAreDispatched(services, Opened(device, [], ""), LONE_LF);
    PlainLineStays("a");
  }

  lemma PlainLineStays(line: string)
    ensures UntilClose([line]) == [line] && [] + [line] == [line]
  {
    hide Route;
    assert [line][1..] == [];
  }
}
