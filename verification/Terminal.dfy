/**
  A terminal fed with everything a session sends, and what it shows.
*/
module Terminal {
  import opened CStrings
  import opened CommandCore
  import opened ShellSession

  /** The row under the cursor and the cursor's column. Rows above are never revisited. */
  datatype Screen = Screen(row: string, column: nat)

  function Blanks(n: nat): (r: string)
    ensures |r| == n && forall i :: 0 <= i < n ==> r[i] == ' '
  {
    seq(n, _ => ' ')
  }

  /** One received byte: the cursor moves, or the cell under it is overwritten. */
  function Show(t: Screen, c: char): Screen {
    if c == BACKSPACE then t.(column := if t.column == 0 then 0 else t.column - 1)
    else if c == '\r' then t.(column := 0)
    else if c == '\n' then t.(row := Blanks(t.column))
    else if t.column < |t.row| then Screen(t.row[t.column := c], t.column + 1)
    else Screen(t.row + Blanks(t.column - |t.row|) + [c], t.column + 1)
  }

  function ShowAll(t: Screen, text: string): Screen
    decreases |text|
  {
    if text == "" then t else ShowAll(Show(t, text[0]), text[1..])
  }

  const POWER_ON := Screen("", 0)

  function Display(text: string): Screen {
    ShowAll(POWER_ON, text)
  }

  lemma {:induction false} ShowConcat(t: Screen, a: string, b: string)
    ensures ShowAll(t, a + b) == ShowAll(ShowAll(t, a), b)
    decreases |a|
  {
    hide Show;
    if a == "" {
      assert a + b == b;
    } else {
      assert (a + b)[1..] == a[1..] + b;
      ShowConcat(Show(t, a[0]), a[1..], b);
    }
  }

  predicate Printable(c: char) {
    c >= ' ' && c != DELETE
  }

  /** What the screen must show: `text` up to the cursor, blanks to its right. */
  ghost predicate Holds(t: Screen, text: string) {
    && t.column == |text| <= |t.row|
    && t.row[..t.column] == text
    && forall i :: t.column <= i < |t.row| ==> t.row[i] == ' '
  }

  lemma ShowPrintable(t: Screen, text: string, c: char)
    requires Holds(t, text) && Printable(c)
    ensures Holds(ShowAll(t, [c]), text + [c])
  {
    var u := Show(t, c);
    assert ShowAll(t, [c]) == ShowAll(u, "") == u;
    assert u.row[..u.column] == t.row[..t.column] + [c];
  }

  lemma {:induction false} ShowWord(t: Screen, text: string, word: string)
    requires Holds(t, text) && forall c <- word :: Printable(c)
    ensures Holds(ShowAll(t, word), text + word)
    decreases |word|
  {
    if word == "" {
      assert text + word == text;
    } else {
      assert word[0] in word;
      ShowPrintable(t, text, word[0]);
      assert ShowAll(t, [word[0]]) == Show(t, word[0]);
      ShowWord(Show(t, word[0]), text + [word[0]], word[1..]);
      assert text + [word[0]] + word[1..] == text + word;
    }
  }

  lemma ShowErase(t: Screen, text: string)
    requires Holds(t, text) && text != ""
    ensures Holds(ShowAll(t, ERASE), text[..|text| - 1])
  {
    var back := Show(t, BACKSPACE);
    var blanked := Show(back, ' ');
    var u := Show(blanked, BACKSPACE);
    assert ERASE[1..] == [' ', BACKSPACE] && [' ', BACKSPACE][1..] == [BACKSPACE];
    assert ShowAll(t, ERASE) == ShowAll(back, [' ', BACKSPACE]) == ShowAll(blanked, [BACKSPACE]) == u;
    assert u.row == t.row[t.column - 1 := ' '];
    assert u.row[..u.column] == t.row[..t.column][..|text| - 1];
  }

  /** Any text that ends a line leaves an empty row. */
  lemma ShowNewLine(t: Screen, text: string)
    ensures Holds(ShowAll(t, text + "\r\n"), "")
  {
    var u := ShowAll(t, text);
    ShowConcat(t, text, "\r\n");
    assert "\r\n"[1..] == "\n" && "\n"[1..] == "";
    assert ShowAll(u, "\r\n") == Show(Show(u, '\r'), '\n') == Screen(Blanks(0), 0);
  }

  lemma {:induction false} ShowLines(t: Screen, lines: seq<string>)
    requires Holds(t, "")
    ensures Holds(ShowAll(t, Lines(lines)), "")
    decreases |lines|
  {
    if lines != [] {
      var first := Terminated(lines[0]);
      ShowNewLine(t, first);
      ShowConcat(t, first + "\r\n", Lines(lines[1..]));
      ShowLines(ShowAll(t, first + "\r\n"), lines[1..]);
    }
  }

  /** What the row of an open session should read: the prompt, or nothing after an overflow, and the pending line. */
  function Expected<D>(s: Session<D>): string {
    (if s.prompted then PROMPT else "") + s.line
  }

  ghost predicate Agrees<D>(s: Session<D>) {
    s.closed || Holds(Display(s.output), Expected(s))
  }

  predicate Typeable(c: char) {
    IsLineEnd(c) || IsErase(c) || Printable(c)
  }

  lemma PromptIsPrintable()
    ensures forall c <- PROMPT :: Printable(c)
  {
  }

  lemma ShowMore(output: string, more: string)
    ensures Display(output + more) == ShowAll(Display(output), more)
  {
    ShowConcat(POWER_ON, output, more);
  }

  lemma ShowPrompt(output: string)
    requires Holds(Display(output), "")
    ensures Holds(Display(output + PROMPT), PROMPT)
  {
    PromptIsPrintable();
    ShowMore(output, PROMPT);
    ShowWord(Display(output), "", PROMPT);
    assert "" + PROMPT == PROMPT;
  }

  lemma EnterAgrees<D>(services: Services<D>, s: Session<D>)
    ensures Agrees(Enter(services, s))
  {
    hide Dispatch, Display, Holds;
    var result := Dispatch(services, s.device, Terminated(s.line));
    var ended := s.output + "\r\n";
    var answer := ended + Lines(result.lines);
    assert Holds(Display(answer), "") by {
      ShowMore(s.output, "\r\n");
      assert "" + "\r\n" == "\r\n";
      ShowNewLine(Display(s.output), "");
      ShowMore(ended, Lines(result.lines));
      ShowLines(Display(ended), result.lines);
    }
    ShowPrompt(answer);
    assert PROMPT + "" == PROMPT;
  }

  lemma EraseAgrees<D>(s: Session<D>)
    requires Agrees(s) && !s.closed && s.line != ""
    ensures Agrees(s.(line := s.line[..|s.line| - 1], output := s.output + ERASE))
  {
    hide Display, Holds;
    var lead := if s.prompted then PROMPT else "";
    ShowMore(s.output, ERASE);
    ShowErase(Display(s.output), lead + s.line);
    assert (lead + s.line)[..|lead + s.line| - 1] == lead + s.line[..|s.line| - 1];
  }

  lemma EchoAgrees<D>(s: Session<D>, c: char)
    requires Agrees(s) && !s.closed && Printable(c)
    ensures Agrees(s.(afterCr := false, line := s.line + [c], output := s.output + Terminated([c])))
  {
    hide Display, Holds;
    var lead := if s.prompted then PROMPT else "";
    assert Terminated([c]) == [c];
    ShowMore(s.output, [c]);
    ShowPrintable(Display(s.output), lead + s.line, c);
    assert lead + s.line + [c] == lead + (s.line + [c]);
  }

  lemma OverflowAgrees<D>(s: Session<D>, text: string)
    ensures Agrees(s.(afterCr := false, line := "", prompted := false, output := s.output + text + "\r\n"))
  {
    hide Display, Holds;
    assert s.output + text + "\r\n" == s.output + (text + "\r\n");
    ShowMore(s.output, text + "\r\n");
    ShowNewLine(Display(s.output), text);
    assert "" + "" == "";
  }

  lemma PressAgrees<D>(services: Services<D>, s: Session<D>, c: char)
    requires Agrees(s) && Typeable(c)
    ensures Agrees(Press(services, s, c))
  {
    hide Enter, Display, Holds;
    if s.closed {
    } else if IsLineEnd(c) {
      EnterAgrees(services, s.(afterCr := c == '\r'));
    } else if IsErase(c) {
      if s.line != "" {
        EraseAgrees(s);
      }
    } else if |s.line| < MAX_COMMAND_LENGTH {
      EchoAgrees(s, c);
    } else {
      OverflowAgrees(s, Terminated(OVERFLOW));
    }
  }

  /** Whatever is typed and whatever the services print, the current row shows the pending line. */
  lemma {:induction false} ScreenAgreesFrom<D>(services: Services<D>, s: Session<D>, bytes: string)
    requires Agrees(s) && forall c <- bytes :: Typeable(c)
    ensures Agrees(Feed(services, s, bytes))
    decreases |bytes|
  {
    hide Agrees, Press;
    if bytes != "" {
      assert bytes[0] in bytes;
      PressAgrees(services, s, bytes[0]);
      ScreenAgreesFrom(services, Press(services, s, bytes[0]), bytes[1..]);
    }
  }

  lemma ScreenAgrees<D>(services: Services<D>, device: D, bytes: string)
    requires forall c <- bytes :: Typeable(c)
    ensures Agrees(Feed(services, Opened(device, [], ""), bytes))
  {
    hide Display, Holds, Lines;
    assert Holds(Display(Lines(BANNER)), "") by {
      assert "" + Lines(BANNER) == Lines(BANNER);
      assert Holds(Display(""), "") by { OpenScreen(); }
      ShowMore("", Lines(BANNER));
      ShowLines(Display(""), BANNER);
    }
    ShowPrompt(Lines(BANNER));
    var s := Opened(device, [], "");
    assert Expected(s) == PROMPT;
    assert "" + Lines(BANNER) + PROMPT == Lines(BANNER) + PROMPT;
    ScreenAgreesFrom(services, s, bytes);
  }

  lemma OpenScreen()
    ensures Holds(Display(""), "")
  {
  }

  /** A NUL that is stored breaks agreement at once: the line grows and the screen does not. */
  lemma StoredNulBreaksAgreement<D>(services: Services<D>, s: Session<D>)
    requires Agrees(s) && StoresNul(s, NUL)
    ensures !Agrees(Press(services, s, NUL))
  {
    hide Display, Holds;
    var t := s.(afterCr := false, line := s.line + [NUL], output := s.output + Terminated([NUL]));
    assert Press(services, s, NUL) == t && Terminated([NUL]) == "" && s.output + "" == s.output;
    ShorterTextIsDifferent(Display(s.output), Expected(s), Expected(t));
  }

  /** A NUL arrives at an open session whose line has room. */
  predicate StoresNul<D>(s: Session<D>, c: char) {
    c == NUL && !s.closed && |s.line| < MAX_COMMAND_LENGTH
  }

  ghost predicate NoNulStored<D>(services: Services<D>, s: Session<D>, bytes: string)
    decreases |bytes|
  {
    bytes != "" ==> !StoresNul(s, bytes[0]) && NoNulStored(services, Press(services, s, bytes[0]), bytes[1..])
  }

  /** The screen agrees after every prefix of the input. */
  ghost predicate AlwaysAgrees<D>(services: Services<D>, s: Session<D>, bytes: string)
    decreases |bytes|
  {
    Agrees(s) && (bytes != "" ==> AlwaysAgrees(services, Press(services, s, bytes[0]), bytes[1..]))
  }

  lemma PressNulAgrees<D>(services: Services<D>, s: Session<D>, c: char)
    requires Agrees(s) && c == NUL && !StoresNul(s, c)
    ensures Agrees(Press(services, s, c))
  {
    hide Display, Holds;
    if !s.closed {
      OverflowAgrees(s, Terminated(OVERFLOW));
    }
  }

  /** Of typeable bytes and NULs, exactly the inputs that store no NUL keep the screen in agreement throughout. */
  lemma {:induction false} AlwaysAgreesIff<D>(services: Services<D>, s: Session<D>, bytes: string)
    requires Agrees(s) && forall c <- bytes :: Typeable(c) || c == NUL
    ensures AlwaysAgrees(services, s, bytes) <==> NoNulStored(services, s, bytes)
    decreases |bytes|
  {
    hide Agrees, Press, StoresNul, Typeable;
    if bytes != "" {
      var c, rest := bytes[0], bytes[1..];
      assert c in bytes && forall x <- rest :: x in bytes;
      if StoresNul(s, c) {
        assert c == NUL by { StoredIsNul(s, c); }
        StoredNulBreaksAgreement(services, s);
        NeverAgainAlways(services, Press(services, s, c), rest);
      } else {
        if Typeable(c) {
          PressAgrees(services, s, c);
        } else {
          PressNulAgrees(services, s, c);
        }
        AlwaysAgreesIff(services, Press(services, s, c), rest);
      }
    }
  }

  lemma StoredIsNul<D>(s: Session<D>, c: char)
    requires StoresNul(s, c)
    ensures c == NUL
  {
  }

  lemma NeverAgainAlways<D>(services: Services<D>, s: Session<D>, bytes: string)
    requires !Agrees(s)
    ensures !AlwaysAgrees(services, s, bytes)
  {
  }

  /** The same from the start of a session. */
  lemma ScreenAgreesIff<D>(services: Services<D>, device: D, bytes: string)
    requires forall c <- bytes :: Typeable(c) || c == NUL
    ensures var s := Opened(device, [], "");
            AlwaysAgrees(services, s, bytes) <==> NoNulStored(services, s, bytes)
  {
    hide Agrees, Press, Lines;
    var s := Opened(device, [], "");
    ScreenAgrees(services, device, "");
    AlwaysAgreesIff(services, s, bytes);
  }

  /** What a stored NUL can do: erasing it takes back a byte of the prompt. */
  lemma NulBreaksAgreement<D>(services: Services<D>, device: D)
    ensures !Agrees(Feed(services, Opened(device, [], ""), [NUL, BACKSPACE]))
  {
    hide Display, Holds, Lines;
    var s := Opened(device, [], "");
    ScreenAgrees(services, device, "");
    NulEchoesNothing(services, s);
    var erased := s.(afterCr := false, output := s.output + ERASE);
    assert [NUL, BACKSPACE][1..] == [BACKSPACE] && [BACKSPACE][1..] == "";
    assert Feed(services, s, [NUL, BACKSPACE]) == erased by {
      hide Press;
      var stored := Press(services, s, NUL);
      assert Feed(services, stored, [BACKSPACE]) == Press(services, stored, BACKSPACE);
    }
    ShowMore(s.output, ERASE);
    ShowErase(Display(s.output), Expected(s));
    ShorterTextIsDifferent(Display(erased.output), Expected(s)[..|Expected(s)| - 1], Expected(erased));
  }

  lemma NulEchoesNothing<D>(services: Services<D>, s: Session<D>)
    requires !s.closed && s.line == ""
    ensures Press(services, Press(services, s, NUL), BACKSPACE)
         == s.(afterCr := false, output := s.output + ERASE)
  {
    assert Terminated([NUL]) == "";
    assert s.output + "" == s.output;
    assert (s.line + [NUL])[..0] == "";
  }

  lemma ShorterTextIsDifferent(t: Screen, text: string, other: string)
    requires Holds(t, text) && |text| != |other|
    ensures !Holds(t, other)
  {
  }
}
