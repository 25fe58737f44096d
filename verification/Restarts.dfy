/**
  Consequences over whole runs of the application runtime: task ownership, stable
  records, an accurate supervisor across the 32-bit tick's wrap, and its restart budget.
*/
module Restarts {
  import opened CStrings
  import opened Ticks
  import opened AppRuntime
  import opened Supervision

  ghost predicate Reachable(w: World) {
    exists hz, events :: 1 <= hz <= 1000 && w == Steps(Boot(hz), events)
  }

  lemma ReachableIsSound(w: World)
    requires Reachable(w)
    ensures Inv(w)
  {
    hide Inv, Steps;
    var hz, events :| 1 <= hz <= 1000 && w == Steps(Boot(hz), events);
    BootIsSound(hz);
    StepsAreSound(Boot(hz), events);
  }

  /** Task ownership in every reachable state of every interleaving. */
  lemma TaskOwnership(w: World)
    requires Reachable(w)
    ensures forall i :: 0 <= i < |w.apps| ==> (w.apps[i].state.Running? <==> w.apps[i].task.Some?)
    ensures forall i :: 0 <= i < |w.apps| ==> (w.apps[i].state.Failed? <==> w.apps[i].failure != "")
    ensures forall i, j :: 0 <= i < j < |w.apps| && w.apps[i].task.Some? ==> w.apps[i].task != w.apps[j].task
    ensures w.kernel.live.Keys == set i | 0 <= i < |w.apps| && w.apps[i].task.Some? :: w.apps[i].task.value
    ensures !w.kernel.deletedDead && w.kernel.created - w.kernel.deleted == CountRunning(w.apps)
  {
    ReachableIsSound(w);
    assert Owned(w);
    var owned := set i | 0 <= i < |w.apps| && w.apps[i].task.Some? :: w.apps[i].task.value;
    forall h | h in w.kernel.live
      ensures h in owned
    {
      assert w.apps[w.kernel.live[h]].task == Some(h);
    }
  }

  /** What no step changes of a record. */
  predicate SameIdentity(a: App, b: App) {
    a.name == b.name && a.builtin == b.builtin && a.pin == b.pin && a.periodMs == b.periodMs
  }

  predicate Keeps(w: World, v: World) {
    |w.apps| <= |v.apps| && v.hz == w.hz && forall i :: 0 <= i < |w.apps| ==> SameIdentity(w.apps[i], v.apps[i])
  }

  predicate SameCharges(a: App, b: App) {
    b.book.kills == a.book.kills && b.restartCount == a.restartCount
  }

  /** All that one record may become in a step that is not its own turn. */
  predicate OnlyAt(w: World, v: World, i: nat) {
    && |v.apps| == |w.apps| && v.hz == w.hz && i < |w.apps|
    && SameIdentity(w.apps[i], v.apps[i]) && SameCharges(w.apps[i], v.apps[i])
    && forall j :: 0 <= j < |w.apps| && j != i ==> v.apps[j] == w.apps[j]
  }

  lemma StartChangesOne(w: World, i: nat, p: Platform)
    requires i < |w.apps|
    ensures OnlyAt(w, Start(w, i, p), i)
    ensures w.apps[i].task.Some? ==> Start(w, i, p) == w
  {
  }

  lemma RunKeeps(w: World, name: string, bundle: Bundle, p: Platform)
    ensures Keeps(w, Run(w, name, bundle, p))
    ensures forall i :: 0 <= i < |w.apps| && w.apps[i].name != name ==> Run(w, name, bundle, p).apps[i] == w.apps[i]
    ensures forall i :: 0 <= i < |w.apps| ==> SameCharges(w.apps[i], Run(w, name, bundle, p).apps[i])
    ensures forall i :: |w.apps| <= i < |Run(w, name, bundle, p).apps| ==>
              Run(w, name, bundle, p).apps[i].restartCount == 0
  {
    hide Start, SafeName;
    var i := Find(w.apps, name);
    if i < |w.apps| {
      StartChangesOne(w, i, p);
    } else if |w.apps| < MAX_APPS {
      var loaded := w.(apps := w.apps + [NewApp(name, false, 38, 500)]);
      StartChangesOne(loaded, i, p);
      assert forall j :: 0 <= j < |w.apps| ==> loaded.apps[j] == w.apps[j];
    }
  }

  lemma StopKeeps(w: World, name: string)
    ensures Keeps(w, Stop(w, name)) && |Stop(w, name).apps| == |w.apps|
    ensures forall i :: 0 <= i < |w.apps| ==> SameCharges(w.apps[i], Stop(w, name).apps[i])
    ensures forall i :: 0 <= i < |w.apps| && w.apps[i].name != name ==> Stop(w, name).apps[i] == w.apps[i]
  {
  }

  lemma BeatKeeps(w: World, handle: Handle, watermark: nat)
    ensures Keeps(w, Beat(w, handle, watermark)) && |Beat(w, handle, watermark).apps| == |w.apps|
    ensures forall i :: 0 <= i < |w.apps| ==> SameCharges(w.apps[i], Beat(w, handle, watermark).apps[i])
    ensures forall i :: 0 <= i < |w.apps| && !(handle in w.kernel.live && w.kernel.live[handle] == i) ==>
              Beat(w, handle, watermark).apps[i] == w.apps[i]
  {
  }

  /** The event is the turn of record `i` in a pass. */
  predicate OnTurn(w: World, e: Event, i: nat) {
    e.Turn? && w.pass.Passing? && w.pass.next == i < |w.apps|
  }

  /** What its turn makes of a record. */
  ghost predicate Judged(w: World, a: App, b: App)
    requires w.pass.Passing?
  {
    if !Stalled(w.hz, a, w.pass.since) then b == a
    else
      && b.book.kills == a.book.kills + 1
      && if a.restartCount >= 3 then
           b.state.Failed? && b.failure == "heartbeat timeout" && b.task.None? && b.restartCount == a.restartCount
         else
           && b.restartCount == a.restartCount + 1
           && ((b.state.Failed? && b.failure != "heartbeat timeout")
               || (b.state.Running? && b.failure == "" && b.book.beat == w.clock))
  }

  lemma SuperviseOneJudges(w: World, i: nat, p: Platform)
    requires i < |w.apps| && w.pass.Passing?
    ensures var v := SuperviseOne(w, i, w.pass.since, p);
            && Judged(w, w.apps[i], v.apps[i]) && SameIdentity(w.apps[i], v.apps[i]) && v.hz == w.hz
            && forall j :: 0 <= j < |w.apps| && j != i ==> v.apps[j] == w.apps[j]
  {
    hide Minus, At, MsToTicks;
    assert "insufficient heap"[0] == 'i' && "task allocation failed"[0] == 't' && "heartbeat timeout"[0] == 'h';
  }

  /** A turn judges its own record by that record's heartbeat and leaves every other record as it is. */
  lemma TurnJudges(w: World, p: Platform, i: nat)
    requires i < |w.apps|
    ensures var v := TakeTurn(w, p);
            && |v.apps| == |w.apps| && v.hz == w.hz && SameIdentity(w.apps[i], v.apps[i])
            && if OnTurn(w, Turn(p), i) then Judged(w, w.apps[i], v.apps[i]) else v.apps[i] == w.apps[i]
  {
    hide SuperviseOne, Judged;
    if w.pass.Passing? && w.pass.next < |w.apps| {
      SuperviseOneJudges(w, w.pass.next, p);
    }
  }

  lemma TurnKeeps(w: World, p: Platform)
    ensures Keeps(w, TakeTurn(w, p)) && |TakeTurn(w, p).apps| == |w.apps|
  {
    hide TakeTurn, Judged;
    TurnLength(w, p);
    forall i | 0 <= i < |w.apps|
      ensures SameIdentity(w.apps[i], TakeTurn(w, p).apps[i])
    {
      TurnJudges(w, p, i);
    }
  }

  lemma TurnLength(w: World, p: Platform)
    ensures |TakeTurn(w, p).apps| == |w.apps| && TakeTurn(w, p).hz == w.hz
  {
    hide Judged, SuperviseOne;
    if w.pass.Passing? && w.pass.next < |w.apps| {
      SuperviseOneJudges(w, w.pass.next, p);
    }
  }

  lemma StepKeeps(w: World, e: Event)
    ensures Keeps(w, Step(w, e))
    ensures forall i :: |w.apps| <= i < |Step(w, e).apps| ==> Step(w, e).apps[i].restartCount == 0
  {
    hide Run, Stop, Beat, TakeTurn;
    match e
    case RunCommand(name, bundle, p) => RunKeeps(w, name, bundle, p);
    case StopCommand(name) => StopKeeps(w, name);
    case TaskPass(handle, watermark) => BeatKeeps(w, handle, watermark);
    case PassBegins =>
    case Turn(p) => TurnKeeps(w, p);
    case Elapse(_) =>
  }

  lemma {:induction false} RecordsAreStable(w: World, events: seq<Event>)
    ensures Keeps(w, Steps(w, events))
    decreases |events|
  {
    hide Step;
    if events != [] {
      StepKeeps(w, events[0]);
      RecordsAreStable(Step(w, events[0]), events[1..]);
    }
  }

  /** A character that needs no care in a path: no separator, no dot, no blank, no control character. */
  predicate Plain(c: char) {
    c != '/' && c != '\\' && c != '.' && '!' <= c <= 'z'
  }

  /** An `app-run` of a name whose signed bundle is genuine and supported. */
  predicate Approves(e: Event, name: string) {
    e.RunCommand? && e.name == name && e.bundle.verifies && e.bundle.supported
  }

  lemma StepRecords(w: World, e: Event, i: nat)
    requires |w.apps| <= i < |Step(w, e).apps|
    ensures i == |w.apps| && Approves(e, Step(w, e).apps[i].name)
    ensures !Step(w, e).apps[i].builtin && Step(w, e).apps[i].periodMs == 500
  {
    hide Start, Stop, Beat, TakeTurn, SafeName;
    match e
    case RunCommand(name, bundle, p) =>
      if Find(w.apps, name) < |w.apps| {
        StartChangesOne(w, Find(w.apps, name), p);
      } else {
        StartChangesOne(w.(apps := w.apps + [NewApp(name, false, 38, 500)]), |w.apps|, p);
      }
    case StopCommand(name) => StopKeeps(w, name);
    case TaskPass(handle, watermark) => BeatKeeps(w, handle, watermark);
    case PassBegins =>
    case Turn(p) => TurnKeeps(w, p);
    case Elapse(_) =>
  }

  /** Every record that a run has added was approved: some command of its name in that run found a genuine bundle. */
  lemma {:induction false} RecordsWereApproved(w: World, events: seq<Event>, i: nat)
    requires |w.apps| <= i < |Steps(w, events).apps|
    ensures !Steps(w, events).apps[i].builtin && Steps(w, events).apps[i].periodMs == 500
    ensures exists e <- events :: Approves(e, Steps(w, events).apps[i].name)
    decreases |events|
  {
    hide Step, Approves;
    assert events != [];
    var e, rest := events[0], events[1..];
    var v := Step(w, e);
    if i < |v.apps| {
      StepRecords(w, e, i);
      RecordsAreStable(v, rest);
      assert e in events;
    } else {
      RecordsWereApproved(v, rest, i);
      assert forall x <- rest :: x in events;
    }
  }

  /**
    The records of every run from a boot: the two built-in ones as they are, and at most
    two more, all under distinct safe names, each added after a genuine bundle of its name was found.
  */
  lemma RecordsAreLegitimate(hz: nat, events: seq<Event>)
    requires 1 <= hz <= 1000
    ensures var apps := Steps(Boot(hz), events).apps;
            && 2 <= |apps| <= 4 && Distinct(apps)
            && apps[0].name == "diagnostics" && apps[0].periodMs == 1000
            && apps[1].name == "led-blink" && apps[1].periodMs == 500
            && (forall app <- apps :: 1 <= |app.name| <= 23 && forall c <- app.name :: Plain(c))
            && forall i :: 2 <= i < |apps| ==> !apps[i].builtin && exists e <- events :: Approves(e, apps[i].name)
  {
    hide Steps, Approves, Inv, SafeName, Distinct;
    var w, apps := Boot(hz), Steps(Boot(hz), events).apps;
    BootIsSound(hz);
    StepsAreSound(w, events);
    RecordsAreStable(w, events);
    assert |apps| <= 4 && Distinct(apps) by { TableOf(Steps(w, events)); }
    forall app | app in apps
      ensures 1 <= |app.name| <= 23 && forall c <- app.name :: Plain(c)
    {
      var i :| 0 <= i < |apps| && apps[i] == app;
      Get(Steps(w, events), i);
      SafeNamesAreShort(app.name);
    }
    forall i | 2 <= i < |apps|
      ensures !apps[i].builtin && exists e <- events :: Approves(e, apps[i].name)
    {
      RecordsWereApproved(w, events, i);
    }
  }

  lemma TableOf(w: World)
    requires Inv(w)
    ensures |w.apps| <= 4 && Distinct(w.apps)
  {
  }

  lemma SafeNamesAreShort(name: string)
    requires SafeName(name)
    ensures 1 <= |name| <= 23 && forall c <- name :: Plain(c)
  {
  }

  /** The app with a name has a live task. */
  predicate IsRunning(w: World, name: string) {
    exists i :: 0 <= i < |w.apps| && w.apps[i].name == name && w.apps[i].state.Running?
  }

  /** What `app-run` needs to find under a name: a record, or a genuine bundle under a safe name and room for it. */
  predicate Available(w: World, name: string, bundle: Bundle) {
    || (exists i :: 0 <= i < |w.apps| && w.apps[i].name == name)
    || (SafeName(name) && bundle.verifies && bundle.supported && |w.apps| < 4)
  }

  /** After `app-run` the app runs exactly if it ran before or if it was available and the platform gave it a task. */
  lemma RunningAfterRun(w: World, name: string, bundle: Bundle, p: Platform)
    requires Inv(w)
    ensures IsRunning(Run(w, name, bundle, p), name) <==>
            IsRunning(w, name)
            || (Available(w, name, bundle) && p.heap && p.handle.Some? && p.handle.value !in w.kernel.live)
  {
    hide SafeName, Inv;
    var i := Find(w.apps, name);
    var v := Run(w, name, bundle, p);
    RunIsSound(w, name, bundle, p);
    if i < |w.apps| {
      RunningOwns(w, i);
      OnlyOne(w, name, i);
      OnlyOne(v, name, i);
    } else if i < |v.apps| {
      OnlyOne(v, name, i);
    }
  }

  /** An app that could not be started has failed, and its record says why. */
  lemma WhyNotStarted(w: World, i: nat, p: Platform)
    requires Inv(w) && i < |w.apps| && w.apps[i].task.None?
    ensures var b := Start(w, i, p).apps[i];
            if !p.heap then b.state.Failed? && b.failure == "insufficient heap"
            else if p.handle.None? || p.handle.value in w.kernel.live then
              b.state.Failed? && b.failure == "task allocation failed"
            else b.state.Running? && b.task == p.handle && b.book.beat == w.clock
  {
    hide Inv;
    RunningOwns(w, i);
  }

  lemma OnlyOne(w: World, name: string, i: nat)
    requires Inv(w) && i < |w.apps| && w.apps[i].name == name
    ensures IsRunning(w, name) <==> w.apps[i].state.Running?
  {
    hide Sound, Owned;
  }

  /** After `app-stop` the app does not run, and an app that ran is stopped; no other record is touched. */
  lemma StoppedAfterStop(w: World, name: string, i: nat)
    requires Inv(w) && i < |w.apps|
    ensures var a, b := w.apps[i], Stop(w, name).apps[i];
            if a.name == name && a.state.Running? then b == a.(task := None, state := Stopped) else b == a
  {
    hide SafeName, Inv;
    StopKeeps(w, name);
    RunningOwns(w, i);
    if w.apps[i].name == name {
      var k := Find(w.apps, name);
      assert k == i by { NamedOnce(w, k, i); }
    }
  }

  lemma NamedOnce(w: World, i: nat, j: nat)
    requires Inv(w) && i < |w.apps| && j < |w.apps| && w.apps[i].name == w.apps[j].name
    ensures i == j
  {
    hide Sound, Owned;
  }

  /** A pass of an app's task: with at least 256 words of stack it has beaten now and runs on, with fewer it fails. */
  lemma BeatOrFail(w: World, i: nat, watermark: nat)
    requires Inv(w) && i < |w.apps| && w.apps[i].task.Some?
    ensures var a, b := w.apps[i], Beat(w, w.apps[i].task.value, watermark).apps[i];
            && b.book.beat == w.clock && b.stackWatermark == watermark
            && if watermark >= 256 then b.state.Running? && b.task == a.task
               else b.state.Failed? && b.failure == "stack resource limit" && b.task.None?
  {
    hide SafeName;
    RunningOwns(w, i);
  }

  /** How long before a pass read the clock an app last beat; negative when it has beaten since. */
  function Silence(since: nat, app: App): int {
    since - app.book.beat
  }

  /** Four periods, in thousandths of a tick. */
  function FourPeriods(hz: nat, app: App): nat {
    4 * app.periodMs * hz
  }

  lemma TimeoutIsFourPeriods(hz: nat, app: App, ticks: nat)
    ensures ticks > Timeout(hz, app) <==> 1000 * ticks > FourPeriods(hz, app)
  {
    var x := app.periodMs * 4 * hz;
    assert x == 4 * app.periodMs * hz;
    assert x == 1000 * (x / 1000) + x % 1000;
  }

  predicate Overdue(hz: nat, app: App, since: nat) {
    app.state.Running? && 1000 * (Silence(since, app) % TICK_RANGE) > FourPeriods(hz, app)
  }

  /**
    The supervisor's verdict against a clock that never wraps: exact when the app has
    not beaten since the pass read the clock. An app that has looks silent for almost
    2^32 ticks, and is judged by that.
  */
  lemma StalledIsOverdue(w: World, i: nat, since: nat)
    requires Inv(w) && i < |w.apps|
    ensures var a := w.apps[i];
            && (Stalled(w.hz, a, since) <==> Overdue(w.hz, a, since))
            && (a.state.Running? && a.book.beat <= since < a.book.beat + TICK_RANGE ==>
                  (Stalled(w.hz, a, since) <==> 1000 * Silence(since, a) > FourPeriods(w.hz, a)))
            && (a.state.Running? && since < a.book.beat <= since + TICK_RANGE ==>
                  (Stalled(w.hz, a, since) <==>
                     1000 * (Silence(since, a) + 0x1_0000_0000) > FourPeriods(w.hz, a)))
  {
    hide Inv, SafeName, Minus, At, Timeout, FourPeriods;
    Get(w, i);
    MinusIsElapsed(since, w.apps[i].book.beat);
    TimeoutIsFourPeriods(w.hz, w.apps[i], Minus(At(since), w.apps[i].heartbeat));
  }

  /** Four periods are far below the tick's range. */
  lemma FourPeriodsAreShort(w: World, i: nat)
    requires Inv(w) && i < |w.apps|
    ensures FourPeriods(w.hz, w.apps[i]) <= 4_000_000
  {
    hide Inv, SafeName;
    Get(w, i);
    RateOf(w);
    var ms := w.apps[i].periodMs;
    assert 4 * ms * w.hz <= 4 * 1000 * w.hz <= 4_000_000 by {
      assert (1000 - ms) * w.hz >= 0;
    }
  }

  lemma RateOf(w: World)
    requires Inv(w)
    ensures 1 <= w.hz <= 1000
  {
  }

  /** The turns of a run that find an app overdue. */
  function OverdueTurns(w: World, events: seq<Event>, i: nat): nat
    decreases |events|
  {
    if events == [] then 0
    else
      (if OnTurn(w, events[0], i) && Overdue(w.hz, w.apps[i], w.pass.since) then 1 else 0)
      + OverdueTurns(Step(w, events[0]), events[1..], i)
  }

  /** The supervisor kills an app and tries to start it again. */
  predicate Attempted(w: World, e: Event, i: nat) {
    && OnTurn(w, e, i) && i < |Step(w, e).apps|
    && Step(w, e).apps[i].book.kills > w.apps[i].book.kills
    && Step(w, e).apps[i].failure != "heartbeat timeout"
  }

  function AttemptsMade(w: World, events: seq<Event>, i: nat): nat
    decreases |events|
  {
    if events == [] then 0
    else (if Attempted(w, events[0], i) then 1 else 0) + AttemptsMade(Step(w, events[0]), events[1..], i)
  }

  /**
    An app is killed by a step exactly when the step is its turn and finds it overdue;
    a restart is charged for each attempt.
  */
  lemma KilledIffOverdue(w: World, e: Event, i: nat)
    requires Inv(w) && i < |w.apps|
    ensures var overdue := if OnTurn(w, e, i) && Overdue(w.hz, w.apps[i], w.pass.since) then 1 else 0;
            i < |Step(w, e).apps| &&
            var a, b := w.apps[i], Step(w, e).apps[i];
            && b.book.kills == a.book.kills + overdue
            && b.restartCount == a.restartCount + (if Attempted(w, e, i) then 1 else 0)
            && b.restartCount == if a.restartCount < 3 then a.restartCount + overdue else a.restartCount
  {
    hide Inv, Run, Stop, Beat, TakeTurn, Overdue, Stalled;
    match e
    case RunCommand(name, bundle, p) => RunKeeps(w, name, bundle, p);
    case StopCommand(name) => StopKeeps(w, name);
    case TaskPass(handle, watermark) => BeatKeeps(w, handle, watermark);
    case PassBegins =>
    case Turn(p) =>
      if w.pass.Passing? {
        StalledIsOverdue(w, i, w.pass.since);
      }
      TurnJudges(w, p, i);
    case Elapse(_) =>
  }

  /**
    Over any run an app is killed exactly once for each turn that finds it overdue, and
    charged a restart for each until the budget is spent.
  */
  lemma {:induction false} KillsAreOverdueTurns(w: World, events: seq<Event>, i: nat)
    requires Inv(w) && i < |w.apps|
    ensures var a, v := w.apps[i], Steps(w, events);
            var n := OverdueTurns(w, events, i);
            && i < |v.apps| && v.apps[i].book.kills == a.book.kills + n
            && v.apps[i].restartCount ==
                 if a.restartCount + n < 3 then a.restartCount + n else 3
    decreases |events|
  {
    hide Inv, Step, Overdue, OnTurn;
    BudgetOf(w, i);
    if events != [] {
      StepIsSound(w, events[0]);
      KilledIffOverdue(w, events[0], i);
      KillsAreOverdueTurns(Step(w, events[0]), events[1..], i);
    }
  }

  lemma BudgetOf(w: World, i: nat)
    requires Inv(w) && i < |w.apps|
    ensures w.apps[i].restartCount <= 3
  {
  }

  /** Neither stopped nor beating. */
  predicate Silent(app: App, events: seq<Event>) {
    forall e <- events :: e != StopCommand(app.name) && !(e.TaskPass? && app.task == Some(e.handle))
  }

  /** Nothing but a stop, its own task or its own turn changes the record of a running app. */
  lemma SilentStepKeeps(w: World, e: Event, i: nat)
    requires Inv(w) && i < |w.apps| && w.apps[i].state.Running? && Silent(w.apps[i], [e]) && !OnTurn(w, e, i)
    ensures i < |Step(w, e).apps| && Step(w, e).apps[i] == w.apps[i]
  {
    hide Inv, Stop, Beat, TakeTurn, Start;
    assert e in [e];
    RunningOwns(w, i);
    match e
    case RunCommand(name, bundle, p) =>
      RunKeeps(w, name, bundle, p);
      if Find(w.apps, name) < |w.apps| {
        StartChangesOne(w, Find(w.apps, name), p);
      }
    case StopCommand(name) => StopKeeps(w, name);
    case TaskPass(handle, watermark) =>
      BeatKeeps(w, handle, watermark);
      if handle in w.kernel.live {
        OwnerOf(w, handle);
      }
    case PassBegins =>
    case Turn(p) => TurnJudges(w, p, i);
    case Elapse(_) =>
  }

  /**
    An app that is silent for longer than four periods, but under 2^32 ticks, when a pass
    reads the clock, and stays silent, is killed when the pass reaches it.
  */
  lemma {:induction false} SilentAppIsKilled(w: World, events: seq<Event>, i: nat)
    requires Inv(w) && w.pass.Passing? && w.pass.next <= i < |w.apps| && w.apps[i].state.Running?
    requires FourPeriods(w.hz, w.apps[i]) < 1000 * Silence(w.pass.since, w.apps[i])
    requires Silence(w.pass.since, w.apps[i]) < 0x1_0000_0000
    requires Silent(w.apps[i], events)
    ensures var v := Steps(w, events);
            && i < |v.apps|
            && (v.apps[i].book.kills > w.apps[i].book.kills
                || (v.pass.Passing? && v.pass.since == w.pass.since && v.pass.next <= i && v.apps[i] == w.apps[i]))
    decreases |events|
  {
    hide Inv, Step, Stalled, Overdue, FourPeriods;
    if events != [] {
      var e := events[0];
      var v := Step(w, e);
      StepIsSound(w, e);
      if OnTurn(w, e, i) {
        StalledIsOverdue(w, i, w.pass.since);
        KilledIffOverdue(w, e, i);
        KillsAreOverdueTurns(v, events[1..], i);
      } else {
        assert Silent(w.apps[i], [e]) && Silent(w.apps[i], events[1..]) by {
          assert e in events && forall x <- events[1..] :: x in events;
        }
        SilentStepKeeps(w, e, i);
        StepKeeps(w, e);
        PassMoves(w, e, i);
        SilentAppIsKilled(v, events[1..], i);
      }
    }
  }

  lemma PassMoves(w: World, e: Event, i: nat)
    requires w.pass.Passing? && w.pass.next <= i < |w.apps| && !OnTurn(w, e, i)
    ensures var v := Step(w, e); v.pass.Passing? && v.pass.since == w.pass.since && v.pass.next <= i
  {
    hide Run, Stop, Beat, SuperviseOne;
    if !e.Supervisors() {
      OtherKeepsPass(w, e);
    }
  }

  /** A sign of life: a pass of the app's own task, or the start of one. */
  ghost predicate Sign(w: World, e: Event, i: nat) {
    || (e.TaskPass? && e.handle in w.kernel.live && w.kernel.live[e.handle] == i)
    || (i < |w.apps| && i < |Step(w, e).apps| && w.apps[i].task.None? && Step(w, e).apps[i].task.Some?)
  }

  /** While the app runs, four periods never pass without a sign of life; `last` is the time of the latest. */
  ghost predicate BeatsInTime(w: World, events: seq<Event>, i: nat, last: nat)
    decreases |events|
  {
    && (i < |w.apps| && w.apps[i].state.Running? ==> 1000 * w.clock <= 1000 * last + FourPeriods(w.hz, w.apps[i]))
    && (events != [] ==>
          BeatsInTime(Step(w, events[0]), events[1..], i, if Sign(w, events[0], i) then w.clock else last))
  }

  predicate Pending(w: World, i: nat) {
    w.pass.Passing? && w.pass.next <= i
  }

  /** No sign of life comes later than the pass's reading of the clock while the app's turn is still to come. */
  ghost predicate UndisturbedPasses(w: World, events: seq<Event>, i: nat)
    decreases |events|
  {
    events != [] ==>
      && (Sign(w, events[0], i) && Pending(w, i) ==> w.clock == w.pass.since)
      && UndisturbedPasses(Step(w, events[0]), events[1..], i)
  }

  /** The state of an app whose signs of life come in time. */
  ghost predicate Heard(w: World, i: nat, last: nat) {
    && i < |w.apps|
    && (w.apps[i].state.Running? ==>
          w.apps[i].book.beat == last && 1000 * w.clock <= 1000 * last + FourPeriods(w.hz, w.apps[i]))
  }

  /** And whose latest, while its turn is still to come, is no newer than the pass's reading. */
  ghost predicate InTime(w: World, i: nat, last: nat) {
    Heard(w, i, last) && (w.apps[i].state.Running? && Pending(w, i) ==> last <= w.pass.since)
  }

  lemma InTimeIsNotOverdue(w: World, i: nat, last: nat)
    requires Inv(w) && InTime(w, i, last) && Pending(w, i)
    ensures !Overdue(w.hz, w.apps[i], w.pass.since)
  {
    hide Inv, FourPeriods;
    PassInPast(w);
    FourPeriodsAreShort(w, i);
  }

  /** A record's running state and heartbeat are new, signed by a sign of life, or as before. */
  ghost predicate Signed(w: World, a: App, b: App, sign: bool) {
    b.state.Running? ==> if sign then b.book.beat == w.clock else a.state.Running? && b.book == a.book
  }

  lemma StartIsSigned(w: World, k: nat, i: nat, p: Platform)
    requires Inv(w) && i < |w.apps| && k < |w.apps|
    ensures var a, b := w.apps[i], Start(w, k, p).apps[i];
            Signed(w, a, b, a.task.None? && b.task.Some?)
  {
    hide Inv;
    RunningOwns(w, i);
  }

  lemma RunIsSigned(w: World, name: string, bundle: Bundle, p: Platform, i: nat)
    requires Inv(w) && i < |w.apps|
    ensures var v := Run(w, name, bundle, p);
            i < |v.apps| && Signed(w, w.apps[i], v.apps[i], w.apps[i].task.None? && v.apps[i].task.Some?)
  {
    hide Inv, Start, SafeName, Signed;
    RunKeeps(w, name, bundle, p);
    var k := Find(w.apps, name);
    if k < |w.apps| {
      StartIsSigned(w, k, i, p);
    } else {
      FindMisses(w.apps, name);
      SameIsSigned(w, i);
    }
  }

  lemma SameIsSigned(w: World, i: nat)
    requires i < |w.apps|
    ensures Signed(w, w.apps[i], w.apps[i], false)
  {
  }

  /** What a step does to the record of an app that is not stalled. */
  lemma SignOrSame(w: World, e: Event, i: nat)
    requires Inv(w) && i < |w.apps| && !(OnTurn(w, e, i) && Stalled(w.hz, w.apps[i], w.pass.since))
    ensures i < |Step(w, e).apps| && Signed(w, w.apps[i], Step(w, e).apps[i], Sign(w, e, i))
  {
    hide Inv, Stalled, Run, TakeTurn;
    RunningOwns(w, i);
    match e
    case RunCommand(name, bundle, p) => RunIsSigned(w, name, bundle, p, i);
    case StopCommand(name) =>
    case TaskPass(handle, _) =>
      if handle in w.kernel.live {
        OwnerOf(w, handle);
      }
    case PassBegins =>
    case Turn(p) => TurnJudges(w, p, i);
    case Elapse(_) =>
  }

  lemma PendingMoves(w: World, e: Event, i: nat)
    ensures Pending(Step(w, e), i) ==>
              (e.PassBegins? && Step(w, e).pass.since == w.clock)
              || (Pending(w, i) && Step(w, e).pass.since == w.pass.since)
  {
    hide Run, Stop, Beat, SuperviseOne;
    if !e.Supervisors() {
      OtherKeepsPass(w, e);
    }
  }

  lemma OnTurnIsPending(w: World, e: Event, i: nat)
    requires OnTurn(w, e, i)
    ensures Pending(w, i)
  {
  }

  lemma BeatInPast(w: World, i: nat)
    requires Inv(w) && i < |w.apps|
    ensures w.apps[i].book.beat <= w.clock
  {
  }

  lemma TimelyStep(w: World, e: Event, i: nat, last: nat)
    requires Inv(w) && InTime(w, i, last) && (Sign(w, e, i) && Pending(w, i) ==> w.clock == w.pass.since)
    requires var v := Step(w, e);
             i < |v.apps| && v.apps[i].state.Running? ==>
               1000 * v.clock <= 1000 * (if Sign(w, e, i) then w.clock else last) + FourPeriods(v.hz, v.apps[i])
    ensures !(OnTurn(w, e, i) && Overdue(w.hz, w.apps[i], w.pass.since))
    ensures InTime(Step(w, e), i, if Sign(w, e, i) then w.clock else last)
  {
    hide Inv, Step, FourPeriods, Sign, Stalled, Overdue, OnTurn, Pending;
    if OnTurn(w, e, i) {
      OnTurnIsPending(w, e, i);
      InTimeIsNotOverdue(w, i, last);
      StalledIsOverdue(w, i, w.pass.since);
    }
    SignOrSame(w, e, i);
    PendingMoves(w, e, i);
    BeatInPast(w, i);
  }

  lemma {:induction false} TimelyIsNeverOverdue(w: World, events: seq<Event>, i: nat, last: nat)
    requires Inv(w) && InTime(w, i, last) && BeatsInTime(w, events, i, last) && UndisturbedPasses(w, events, i)
    ensures OverdueTurns(w, events, i) == 0
    decreases |events|
  {
    hide Inv, Step, FourPeriods, Sign, Overdue, OnTurn, Pending, InTime;
    if events != [] {
      var now := if Sign(w, events[0], i) then w.clock else last;
      StepIsSound(w, events[0]);
      TimelyStep(w, events[0], i, last);
      TimelyIsNeverOverdue(Step(w, events[0]), events[1..], i, now);
    }
  }

  /**
    An app that never goes four periods without a sign of life, and gives none between a
    pass's reading of the clock and its turn, is never killed or charged a restart, in any run.
  */
  lemma TimelyAppIsNeverKilled(w: World, events: seq<Event>, i: nat, last: nat)
    requires Inv(w) && InTime(w, i, last) && BeatsInTime(w, events, i, last) && UndisturbedPasses(w, events, i)
    ensures var v := Steps(w, events);
            && i < |v.apps| && v.apps[i].book.kills == w.apps[i].book.kills
            && v.apps[i].restartCount == w.apps[i].restartCount
  {
    hide Inv, Steps, BeatsInTime, UndisturbedPasses;
    BudgetOf(w, i);
    TimelyIsNeverOverdue(w, events, i, last);
    KillsAreOverdueTurns(w, events, i);
  }

  /** The turn of an app that has beaten since the pass read the clock. */
  predicate FreshTurn(w: World, e: Event, i: nat) {
    OnTurn(w, e, i) && w.apps[i].state.Running? && w.apps[i].book.beat > w.pass.since
  }

  ghost predicate NoFreshTurn(w: World, events: seq<Event>, i: nat)
    decreases |events|
  {
    events != [] ==> !FreshTurn(w, events[0], i) && NoFreshTurn(Step(w, events[0]), events[1..], i)
  }

  /** No pass lasts for nearly 2^32 ticks. */
  predicate Brief(w: World) {
    w.pass.Passing? ==> w.clock < w.pass.since + TICK_RANGE - 4000
  }

  ghost predicate BriefPasses(w: World, events: seq<Event>)
    decreases |events|
  {
    Brief(w) && (events != [] ==> BriefPasses(Step(w, events[0]), events[1..]))
  }

  lemma FreshIsStalled(w: World, e: Event, i: nat, last: nat)
    requires Inv(w) && Heard(w, i, last) && Brief(w) && OnTurn(w, e, i)
    ensures Overdue(w.hz, w.apps[i], w.pass.since) <==> FreshTurn(w, e, i)
    ensures Stalled(w.hz, w.apps[i], w.pass.since) <==> FreshTurn(w, e, i)
  {
    hide Inv, FourPeriods, Stalled;
    PassInPast(w);
    BeatInPast(w, i);
    FourPeriodsAreShort(w, i);
    StalledIsOverdue(w, i, w.pass.since);
  }

  lemma FreshIsOnTurn(w: World, e: Event, i: nat)
    requires FreshTurn(w, e, i)
    ensures OnTurn(w, e, i)
  {
  }

  /**
    Exactly when an app is killed whose signs of life come in time, in any run whose
    passes are not as long as the tick's range: when a turn finds it beating since the
    pass read the clock.
  */
  lemma {:induction false} HeardAppIsKilledIffFresh(w: World, events: seq<Event>, i: nat, last: nat)
    requires Inv(w) && Heard(w, i, last) && BeatsInTime(w, events, i, last) && BriefPasses(w, events)
    ensures var v := Steps(w, events);
            && i < |v.apps| && v.apps[i].book.kills >= w.apps[i].book.kills
            && (v.apps[i].book.kills == w.apps[i].book.kills <==> NoFreshTurn(w, events, i))
    decreases |events|
  {
    hide Inv, Step, FourPeriods, Sign, Overdue, Stalled, OnTurn, FreshTurn, Brief;
    if events != [] {
      var e, rest := events[0], events[1..];
      StepIsSound(w, e);
      KilledIffOverdue(w, e, i);
      if OnTurn(w, e, i) {
        FreshIsStalled(w, e, i, last);
      }
      if FreshTurn(w, e, i) {
        FreshIsOnTurn(w, e, i);
        KillsAreOverdueTurns(Step(w, e), rest, i);
      } else {
        SignOrSame(w, e, i);
        HeardAppIsKilledIffFresh(Step(w, e), rest, i, if Sign(w, e, i) then w.clock else last);
      }
    }
  }

  const ANSWER := Platform(true, Some(7))
  const UNUSED := Bundle(false, false)

  /** An app beats, and in the same tick is killed as silent, because the pass has read the clock before. */
  const DISTURBED := [RunCommand("diagnostics", UNUSED, ANSWER), PassBegins, Elapse(1), TaskPass(7, 1000)]

  /**
    The undisturbed passes are needed: a run after which an app has beaten in the current
    tick, one tick after its start, and is killed at the next turn nevertheless.
  */
  lemma FreshAppIsKilled()
    ensures var w := Steps(Boot(1000), DISTURBED);
            && w.apps != [] && w.apps[0].state.Running? && w.apps[0].book == Book(w.clock, 0)
            && TakeTurn(w, ANSWER).apps != [] && TakeTurn(w, ANSWER).apps[0].book.kills == 1
  {
    var w1 := Start(Boot(1000), 0, ANSWER);
    assert Step(Boot(1000), DISTURBED[0]) == w1;
    var w2 := w1.(pass := Passing(0, 0));
    var w3 := w2.(clock := 1);
    var w4 := Beat(w3, 7, 1000);
    assert DISTURBED[1..] == [PassBegins, Elapse(1), TaskPass(7, 1000)];
    assert [PassBegins, Elapse(1), TaskPass(7, 1000)][1..] == [Elapse(1), TaskPass(7, 1000)];
    assert [Elapse(1), TaskPass(7, 1000)][1..] == [TaskPass(7, 1000)] && [TaskPass(7, 1000)][1..] == [];
    assert Steps(w3, [TaskPass(7, 1000)]) == Steps(w4, []) == w4;
    assert Steps(w2, [Elapse(1), TaskPass(7, 1000)]) == w4;
    assert Steps(w1, DISTURBED[1..]) == w4;
  }

  /** `restartCount` is the number of attempts made; a record starts with none. */
  lemma {:induction false} RestartsAreAttempts(w: World, events: seq<Event>, i: nat)
    requires Inv(w) && i < |Steps(w, events).apps|
    ensures Steps(w, events).apps[i].restartCount
         == (if i < |w.apps| then w.apps[i].restartCount else 0) + AttemptsMade(w, events, i)
    decreases |events|
  {
    hide Inv, Step, Attempted;
    if events != [] {
      StepIsSound(w, events[0]);
      StepKeeps(w, events[0]);
      if i < |w.apps| {
        KilledIffOverdue(w, events[0], i);
      } else {
        assert !Attempted(w, events[0], i) by { AbsentNeverAttempted(w, events[0], i); }
      }
      RestartsAreAttempts(Step(w, events[0]), events[1..], i);
    }
  }

  lemma AbsentNeverAttempted(w: World, e: Event, i: nat)
    requires i >= |w.apps|
    ensures !Attempted(w, e, i)
  {
  }

  lemma {:induction false} AbsentHasNoAttempts(w: World, events: seq<Event>, i: nat)
    requires i >= |Steps(w, events).apps|
    ensures AttemptsMade(w, events, i) == 0
    decreases |events|
  {
    hide Step, Attempted;
    if events != [] {
      RecordsAreStable(w, events);
      AbsentNeverAttempted(w, events[0], i);
      AbsentHasNoAttempts(Step(w, events[0]), events[1..], i);
    }
  }

  /** The attempts made for the first `n` records. */
  function TotalAttempts(w: World, events: seq<Event>, n: nat): nat {
    if n == 0 then 0 else TotalAttempts(w, events, n - 1) + AttemptsMade(w, events, n - 1)
  }

  /**
    The lifetime restart budget of every run: at most 3 attempts for each app, as many
    as its `restartCount` says, and at most 12 for all records there can be.
  */
  lemma RestartBudget(hz: nat, events: seq<Event>)
    requires 1 <= hz <= 1000
    ensures forall i: nat :: AttemptsMade(Boot(hz), events, i) <= if i < MAX_APPS then 3 else 0
    ensures var v := Steps(Boot(hz), events);
            forall i :: 0 <= i < |v.apps| ==> v.apps[i].restartCount == AttemptsMade(Boot(hz), events, i)
    ensures TotalAttempts(Boot(hz), events, MAX_APPS) <= 12
  {
    hide Inv, Steps, AttemptsMade;
    var w := Boot(hz);
    var v := Steps(w, events);
    BootIsSound(hz);
    StepsAreSound(w, events);
    AtMostFour(v);
    forall i: nat
      ensures AttemptsMade(w, events, i) <= if i < MAX_APPS then 3 else 0
      ensures i < |v.apps| ==> v.apps[i].restartCount == AttemptsMade(w, events, i)
    {
      if i < |v.apps| {
        RestartsAreAttempts(w, events, i);
        BudgetOf(v, i);
      } else {
        AbsentHasNoAttempts(w, events, i);
      }
    }
    TotalIsBounded(w, events, MAX_APPS);
  }

  lemma AtMostFour(w: World)
    requires Inv(w)
    ensures |w.apps| <= MAX_APPS
  {
  }

  lemma {:induction false} TotalIsBounded(w: World, events: seq<Event>, n: nat)
    requires forall i: nat :: i < n ==> AttemptsMade(w, events, i) <= 3
    ensures TotalAttempts(w, events, n) <= 3 * n
    decreases n
  {
    if n > 0 {
      TotalIsBounded(w, events, n - 1);
    }
  }

  /** A failed app owns no task, so nothing but its own `app-run` touches its record's state. */
  lemma FailedStepStays(w: World, e: Event, i: nat)
    requires Inv(w) && i < |w.apps| && w.apps[i].state.Failed?
    requires !(e.RunCommand? && e.name == w.apps[i].name)
    ensures i < |Step(w, e).apps| && Step(w, e).apps[i] == w.apps[i]
  {
    hide Inv, Run, TakeTurn;
    RunningOwns(w, i);
    match e
    case RunCommand(name, bundle, p) => RunKeeps(w, name, bundle, p);
    case StopCommand(name) =>
    case TaskPass(handle, watermark) =>
      if handle in w.kernel.live {
        OwnerOf(w, handle);
      }
    case PassBegins =>
    case Turn(p) => TurnJudges(w, p, i);
    case Elapse(_) =>
  }

  /** Only an explicit `app-run` of its own name takes an app out of the failed state. */
  lemma {:induction false} FailedUntilRun(w: World, events: seq<Event>, i: nat)
    requires Inv(w) && i < |w.apps| && w.apps[i].state.Failed?
    requires forall e <- events :: !(e.RunCommand? && e.name == w.apps[i].name)
    ensures var v := Steps(w, events);
            i < |v.apps| && v.apps[i] == w.apps[i]
    decreases |events|
  {
    hide Inv, Step;
    if events != [] {
      assert events[0] in events;
      StepIsSound(w, events[0]);
      StepKeeps(w, events[0]);
      FailedStepStays(w, events[0], i);
      FailedUntilRun(Step(w, events[0]), events[1..], i);
    }
  }
}
