/**
  What holds of the application runtime in every state it can reach, and over every run.
*/
module Supervision {
  import opened CStrings
  import opened Ticks
  import opened AppRuntime

  /** What holds of one record. */
  ghost predicate Sound(app: App, clock: nat) {
    && SafeName(app.name)
    && (app.state.Running? <==> app.task.Some?)
    && (app.state.Failed? <==> app.failure != "")
    && app.restartCount <= MAXIMUM_RESTARTS
    && 0 < app.periodMs <= 1000
    && app.book.beat <= clock && (app.task.Some? ==> app.heartbeat == At(app.book.beat))
  }

  /** The live tasks are exactly the tasks the records own, each by one record. */
  ghost predicate Owned(w: World) {
    && (forall i :: 0 <= i < |w.apps| && w.apps[i].task.Some? ==>
          w.apps[i].task.value in w.kernel.live && w.kernel.live[w.apps[i].task.value] == i)
    && (forall h :: h in w.kernel.live ==>
          w.kernel.live[h] < |w.apps| && w.apps[w.kernel.live[h]].task == Some(h))
  }

  function CountRunning(apps: seq<App>): nat {
    if apps == [] then 0 else (if apps[0].state.Running? then 1 else 0) + CountRunning(apps[1..])
  }

  ghost predicate Distinct(apps: seq<App>) {
    forall i, j :: 0 <= i < j < |apps| ==> apps[i].name != apps[j].name
  }

  ghost predicate Inv(w: World) {
    && 1 <= w.hz <= 1000
    && 2 <= |w.apps| <= MAX_APPS && Distinct(w.apps)
    && (forall i :: 0 <= i < |w.apps| ==> Sound(w.apps[i], w.clock))
    && Owned(w) && !w.kernel.deletedDead
    && w.kernel.created == w.kernel.deleted + CountRunning(w.apps)
    && (w.pass.Passing? ==> w.pass.since <= w.clock)
  }

  lemma {:induction false} CountUpdate(apps: seq<App>, i: nat, app: App)
    requires i < |apps|
    ensures CountRunning(apps[i := app]) - CountRunning(apps)
         == (if app.state.Running? then 1 else 0) - (if apps[i].state.Running? then 1 else 0)
    decreases |apps|
  {
    if i == 0 {
      assert apps[i := app][1..] == apps[1..];
    } else {
      assert apps[i := app][1..] == apps[1..][i - 1 := app];
      CountUpdate(apps[1..], i - 1, app);
    }
  }

  lemma BootIsSound(hz: nat)
    requires 1 <= hz <= 1000
    ensures Inv(Boot(hz))
  {
    var w := Boot(hz);
    assert w.apps[0].name[0] != w.apps[1].name[0];
    assert w.apps[1..][1..] == [];
    assert CountRunning(w.apps) == CountRunning(w.apps[1..]) == 0;
  }

  /** Replacing one record by one that keeps its name, without touching the kernel. */
  lemma Replace(w: World, i: nat, app: App)
    requires Inv(w) && i < |w.apps| && Sound(app, w.clock)
    requires app.name == w.apps[i].name && app.task == w.apps[i].task
    ensures Inv(w.(apps := w.apps[i := app]))
  {
    hide Sound, CountRunning;
    CountUpdate(w.apps, i, app);
    RunningOwns(w, i);
    StateOf(app, w);
  }

  /** Creating the task of a record that has none. */
  lemma Launch(w: World, i: nat, app: App, handle: Handle)
    requires Inv(w) && i < |w.apps| && Sound(app, w.clock) && app.name == w.apps[i].name
    requires w.apps[i].task.None? && app.task == Some(handle) && handle !in w.kernel.live
    ensures Inv(w.(kernel := Create(w.kernel, handle, i), apps := w.apps[i := app]))
  {
    hide Sound, CountRunning;
    CountUpdate(w.apps, i, app);
    LaunchKeepsOwned(w, i, app, handle);
    RunningOwns(w, i);
    StateOf(app, w);
  }

  lemma LaunchKeepsOwned(w: World, i: nat, app: App, handle: Handle)
    requires Owned(w) && i < |w.apps| && w.apps[i].task.None? && app.task == Some(handle) && handle !in w.kernel.live
    ensures Owned(w.(kernel := Create(w.kernel, handle, i), apps := w.apps[i := app]))
  {
  }

  /** Deleting the task of a record that owns one. */
  lemma Kill(w: World, i: nat, app: App)
    requires Inv(w) && i < |w.apps| && Sound(app, w.clock) && app.name == w.apps[i].name
    requires w.apps[i].task.Some? && app.task.None?
    ensures Inv(w.(kernel := Delete(w.kernel, w.apps[i].task.value), apps := w.apps[i := app]))
  {
    hide Sound, CountRunning;
    CountUpdate(w.apps, i, app);
    KillKeepsOwned(w, i, app);
    RunningOwns(w, i);
    StateOf(app, w);
  }

  lemma KillKeepsOwned(w: World, i: nat, app: App)
    requires Owned(w) && i < |w.apps| && w.apps[i].task.Some? && app.task.None?
    ensures Owned(w.(kernel := Delete(w.kernel, w.apps[i].task.value), apps := w.apps[i := app]))
  {
  }

  lemma RunningOwns(w: World, i: nat)
    requires Inv(w) && i < |w.apps|
    ensures w.apps[i].state.Running? <==> w.apps[i].task.Some?
  {
  }

  lemma StateOf(app: App, w: World)
    requires Sound(app, w.clock)
    ensures app.state.Running? <==> app.task.Some?
  {
  }

  lemma StartIsSound(w: World, i: nat, p: Platform)
    requires Inv(w) && i < |w.apps|
    ensures Inv(Start(w, i, p))
  {
    hide Inv, Owned, SafeName;
    var app := w.apps[i];
    assert Sound(app, w.clock) by { Get(w, i); }
    if app.task.None? {
      if !p.heap {
        Replace(w, i, app.(failure := "insufficient heap", state := Failed));
      } else if !Grants(p, w.kernel) {
        Replace(w, i, app.(failure := "task allocation failed", state := Failed));
      } else {
        Launch(w, i, app.(task := p.handle, state := Running, failure := "", heartbeat := w.Now(),
                          book := app.book.(beat := w.clock)), p.handle.value);
      }
    }
  }

  lemma Get(w: World, i: nat)
    requires Inv(w) && i < |w.apps|
    ensures Sound(w.apps[i], w.clock)
  {
  }

  lemma {:induction false} CountAppend(apps: seq<App>, app: App)
    ensures CountRunning(apps + [app]) == CountRunning(apps) + if app.state.Running? then 1 else 0
    decreases |apps|
  {
    if apps == [] {
      assert apps + [app] == [app] && [app][1..] == [];
    } else {
      assert (apps + [app])[1..] == apps[1..] + [app];
      CountAppend(apps[1..], app);
    }
  }

  lemma NewAppIsSound(name: string, clock: nat)
    requires SafeName(name)
    ensures Sound(NewApp(name, false, 38, 500), clock)
  {
    hide SafeName;
  }

  /** A record may be added under a new name. */
  lemma Register(w: World, name: string)
    requires Inv(w) && |w.apps| < MAX_APPS && Find(w.apps, name) == |w.apps| && SafeName(name)
    ensures Inv(w.(apps := w.apps + [NewApp(name, false, 38, 500)]))
  {
    hide Sound, SafeName, CountRunning, Find;
    var app := NewApp(name, false, 38, 500);
    CountAppend(w.apps, app);
    NewAppIsSound(name, w.clock);
    Get(w, 0);
    FindMisses(w.apps, name);
  }

  lemma FindMisses(apps: seq<App>, name: string)
    requires Find(apps, name) == |apps|
    ensures forall i :: 0 <= i < |apps| ==> apps[i].name != name
  {
  }

  lemma RunIsSound(w: World, name: string, bundle: Bundle, p: Platform)
    requires Inv(w)
    ensures Inv(Run(w, name, bundle, p))
  {
    hide Inv, Start, SafeName;
    var i := Find(w.apps, name);
    if i < |w.apps| {
      StartIsSound(w, i, p);
    } else if SafeName(name) && |w.apps| < MAX_APPS {
      Register(w, name);
      StartIsSound(w.(apps := w.apps + [NewApp(name, false, 38, 500)]), i, p);
    }
  }

  lemma StopIsSound(w: World, name: string)
    requires Inv(w)
    ensures Inv(Stop(w, name))
  {
    hide Inv, SafeName;
    var i := Find(w.apps, name);
    if i < |w.apps| {
      Get(w, i);
      if w.apps[i].task.Some? {
        Kill(w, i, w.apps[i].(task := None, state := Stopped));
      }
    }
  }

  lemma OwnerOf(w: World, handle: Handle)
    requires Inv(w) && handle in w.kernel.live
    ensures w.kernel.live[handle] < |w.apps| && w.apps[w.kernel.live[handle]].task == Some(handle)
  {
  }

  lemma BeatIsSound(w: World, handle: Handle, watermark: nat)
    requires Inv(w)
    ensures Inv(Beat(w, handle, watermark))
  {
    hide Inv, SafeName;
    if handle in w.kernel.live {
      OwnerOf(w, handle);
      var i := w.kernel.live[handle];
      Get(w, i);
      var app := w.apps[i].(heartbeat := w.Now(), stackWatermark := watermark,
                            book := w.apps[i].book.(beat := w.clock));
      if watermark < MINIMUM_STACK_WORDS {
        Kill(w, i, app.(failure := "stack resource limit", state := Failed, task := None));
      } else {
        Replace(w, i, app);
      }
    }
  }

  /** A start that follows a kill, whatever the platform answers. */
  lemma RestartIsSound(w: World, i: nat, charged: App, p: Platform)
    requires Inv(w) && i < |w.apps| && w.apps[i].task.Some? && charged.task.None?
    requires charged.name == w.apps[i].name && Sound(charged.(state := Stopped), w.clock)
    ensures Inv(Start(w.(kernel := Delete(w.kernel, w.apps[i].task.value), apps := w.apps[i := charged]), i, p))
  {
    hide Inv, SafeName;
    var kernel := Delete(w.kernel, w.apps[i].task.value);
    if !p.heap {
      Kill(w, i, charged.(failure := "insufficient heap", state := Failed));
      assert w.apps[i := charged][i := charged.(failure := "insufficient heap", state := Failed)]
          == w.apps[i := charged.(failure := "insufficient heap", state := Failed)];
    } else if !Grants(p, kernel) {
      Kill(w, i, charged.(failure := "task allocation failed", state := Failed));
      assert w.apps[i := charged][i := charged.(failure := "task allocation failed", state := Failed)]
          == w.apps[i := charged.(failure := "task allocation failed", state := Failed)];
    } else {
      var stopped := charged.(state := Stopped);
      var started := charged.(task := p.handle, state := Running, failure := "", heartbeat := w.Now(),
                              book := charged.book.(beat := w.clock));
      Kill(w, i, stopped);
      var between := w.(kernel := kernel, apps := w.apps[i := stopped]);
      Launch(between, i, started, p.handle.value);
      assert between.apps[i := started] == w.apps[i := started] == w.apps[i := charged][i := started];
    }
  }

  /** The treatment of one record keeps the invariant, however old the pass's reading of the clock is. */
  lemma SuperviseOneIsSound(w: World, i: nat, since: nat, p: Platform)
    requires Inv(w) && i < |w.apps|
    ensures Inv(SuperviseOne(w, i, since, p))
    ensures SuperviseOne(w, i, since, p).clock == w.clock && SuperviseOne(w, i, since, p).pass == w.pass
  {
    hide Inv, SafeName, Start;
    var app := w.apps[i];
    Get(w, i);
    if Stalled(w.hz, app, since) {
      var killed := app.(task := None, book := app.book.(kills := app.book.kills + 1));
      if app.restartCount >= MAXIMUM_RESTARTS {
        Kill(w, i, killed.(state := Failed, failure := "heartbeat timeout"));
      } else {
        var charged := killed.(restartCount := app.restartCount + 1);
        RestartIsSound(w, i, charged, p);
        StartKeepsClock(w.(kernel := Delete(w.kernel, app.task.value), apps := w.apps[i := charged]), i, p);
      }
    }
  }

  lemma StartKeepsClock(w: World, i: nat, p: Platform)
    requires i < |w.apps|
    ensures Start(w, i, p).clock == w.clock && Start(w, i, p).pass == w.pass
  {
  }

  lemma PassOnly(w: World, pass: Pass)
    requires Inv(w) && (pass.Passing? ==> pass.since <= w.clock)
    ensures Inv(w.(pass := pass))
  {
    hide Sound;
  }

  lemma TurnIsSound(w: World, p: Platform)
    requires Inv(w)
    ensures Inv(TakeTurn(w, p))
  {
    hide Inv, SuperviseOne;
    match w.pass
    case Idle =>
    case Passing(since, next) =>
      PassInPast(w);
      if next < |w.apps| {
        SuperviseOneIsSound(w, next, since, p);
        PassOnly(SuperviseOne(w, next, since, p), Passing(since, next + 1));
      } else {
        PassOnly(w, Idle);
      }
  }

  lemma PassInPast(w: World)
    requires Inv(w)
    ensures w.pass.Passing? ==> w.pass.since <= w.clock
  {
  }

  lemma ElapseIsSound(w: World, ticks: nat)
    requires Inv(w)
    ensures Inv(w.(clock := w.clock + ticks))
  {
    hide SafeName;
  }

  lemma StepIsSound(w: World, e: Event)
    requires Inv(w)
    ensures Inv(Step(w, e))
  {
    hide Inv, Run, Stop, Beat, TakeTurn;
    match e
    case RunCommand(name, bundle, p) => RunIsSound(w, name, bundle, p);
    case StopCommand(name) => StopIsSound(w, name);
    case TaskPass(handle, watermark) => BeatIsSound(w, handle, watermark);
    case PassBegins => PassOnly(w, Passing(w.clock, 0));
    case Turn(p) => TurnIsSound(w, p);
    case Elapse(ticks) => ElapseIsSound(w, ticks);
  }

  lemma {:induction false} StepsAreSound(w: World, events: seq<Event>)
    requires Inv(w)
    ensures Inv(Steps(w, events))
    decreases |events|
  {
    hide Inv, Step;
    if events != [] {
      StepIsSound(w, events[0]);
      StepsAreSound(Step(w, events[0]), events[1..]);
    }
  }
}
