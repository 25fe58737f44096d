/**
  The application runtime (firmware/esp-idf/main/idf_app_runtime.h and .cpp): shell
  commands, application tasks and a supervisor share one table of records.
  Each command, each pass of a task's loop and each turn of the supervisor's loop is
  one atomic step, so anything may happen between two records of one supervisor pass.
*/
module AppRuntime {
  import opened CStrings
  import opened Ticks

  const MAX_APPS: nat := 4
  const MINIMUM_STACK_WORDS: nat := 256
  const MAXIMUM_RESTARTS: nat := 3

  type Handle = nat

  datatype State = Stopped | Running | Failed

  /** What the model alone remembers: the last heartbeat on a clock that never wraps, and the supervisor's kills. */
  datatype Book = Book(beat: nat, kills: nat)

  datatype App = App(
    name: string, builtin: bool, state: State, task: Option<Handle>, pin: int, periodMs: nat,
    failure: string, heartbeat: Tick, stackWatermark: nat, restartCount: nat, book: Book)

  /** The kernel: which application each live task runs, and what was ever created and deleted. */
  datatype Kernel = Kernel(live: map<Handle, nat>, created: nat, deleted: nat, deletedDead: bool)

  function Create(k: Kernel, handle: Handle, app: nat): Kernel {
    k.(live := k.live[handle := app], created := k.created + 1)
  }

  function Delete(k: Kernel, handle: Handle): Kernel {
    if handle in k.live then k.(live := k.live - {handle}, deleted := k.deleted + 1)
    else k.(deletedDead := true)
  }

  /** How the platform answers one start: enough heap, and the handle a new task would get. */
  datatype Platform = Platform(heap: bool, handle: Option<Handle>)

  /** A new task never gets the handle of a live one. */
  predicate Grants(p: Platform, k: Kernel) {
    p.handle.Some? && p.handle.value !in k.live
  }

  /** The supervisor between two turns: when the current pass read the clock, and the record that is next. */
  datatype Pass = Idle | Passing(since: nat, next: nat)

  datatype World = World(
    hz: nat, clock: nat, apps: seq<App>, kernel: Kernel, pass: Pass)
  {
    function Now(): Tick {
      At(clock)
    }
  }

  /** Four periods, in ticks. */
  function Timeout(hz: nat, app: App): nat {
    MsToTicks(app.periodMs * 4, hz)
  }

  function NewApp(name: string, builtin: bool, pin: int, periodMs: nat): App {
    App(name, builtin, Stopped, None, pin, periodMs, "", 0, 0, 0, Book(0, 0))
  }

  function Boot(hz: nat): World {
    World(hz, 0, [NewApp("diagnostics", true, -1, 1000), NewApp("led-blink", true, 38, 500)],
          Kernel(map[], 0, 0, false), Idle)
  }

  predicate IsNameChar(c: char) {
    '0' <= c <= '9' || 'a' <= c <= 'z' || 'A' <= c <= 'Z' || c == '-' || c == '_'
  }

  predicate SafeName(name: string) {
    0 < |name| < 24 && forall c <- name :: IsNameChar(c)
  }

  /** The index of the first record with a name, or the number of records. */
  function Find(apps: seq<App>, name: string): (i: nat)
    ensures i <= |apps|
    ensures forall j :: 0 <= j < i ==> apps[j].name != name
    ensures i < |apps| ==> apps[i].name == name
  {
    if apps == [] || apps[0].name == name then 0 else 1 + Find(apps[1..], name)
  }

  function Start(w: World, i: nat, p: Platform): (r: World)
    requires i < |w.apps|
    ensures |r.apps| == |w.apps|
  {
    var app := w.apps[i];
    if app.task.Some? then w
    else if !p.heap then w.(apps := w.apps[i := app.(failure := "insufficient heap", state := Failed)])
    else if !Grants(p, w.kernel) then
      w.(apps := w.apps[i := app.(failure := "task allocation failed", state := Failed)])
    else
      w.(kernel := Create(w.kernel, p.handle.value, i),
         apps := w.apps[i := app.(task := p.handle, state := Running, failure := "",
                                  heartbeat := w.Now(), book := app.book.(beat := w.clock))])
  }

  /** Whether a signed bundle of the name exists and passes verification, and whether its descriptor is supported. */
  datatype Bundle = Bundle(verifies: bool, supported: bool)

  function Run(w: World, name: string, bundle: Bundle, p: Platform): World {
    var i := Find(w.apps, name);
    if i < |w.apps| then Start(w, i, p)
    else if !SafeName(name) || !bundle.verifies then w
    else if !bundle.supported || |w.apps| >= MAX_APPS then w
    else Start(w.(apps := w.apps + [NewApp(name, false, 38, 500)]), i, p)
  }

  function Stop(w: World, name: string): World {
    var i := Find(w.apps, name);
    if i == |w.apps| || w.apps[i].task.None? then w
    else
      w.(kernel := Delete(w.kernel, w.apps[i].task.value),
         apps := w.apps[i := w.apps[i].(task := None, state := Stopped)])
  }

  /** One pass of the loop of a live task, which finds `watermark` words of stack never used. */
  function Beat(w: World, handle: Handle, watermark: nat): World {
    if handle !in w.kernel.live || w.kernel.live[handle] >= |w.apps| then w
    else
      var i := w.kernel.live[handle];
      var app := w.apps[i].(heartbeat := w.Now(), stackWatermark := watermark,
                            book := w.apps[i].book.(beat := w.clock));
      if watermark < MINIMUM_STACK_WORDS then
        w.(kernel := Delete(w.kernel, handle),
           apps := w.apps[i := app.(failure := "stack resource limit", state := Failed, task := None)])
      else w.(apps := w.apps[i := app])
  }

  /** The supervisor's test, on the clock as the pass has read it. */
  predicate Stalled(hz: nat, app: App, since: nat) {
    app.state.Running? && app.task.Some? && Minus(At(since), app.heartbeat) > Timeout(hz, app)
  }

  /** The supervisor's treatment of one record. */
  function SuperviseOne(w: World, i: nat, since: nat, p: Platform): (r: World)
    requires i < |w.apps|
    ensures |r.apps| == |w.apps|
  {
    var app := w.apps[i];
    if !Stalled(w.hz, app, since) then w
    else
      var killed := app.(task := None, book := app.book.(kills := app.book.kills + 1));
      var without := w.(kernel := Delete(w.kernel, app.task.value));
      if app.restartCount >= MAXIMUM_RESTARTS then
        without.(apps := w.apps[i := killed.(state := Failed, failure := "heartbeat timeout")])
      else
        Start(without.(apps := w.apps[i := killed.(restartCount := app.restartCount + 1)]), i, p)
  }

  /** One turn of the supervisor's loop: the next record, or the end of the pass. */
  function TakeTurn(w: World, p: Platform): World {
    match w.pass
    case Idle => w
    case Passing(since, next) =>
      if next >= |w.apps| then w.(pass := Idle)
      else SuperviseOne(w, next, since, p).(pass := Passing(since, next + 1))
  }

  /** One atomic step: a command, a pass of a task, the start or a turn of a supervisor pass, or time. */
  datatype Event =
    | RunCommand(name: string, bundle: Bundle, platform: Platform)
    | StopCommand(name: string)
    | TaskPass(handle: Handle, watermark: nat)
    | PassBegins
    | Turn(answer: Platform)
    | Elapse(ticks: nat)
  {
    predicate Supervisors() {
      PassBegins? || Turn?
    }
  }

  function Step(w: World, e: Event): World {
    match e
    case RunCommand(name, bundle, p) => Run(w, name, bundle, p)
    case StopCommand(name) => Stop(w, name)
    case TaskPass(handle, watermark) => Beat(w, handle, watermark)
    case PassBegins => if w.pass.Idle? then w.(pass := Passing(w.clock, 0)) else w
    case Turn(p) => TakeTurn(w, p)
    case Elapse(ticks) => w.(clock := w.clock + ticks)
  }

  function Steps(w: World, events: seq<Event>): World
    decreases |events|
  {
    if events == [] then w else Steps(Step(w, events[0]), events[1..])
  }

  lemma {:induction false} StepsConcat(w: World, a: seq<Event>, b: seq<Event>)
    ensures Steps(w, a + b) == Steps(Steps(w, a), b)
    decreases |a|
  {
    hide Step;
    if a == [] {
      assert a + b == b;
    } else {
      assert (a + b)[1..] == a[1..] + b;
      StepsConcat(Step(w, a[0]), a[1..], b);
    }
  }

  predicate Others(events: seq<Event>) {
    forall e <- events :: !e.Supervisors()
  }

  lemma OtherKeepsPass(w: World, e: Event)
    requires !e.Supervisors()
    ensures Step(w, e).pass == w.pass && (|w.apps| <= MAX_APPS ==> |Step(w, e).apps| <= MAX_APPS)
  {
    hide SafeName, Grants;
  }

  lemma {:induction false} OthersKeepPass(w: World, events: seq<Event>)
    requires Others(events) && |w.apps| <= MAX_APPS
    ensures Steps(w, events).pass == w.pass && |Steps(w, events).apps| <= MAX_APPS
    decreases |events|
  {
    hide Step;
    if events != [] {
      assert events[0] in events && forall e <- events[1..] :: e in events;
      OtherKeepsPass(w, events[0]);
      OthersKeepPass(Step(w, events[0]), events[1..]);
    }
  }

  /** What may happen around a pass: the steps of others before each turn, and the platform's answer to it. */
  datatype Surroundings = Surroundings(others: nat -> seq<Event>, answers: nat -> Platform) {
    ghost predicate Valid() {
      forall i :: Others(others(i))
    }
  }

  /** All the steps from a turn on to the end of its pass. */
  ghost function Turns(w: World, around: Surroundings): (events: seq<Event>)
    requires around.Valid() && w.pass.Passing? && |w.apps| <= MAX_APPS
    decreases if w.pass.next <= MAX_APPS then MAX_APPS - w.pass.next else 0
  {
    var i := w.pass.next;
    if i >= |w.apps| then [Turn(around.answers(i))]
    else
      var v := Step(w, Turn(around.answers(i)));
      OthersKeepPass(v, around.others(i + 1));
      [Turn(around.answers(i))] + around.others(i + 1) + Turns(Steps(v, around.others(i + 1)), around)
  }

  /** All the steps of one pass and of what happens meanwhile. */
  ghost function PassEvents(w: World, around: Surroundings): seq<Event>
    requires around.Valid() && w.pass.Idle? && |w.apps| <= MAX_APPS
  {
    var begun := Step(w, PassBegins);
    OthersKeepPass(begun, around.others(0));
    [PassBegins] + around.others(0) + Turns(Steps(begun, around.others(0)), around)
  }

  /** The runtime object. The kernel's state and the clock stand in for FreeRTOS. */
  class Runtime {
    const hz: nat
    const apps: array<App>
    var appCount: nat
    var kernel: Kernel
    var clock: nat
    ghost var pass: Pass

    ghost predicate Valid()
      reads this
    {
      apps.Length == MAX_APPS && appCount <= MAX_APPS
    }

    ghost function View(): World
      requires Valid()
      reads this, apps
    {
      World(hz, clock, apps[..appCount], kernel, pass)
    }

    constructor (hz: nat)
      ensures Valid() && View() == Boot(hz) && fresh(apps)
    {
      this.hz := hz;
      var table := new App[MAX_APPS](_ => NewApp("", false, 0, 0));
      table[0] := NewApp("diagnostics", true, -1, 1000);
      table[1] := NewApp("led-blink", true, 38, 500);
      apps := table;
      appCount := 2;
      kernel := Kernel(map[], 0, 0, false);
      clock := 0;
      pass := Idle;
    }

    method FindApp(name: string) returns (i: nat)
      requires Valid()
      ensures i == Find(apps[..appCount], name)
    {
      i := 0;
      while i < appCount && apps[i].name != name
        invariant i <= appCount
        invariant forall j :: 0 <= j < i ==> apps[j].name != name
      {
        i := i + 1;
      }
      FindIs(apps[..appCount], name, i);
    }

    method StartApp(i: nat, p: Platform) returns (ok: bool)
      requires Valid() && i < appCount
      modifies this`kernel, apps
      ensures View() == Start(old(View()), i, p)
      ensures ok <==> old(apps[i].task.None?) && p.heap && Grants(p, old(kernel))
    {
      var app := apps[i];
      if app.task.Some? {
        return false;
      }
      if !p.heap {
        apps[i] := app.(failure := "insufficient heap", state := Failed);
        return false;
      }
      if !Grants(p, kernel) {
        apps[i] := app.(state := Failed, failure := "task allocation failed");
        return false;
      }
      kernel := Create(kernel, p.handle.value, i);
      apps[i] := app.(task := p.handle, state := Running, failure := "",
                      heartbeat := At(clock), book := app.book.(beat := clock));
      ok := true;
    }

    method RunApp(name: string, bundle: Bundle, p: Platform) returns (ok: bool)
      requires Valid()
      modifies this`kernel, this`appCount, apps
      ensures Valid() && View() == Run(old(View()), name, bundle, p)
      ensures ok <==> kernel.created == old(kernel.created) + 1
      ensures !ok ==> kernel == old(kernel)
    {
      var i := FindApp(name);
      if i == appCount {
        if !SafeName(name) || !bundle.verifies {
          return false;
        }
        if !bundle.supported || appCount >= MAX_APPS {
          return false;
        }
        apps[appCount] := NewApp(name, false, 38, 500);
        appCount := appCount + 1;
        assert apps[..appCount] == old(apps[..appCount]) + [NewApp(name, false, 38, 500)];
      }
      ok := StartApp(i, p);
    }

    method StopApp(name: string) returns (ok: bool)
      requires Valid()
      modifies this`kernel, apps
      ensures Valid() && View() == Stop(old(View()), name)
      ensures ok <==> exists i :: 0 <= i < appCount && old(apps[i]).task.Some? && apps[i].task.None?
    {
      var i := FindApp(name);
      if i == appCount || apps[i].task.None? {
        return false;
      }
      kernel := Delete(kernel, apps[i].task.value);
      apps[i] := apps[i].(task := None, state := Stopped);
      ok := true;
    }

    method TaskPass(handle: Handle, watermark: nat)
      requires Valid() && handle in kernel.live && kernel.live[handle] < appCount
      modifies this`kernel, apps
      ensures Valid() && View() == Beat(old(View()), handle, watermark)
    {
      var i := kernel.live[handle];
      apps[i] := apps[i].(heartbeat := At(clock), book := apps[i].book.(beat := clock));
      apps[i] := apps[i].(stackWatermark := watermark);
      if watermark < MINIMUM_STACK_WORDS {
        apps[i] := apps[i].(failure := "stack resource limit", state := Failed, task := None);
        kernel := Delete(kernel, handle);
      }
    }

    /** The body of the supervisor's loop; `now` is the tick that the pass read at the time `since`. */
    method SuperviseApp(i: nat, now: Tick, p: Platform, ghost since: nat)
      requires Valid() && i < appCount && now == At(since)
      modifies this`kernel, apps
      ensures View() == SuperviseOne(old(View()), i, since, p)
    {
      hide Minus, MsToTicks, Start;
      var app := apps[i];
      if app.state != Running || app.task.None? {
        return;
      }
      if Minus(now, app.heartbeat) <= Timeout(hz, app) {
        return;
      }
      kernel := Delete(kernel, app.task.value);
      apps[i] := app.(task := None, book := app.book.(kills := app.book.kills + 1));
      if app.restartCount >= MAXIMUM_RESTARTS {
        apps[i] := apps[i].(state := Failed, failure := "heartbeat timeout");
        return;
      }
      apps[i] := apps[i].(restartCount := app.restartCount + 1);
      assert apps[..appCount] == old(apps[..appCount])[i := apps[i]];
      var started := StartApp(i, p);
    }

    /** A step of a command, of a task or of time. */
    method Other(e: Event)
      requires Valid() && !e.Supervisors()
      modifies this, apps
      ensures Valid() && View() == Step(old(View()), e)
    {
      hide Run, Stop;
      match e
      case RunCommand(name, bundle, p) =>
        var ok := RunApp(name, bundle, p);
      case StopCommand(name) =>
        var ok := StopApp(name);
      case TaskPass(handle, watermark) =>
        if handle in kernel.live && kernel.live[handle] < appCount {
          TaskPass(handle, watermark);
        }
      case Elapse(ticks) =>
        clock := clock + ticks;
    }

    method RunOthers(events: seq<Event>)
      requires Valid() && Others(events)
      modifies this, apps
      ensures Valid() && View() == Steps(old(View()), events) && pass == old(pass)
    {
      hide Step;
      OthersKeepPass(View(), events);
      var k := 0;
      assert events[0..] == events;
      while k < |events|
        invariant k <= |events| && Valid()
        invariant Steps(View(), events[k..]) == Steps(old(View()), events)
      {
        assert events[k] in events && events[k..][1..] == events[k + 1..];
        Other(events[k]);
        k := k + 1;
      }
    }

    /** A whole supervisor pass, with whatever happens before each of its turns: a run of atomic steps. */
    method Supervise(around: Surroundings)
      requires Valid() && pass.Idle? && around.Valid()
      modifies this, apps
      ensures Valid() && View() == Steps(old(View()), PassEvents(old(View()), around))
    {
      hide Minus, SuperviseOne, Others, Step;
      ghost var all := Steps(View(), PassEvents(View(), around));
      BeginOf(View(), around);
      var now := At(clock);
      ghost var since := clock;
      pass := Passing(clock, 0);
      RunOthers(around.others(0));
      var i := 0;
      while i < appCount
        invariant i <= MAX_APPS && Valid() && pass == Passing(since, i)
        invariant Steps(View(), Turns(View(), around)) == all
        decreases MAX_APPS - i
      {
        TurnOf(View(), around);
        SuperviseApp(i, now, around.answers(i), since);
        i := i + 1;
        pass := Passing(since, i);
        RunOthers(around.others(i));
      }
      LastTurnOf(View(), around);
      pass := Idle;
    }
  }

  lemma BeginOf(w: World, around: Surroundings)
    requires around.Valid() && w.pass.Idle? && |w.apps| <= MAX_APPS
    ensures var v := Steps(w.(pass := Passing(w.clock, 0)), around.others(0));
            && v.pass == Passing(w.clock, 0) && |v.apps| <= MAX_APPS
            && Steps(w, PassEvents(w, around)) == Steps(v, Turns(v, around))
  {
    hide Turns, TakeTurn, Run, Stop, Beat;
    var begun := Step(w, PassBegins);
    var v := Steps(begun, around.others(0));
    OthersKeepPass(begun, around.others(0));
    var rest := around.others(0) + Turns(v, around);
    assert PassEvents(w, around) == [PassBegins] + rest && ([PassBegins] + rest)[1..] == rest;
    StepsConcat(begun, around.others(0), Turns(v, around));
  }

  lemma TurnOf(w: World, around: Surroundings)
    requires around.Valid() && w.pass.Passing? && w.pass.next < |w.apps| <= MAX_APPS
    ensures var i := w.pass.next;
            var u := SuperviseOne(w, i, w.pass.since, around.answers(i)).(pass := Passing(w.pass.since, i + 1));
            var v := Steps(u, around.others(i + 1));
            && v.pass == Passing(w.pass.since, i + 1) && |v.apps| <= MAX_APPS
            && Steps(w, Turns(w, around)) == Steps(v, Turns(v, around))
  {
    hide SuperviseOne, Run, Stop, Beat;
    var i := w.pass.next;
    var turn := Turn(around.answers(i));
    var u := Step(w, turn);
    OthersKeepPass(u, around.others(i + 1));
    var v := Steps(u, around.others(i + 1));
    var rest := around.others(i + 1) + Turns(v, around);
    assert Turns(w, around) == [turn] + rest && ([turn] + rest)[1..] == rest;
    StepsConcat(u, around.others(i + 1), Turns(v, around));
  }

  lemma LastTurnOf(w: World, around: Surroundings)
    requires around.Valid() && w.pass.Passing? && |w.apps| <= w.pass.next && |w.apps| <= MAX_APPS
    ensures Steps(w, Turns(w, around)) == w.(pass := Idle)
  {
    var turn := Turn(around.answers(w.pass.next));
    assert [turn][1..] == [];
    assert Steps(w, [turn]) == Step(w, turn);
  }

  lemma FindIs(apps: seq<App>, name: string, i: nat)
    requires i <= |apps| && forall j :: 0 <= j < i ==> apps[j].name != name
    requires i < |apps| ==> apps[i].name == name
    ensures Find(apps, name) == i
  {
  }
}
