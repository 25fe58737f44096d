# Verified models of the esp32shell firmware

A Dafny model of the parts of esp32shell whose behaviour is hardest to see from one
function: the interactive shell and its dispatcher, the application runtime, Wi-Fi
failover, and the small storage algorithms around them. `dafny verify dfyconfig.toml`
checks every file here.

Code that changes state step by step is modelled by a class or a loop, and each of
its methods is proved to compute a function of the old state. The theorems are about
these functions: what every step keeps, what holds over whole runs, and which
operations undo one another.

| Files | Subject |
|---|---|
| `CStrings`, `CommandCore`, `Routing`, `Dispatching` | C strings, the dispatcher as a table of words, its ordered tests, and what each line does |
| `ShellSession`, `Terminal`, `Typing` | the ESP-IDF session, what the user's terminal shows, and that typing is not lost |
| `Transcript` | every byte both shells send, and what becomes of the device, over whole runs |
| `SerialShell`, `HostKey` | the Arduino line reader, its agreement with the session, and host-key provisioning over it |
| `AppRuntime`, `Supervision`, `Restarts`, `Ticks` | apps, their tasks and their supervisor, over a 32-bit tick that wraps |
| `WifiService`, `WifiRotation` | the cooperative Wi-Fi service of the Arduino image |
| `WifiStation`, `Failover` | the polling failover task of the ESP-IDF image |
| `WifiProfiles`, `FileReplace`, `LogRing` | profiles in NVS, replacement of files, the two ring logs |
| `Partitions` | the partition table check |

## Results

- **Shell.** Any complete list of tests, in any order, routes a line by a lookup of its
  text before the first space. What a session dispatches and sends depends on the
  transport only through the concatenated bytes. After any printable typing the
  terminal's row shows the prompt and the pending line. Typed lines, with whatever
  corrections, are dispatched as edited, up to the first `exit` or `quit`; all that is sent is
  their echo, the answers of the services and the prompts, and the device is what the
  dispatched lines have made of it. On one stream
  of lines of at most 4096 bytes without erase keys both shells dispatch the same non-empty
  lines up to the first that closes the session.
- **Runtime.** In every interleaving of commands, task passes, turns of the supervisor and
  time, also within a supervisor pass, the live tasks are exactly those the running apps
  own, nothing dead is deleted, and creations minus deletions is the number of running
  apps. Over a run an app is killed once for each turn that finds it overdue, by the clock
  as the pass has read it, modulo 2^32; at most 3 restarts for each app are attempted and
  12 in all.
- **Wi-Fi.** Attempts of the cooperative service are round-robin over any number of
  slots and spaced under any driver. The polling task is connected or makes an attempt
  within 10 s, 500 ms and two poll gaps of any reachable state, across the wrap of the tick.
- **Storage.** A host key, a Wi-Fi profile and a file, each entered as a command line,
  come back byte for byte; a stop at any point of an upload leaves the old or the new
  content, unless a failing close loses bytes; both ring logs yield the last 64 accepted
  messages despite stale bytes; the partition check is characterised for every table.

## Where the code falls short of what is promised

- A lone LF that follows a CR, with at most erasures between, is taken for the rest of a
  CRLF, since an erasure does not clear the flag (`Typing.LoneLfIsLost`). A session dispatches
  its lines as typed exactly when no line up to the first closing one is lost in this way
  (`Typing.RoundTripIffNoneLost`).
- A NUL is stored but echoes nothing, so erasing it takes a byte of the prompt off the
  screen (`Terminal.NulBreaksAgreement`). On an input of typeable bytes and NULs the screen
  agrees throughout exactly when no NUL arrives at an open session whose line has room
  (`Terminal.ScreenAgreesIff`).
- `docs/ARCHITECTURE.md:26` puts both shells on `ShellSession`, but the Arduino sketch has
  a reader of its own, with no erase key and one more byte of line. The two stay in step up
  to a close exactly when no erase key and no 4097th byte of a line arrives before it
  (`SerialShell.ReadersInStepIff`); `EraseKeyTellsApart` and `OneByteTooMany` show what each does.
- A supervisor pass reads the clock once. An app that beats at a later tick, before its
  own turn, looks silent for almost 2^32 ticks and is killed (`Restarts.FreshAppIsKilled`).
  The verdict is exact for every app that has not beaten since the reading
  (`Restarts.StalledIsOverdue`), and an app whose signs of life come in time is killed exactly
  when a turn finds that it has (`Restarts.HeardAppIsKilledIffFresh`).
- `docs/ARCHITECTURE.md:65-66` promises bounded timeouts and rotation after failure. The
  Arduino service never interrupts a driver that goes on reporting that it is connecting:
  a run makes a request exactly when some tick finds the driver neither connected nor
  connecting and the wait over (`WifiRotation.RequestedIffReady`). The ESP-IDF task, when
  the driver accepts a profile but refuses to connect, tries the same slot again in that
  poll; the other slot gets that second turn exactly when the configuration was refused
  (`Failover.SecondTurn`).
- `wifi-config` without a slot misreads its arguments exactly when the ssid is `0` or `1`
  (`WifiProfiles.ParseUnnumbered`).
- `fs-write` looks at the result of neither the close nor the rename. A close that fails
  with bytes lost lets a cut file replace the target under a reported success
  (`FileReplace.FailedCloseTearsTheTarget`); the target is whole at every point exactly when
  this does not happen, or leaves what the target held before (`FileReplace.CrashSafe`), and
  `FileReplace.ReportedSuccess` says exactly what a reported success is worth.
- `fs-read` does not tell a read that fails half-way from the end of the file. A NUL-free
  file is printed whole exactly when it has at most 512 bytes and all of them are read
  (`FileReplace.ReadIsExact`).
- The partition check reports an overlap of rows that are apart exactly when a row of
  negative size starts inside another and ends at or before that one's start
  (`Partitions.MisjudgedIffBackwards`). What it accepts is free of overlaps for all sizes.

## Assumptions

- A C `char` is a Dafny `char`. A C string ends at its first NUL; an Arduino `String` keeps NULs.
- Device services are any deterministic function of a device state, a command and its
  arguments; the theorems about the shells hold for every such function. Null pointers are
  modelled only where a parameter is an `Option`.
- A transport is a finite run of polls; bytes written to it always arrive.
- The sources take no lock, so each command, each pass of a task's loop, each turn of the
  supervisor's loop, each poll and each event handler is one atomic step.
- The kernel never gives a new task the handle of a live one; it may reuse dead handles.
- The tick rate is a parameter: 1 to 1000 Hz. For the failover its intervals and the
  poll gap stay below the tick's range; its task may start at any time.
- Times given to the Arduino Wi-Fi service do not wrap. Its number of slots is a parameter.
- A `rename` is atomic. A close that succeeds puts the whole file on the flash; before it,
  and after one that fails, any part from the start of the file may be there. Writes to NVS and to `Preferences` take effect when they succeed;
  those to `Preferences` always succeed.
- SHA-256 is a parameter. Verification of a signed bundle is an answer from outside.
- Python's `sorted` is modelled as an insertion sort by the tuple order.
- The terminal has no line wrap: append, backspace, CR and LF only.

## Model

| member | source | states |
|---|---|---|
| `Routing.TrimLine` | firmware/arduino/esp32shell/command_core.h:63-65 | the two trimming loops: leading blanks move the pointer, trailing ones shorten the length only |
| `Routing.TryInOrder` | firmware/arduino/esp32shell/command_core.h:71-140 | the ordered tests yield the first that matches |
| `Routing.DispatchLine` | firmware/arduino/esp32shell/command_core.h:56-143 | the dispatcher: status, device and printed lines are those of the table lookup, one service call at most |
| `Routing.MatchesByFirstWord` | firmware/arduino/esp32shell/command_core.h:146-152 | a test matches iff its word is the text before the first space and it wants what follows |
| `Routing.AtMostOneTestMatches` | firmware/arduino/esp32shell/command_core.h:71-152 | no test shadows another |
| `Routing.ChainIsComplete` | firmware/arduino/esp32shell/command_core.h:71-140 | every word is tested bare, and with arguments exactly those whose service takes them |
| `Routing.RouteIsTableLookup` | firmware/arduino/esp32shell/command_core.h:71-142 | any complete list of tests routes every line by the table of first words |
| `Routing.OrderIsImmaterial` | firmware/arduino/esp32shell/command_core.h:71-142 | any permutation of the tests routes every line alike |
| `Routing.RouteOf` | firmware/arduino/esp32shell/command_core.h:82-139 | a word and arguments that are not all blank reach the service with every byte, trailing blanks included |
| `Routing.LeadingBlanksNeverMatter` | firmware/arduino/esp32shell/command_core.h:63 | blanks before a line never change its route |
| `Routing.ClosingLines` | firmware/arduino/esp32shell/command_core.h:78-81 | a line closes the session iff it trims to `exit` or `quit` |
| `Dispatching.NothingIff` | firmware/arduino/esp32shell/command_core.h:66-70 | nothing is asked for iff the line trims to nothing, and it is refused unread iff it trims to more than 4096 bytes |
| `Dispatching.AnswerIff` | firmware/arduino/esp32shell/command_core.h:71-81 | the help and version texts and the close each belong to their word alone on the line |
| `Dispatching.UsageIff` | firmware/arduino/esp32shell/command_core.h:84-139 | a usage is printed iff its own word, of the thirteen that take arguments, stands alone |
| `Dispatching.CallIff` | firmware/arduino/esp32shell/command_core.h:71-140 | for every line, which service is called and with what: the one its first word names, with nothing or with every byte after the space |
| `Dispatching.BlanksAround` | firmware/arduino/esp32shell/command_core.h:63-65 | spaces and tabs around a word do not matter |
| `Dispatching.ServiceDecides` | firmware/arduino/esp32shell/command_core.h:73-140 | the lines of the service's reply are printed, its state is kept, and a refusal is reported for nine commands |
| `Dispatching.OnlyServicesTouchTheDevice` | firmware/arduino/esp32shell/command_core.h:66-142 | every line that calls no service leaves the device alone, a close apart; status and text of each |
| `ShellSession.Shell.Run` | firmware/common/shell_session.h:25-76 | the whole session: what is sent, dispatched and returned is a function of the concatenated bytes |
| `ShellSession.Shell.Chunk` | firmware/common/shell_session.h:42-73 | one read of any length has the effect of its bytes one by one, up to a closing command |
| `ShellSession.Shell.Key` | firmware/common/shell_session.h:43-72 | one byte: line end, erasure, storage with echo, or overflow |
| `ShellSession.Shell.Submit` | firmware/common/shell_session.h:49-57 | the terminated buffer is dispatched up to its first NUL, over whatever the buffer held before |
| `ShellSession.FeedConcat` | firmware/common/shell_session.h:34-75 | feeding two pieces in turn is feeding their concatenation, so a CRLF may be split |
| `ShellSession.SplittingAReadIsInvisible` | firmware/common/shell_session.h:39-42 | splitting a read, with a would-block between, delivers the same bytes |
| `ShellSession.LeftOverBytesAreIgnored` | firmware/common/shell_session.h:52-55 | bytes that follow a closing command change nothing |
| `ShellSession.LinesFit` | firmware/common/shell_session.h:63-72 | the pending line fits its buffer, and no dispatched line takes the dispatcher's too-long branch |
| `Transcript.SessionDevice` | firmware/common/shell_session.h:52-53 | for any bytes, the device is what the dispatched lines, one after another, have made of it |
| `Transcript.SessionTranscript` | firmware/common/shell_session.h:25-76 | for any typed lines, all that is sent: banner, prompt, and for each submitted line its echo, CRLF, the lines of its reply and a prompt |
| `Transcript.KeysAreEchoed` | firmware/common/shell_session.h:58-67 | what keystrokes show: each stored byte, and blanks over an erased one |
| `Transcript.OverflowIsReported` | firmware/common/shell_session.h:68-72 | a 4097th byte drops the line, says so, and brings no prompt and no dispatch |
| `Transcript.NothingAfterTheEnd` | firmware/common/shell_session.h:37-41 | nothing a transport offers after it has ended is received |
| `Terminal.ScreenAgrees` | firmware/common/shell_session.h:25-74 | after any typeable input the cursor's row is the prompt (nothing after an overflow) and the pending line, then blanks |
| `Terminal.PressAgrees` | firmware/common/shell_session.h:43-72 | every typeable byte keeps that agreement |
| `Terminal.EraseAgrees` | firmware/common/shell_session.h:58-62 | an erasure takes the last byte off the screen and the line together |
| `Terminal.StoredNulBreaksAgreement` | firmware/common/shell_session.h:63-67 | a NUL stored in any agreeing open session breaks agreement at once |
| `Terminal.AlwaysAgreesIff` | firmware/common/shell_session.h:43-72 | from any agreeing state, the screen agrees after every prefix of typeable bytes and NULs iff no NUL arrives at an open session whose line has room |
| `Terminal.ScreenAgreesIff` | firmware/common/shell_session.h:25-74 | the same iff from the start of a session |
| `Terminal.NulBreaksAgreement` | firmware/common/shell_session.h:58-67 | the failing input of that iff: a NUL and an erasure leave a damaged prompt |
| `Typing.FeedKeys` | firmware/common/shell_session.h:58-67 | keystrokes leave their edited text pending; a CR before is forgotten iff some key is stored |
| `Typing.FeedEnding` | firmware/common/shell_session.h:44-57 | CR, LF and CRLF each dispatch the pending line once, except an LF taken for the rest of a CRLF |
| `Typing.TypedLinesAreDispatched` | firmware/common/shell_session.h:42-72 | exactly the submitted lines are dispatched, in order, up to the first that closes |
| `Typing.AllSubmittedIffNoneLost` | firmware/common/shell_session.h:44-49 | every typed line is submitted iff no lone LF follows a CR with only erasures between |
| `Typing.RoundTripIffNoneLost` | firmware/common/shell_session.h:42-72 | a fresh session dispatches lines as typed iff none up to the first closing one is lost |
| `Typing.LoneLfIsLost` | firmware/common/shell_session.h:44-49 | a lost line in a session: of `a`, CR and a lone LF only `a` is dispatched |
| `Typing.TypingRoundTrip` | firmware/common/shell_session.h:42-72 | a fresh session dispatches typed lines as edited, whatever mix of line ends is used |
| `SerialShell.Sketch.Loop` | firmware/arduino/esp32shell/esp32shell.ino:500-519 | one call of the reader has the effect of its available bytes one by one |
| `SerialShell.Sketch.Submit` | firmware/arduino/esp32shell/esp32shell.ino:507-512 | the pending line is dispatched up to its first NUL, and reading goes on after any status |
| `Transcript.SketchTranscript` | firmware/arduino/esp32shell/esp32shell.ino:500-519 | for any plain lines, all that the sketch writes: each echo, line end, the reply's lines and the prompt |
| `Transcript.SketchDevice` | firmware/arduino/esp32shell/esp32shell.ino:509 | for any bytes, the device is what the dispatched lines have made of it |
| `Transcript.SketchDropsTheRest` | firmware/arduino/esp32shell/esp32shell.ino:514 | bytes beyond the 4097th are neither kept nor echoed |
| `SerialShell.StepTogether` | firmware/arduino/esp32shell/esp32shell.ino:501-518 | one byte keeps both readers' lines and line-ending flags equal, or closes the session |
| `SerialShell.ReadersAgreeFrom` | firmware/arduino/esp32shell/esp32shell.ino:500-519 | from any two states in step, on any stream of lines that fit, the readers stay in step until a close |
| `SerialShell.ReadersAgree` | firmware/arduino/esp32shell/esp32shell.ino:500-519 | both shells dispatch the same non-empty lines up to the first close |
| `SerialShell.ExtraEmptyDispatch` | firmware/arduino/esp32shell/esp32shell.ino:507 | where the session dispatches a line and the reader none, that line is empty |
| `SerialShell.DividingByte` | firmware/arduino/esp32shell/esp32shell.ino:514-518 | from any state in step, an erase key or a 4097th byte parts the pending lines at once |
| `SerialShell.AlwaysInStepIff` | firmware/arduino/esp32shell/esp32shell.ino:500-519 | from any state in step, the readers stay in step after every prefix up to a close iff no such byte arrives before it |
| `SerialShell.ReadersInStepIff` | firmware/arduino/esp32shell/esp32shell.ino:500-519 | the same iff from the start, for every stream |
| `SerialShell.EraseKeyTellsApart` | firmware/arduino/esp32shell/esp32shell.ino:514-516 | a key and its erasure: nothing left to dispatch in the session, both bytes dispatched by the sketch |
| `SerialShell.OneByteTooMany` | firmware/arduino/esp32shell/esp32shell.ino:514 | every plain line of 4097 bytes is dispatched whole by the sketch and dropped by the session |
| `HostKey.DecodeHexInto` | firmware/arduino/esp32shell/esp32shell.ino:459-476 | the decoding loop fills the buffer with the decoded bytes and leaves the rest of it alone |
| `HostKey.DecodeHexAccepts` | firmware/arduino/esp32shell/esp32shell.ino:459-476 | exactly non-empty even-length hexadecimal text that fits is accepted; re-encoding gives it in upper case |
| `HostKey.DecodeUndoesEncode` | tools/provision_ssh.ps1:77 | decoding the upper-case Base16 text (section 8 of RFC 4648) of any bytes that fit gives them back |
| `HostKey.HostKeyArguments` | firmware/arduino/esp32shell/esp32shell.ino:195-228 | `config-set ssh_host_key` with the encoding of a key of 128 to 1984 bytes stores that key and nothing else |
| `HostKey.ProvisioningLineIsPlain` | tools/provision_ssh.ps1:108 | the provisioning line fits 4096 bytes and holds no NUL and no line end |
| `HostKey.HostKeyRoundTrip` | firmware/arduino/esp32shell/esp32shell.ino:195-228 | a key sent in hexadecimal through reader, dispatcher and decoder is stored byte for byte |
| `HostKey.PasswordSetting` | firmware/arduino/esp32shell/esp32shell.ino:205-212 | a password is taken iff it has 12 bytes with an upper-case letter, a lower-case one and a digit; only its digest is stored |
| `HostKey.HostKeySetting` | firmware/arduino/esp32shell/esp32shell.ino:213-223 | a host key is taken iff it is an even number of 256 to 3968 hexadecimal digits, and stored decoded |
| `HostKey.OtherSetting` | firmware/arduino/esp32shell/esp32shell.ino:200-225 | the three other allowed keys store their value; any other key is refused |
| `HostKey.RefusedSettingChangesNothing` | firmware/arduino/esp32shell/esp32shell.ino:195-221 | a refused setting leaves the preferences alone |
| `HostKey.PasswordIsNeverStored` | firmware/arduino/esp32shell/esp32shell.ino:195-228 | no setting ever stores a plain password |
| `AppRuntime.Runtime.constructor` | firmware/esp-idf/main/idf_app_runtime.cpp:101-106 | the two built-in records, stopped |
| `AppRuntime.Runtime.FindApp` | firmware/esp-idf/main/idf_app_runtime.cpp:116-121 | the first record with the name, or none |
| `AppRuntime.Runtime.StartApp` | firmware/esp-idf/main/idf_app_runtime.cpp:170-183 | refused when running, without heap or without a task; otherwise a new task, running, with a fresh heartbeat |
| `AppRuntime.Runtime.RunApp` | firmware/esp-idf/main/idf_app_runtime.cpp:185-196 | an unknown name is verified, checked for support and for room, recorded and started; true iff a task was created |
| `AppRuntime.Runtime.StopApp` | firmware/esp-idf/main/idf_app_runtime.cpp:198-204 | deletes the task of a running app and marks it stopped; true iff an app lost its task |
| `AppRuntime.Runtime.TaskPass` | firmware/esp-idf/main/idf_app_runtime.cpp:217-241 | one pass beats; a task short of stack fails its app and deletes itself |
| `AppRuntime.Runtime.SuperviseApp` | firmware/esp-idf/main/idf_app_runtime.cpp:253-269 | against a reading of the clock of any age, a stalled app is killed, then restarted within its budget or failed |
| `AppRuntime.Runtime.Supervise` | firmware/esp-idf/main/idf_app_runtime.cpp:251-270 | a pass, with anything by others before each of its turns, is a run of atomic steps against one reading of the clock |
| `Supervision.RestartIsSound` | firmware/esp-idf/main/idf_app_runtime.cpp:258-267 | kill and restart together keep task ownership, whatever the platform answers |
| `Supervision.SuperviseOneIsSound` | firmware/esp-idf/main/idf_app_runtime.cpp:253-269 | the treatment of one record keeps the invariant, however old the pass's reading of the clock |
| `Supervision.StepIsSound` | firmware/esp-idf/main/idf_app_runtime.cpp:170-270 | every command, task pass, start and turn of a supervisor pass, and lapse of time keeps the invariant |
| `Supervision.StepsAreSound` | firmware/esp-idf/main/idf_app_runtime.cpp:170-270 | the invariant holds along every interleaving, within supervisor passes too |
| `Restarts.TaskOwnership` | firmware/esp-idf/main/idf_app_runtime.cpp:170-270 | running iff a task is owned, failed iff a reason is recorded, owned tasks distinct and exactly the live ones, nothing dead deleted, creations minus deletions is the number running |
| `Restarts.RecordsWereApproved` | firmware/esp-idf/main/idf_app_runtime.cpp:185-196 | every record a run adds had a command of its name in that run whose bundle was genuine and supported |
| `Restarts.RecordsAreLegitimate` | firmware/esp-idf/main/idf_app_runtime.cpp:86-132 | in every run from a boot: the two built-in records, at most two more, distinct names that need no care in a path, each added one approved |
| `Restarts.RunningAfterRun` | firmware/esp-idf/main/idf_app_runtime.cpp:170-196 | after a run command the app runs iff it ran before, or was known or approved with room, and got heap and a task |
| `Restarts.WhyNotStarted` | firmware/esp-idf/main/idf_app_runtime.cpp:173-182 | an app that could not be started has failed for the reason recorded |
| `Restarts.StoppedAfterStop` | firmware/esp-idf/main/idf_app_runtime.cpp:198-204 | a stop stops a running app of that name and touches no other record |
| `Restarts.BeatOrFail` | firmware/esp-idf/main/idf_app_runtime.cpp:217-230 | a task pass with 256 words of stack left beats and runs on; with fewer the app fails and its task ends |
| `Restarts.RecordsAreStable` | firmware/esp-idf/main/idf_app_runtime.cpp:123-132 | no run removes a record or changes its name, kind, pin or period |
| `Restarts.StalledIsOverdue` | firmware/esp-idf/main/idf_app_runtime.cpp:252-257 | stalled iff the time from heartbeat to the pass's reading, modulo 2^32, exceeds four periods: exact for a heartbeat no newer than the reading, and true of nearly every newer one |
| `Restarts.TurnJudges` | firmware/esp-idf/main/idf_app_runtime.cpp:251-270 | a turn kills a stalled record of its own, restarts or fails it, and leaves every other record as it is |
| `Restarts.KilledIffOverdue` | firmware/esp-idf/main/idf_app_runtime.cpp:251-270 | a step kills an app iff it is the app's turn and finds it overdue; a restart is charged for each attempt |
| `Restarts.SilentAppIsKilled` | firmware/esp-idf/main/idf_app_runtime.cpp:251-268 | an app silent for over four periods and under 2^32 ticks when a pass reads the clock, and silent on, is killed once the pass reaches it |
| `Restarts.KillsAreOverdueTurns` | firmware/esp-idf/main/idf_app_runtime.cpp:251-270 | over any run an app's kills are exactly its turns that found it overdue, charged until the budget is spent |
| `Restarts.TimelyAppIsNeverKilled` | firmware/esp-idf/main/idf_app_runtime.cpp:217-260 | an app whose task passes and starts are at most four periods apart, none between a pass's reading and the app's turn, is never killed or charged |
| `Restarts.HeardAppIsKilledIffFresh` | firmware/esp-idf/main/idf_app_runtime.cpp:217-260 | an app whose signs of life come in time is killed in a run iff some turn finds it beating since the pass read the clock, unless a pass lasts nearly 2^32 ticks |
| `Restarts.FreshAppIsKilled` | firmware/esp-idf/main/idf_app_runtime.cpp:252-258 | a run after which an app has beaten in the current tick and is killed at its turn nevertheless |
| `Restarts.RestartsAreAttempts` | firmware/esp-idf/main/idf_app_runtime.cpp:260-267 | over any run `restartCount` grows by exactly the kills that were followed by an attempt to start |
| `Restarts.RestartBudget` | firmware/esp-idf/main/idf_app_runtime.cpp:260-265 | in every run at most 3 attempts for each app, as many as its `restartCount`, and 12 overall |
| `Restarts.FailedUntilRun` | firmware/esp-idf/main/idf_app_runtime.cpp:185-204 | only an explicit run of its own name changes a failed app's record |
| `Ticks.MinusIsElapsed` | firmware/esp-idf/main/idf_app_runtime.cpp:257 | unsigned tick subtraction is the elapsed time modulo 2^32 |
| `WifiService.Wifi.ConfigureSlot` | firmware/arduino/esp32shell/wifi_service.h:33-45 | stores clipped credentials, enables the slot and allows an attempt at once; refuses a bad slot or ssid |
| `WifiRotation.ConfiguredIff` | firmware/arduino/esp32shell/wifi_service.h:34 | a configuration is taken iff the slot exists and the ssid is not empty; a refused one changes nothing |
| `WifiRotation.ConfiguredIsAttempted` | firmware/arduino/esp32shell/wifi_service.h:35-39 | every attempt on a configured slot uses the ssid and the password it was given, cut to 32 and 64 bytes |
| `WifiRotation.ConfiguredIsTriedAtOnce` | firmware/arduino/esp32shell/wifi_service.h:40-43 | the first tick of an idle driver after a configuration makes an attempt |
| `WifiService.Wifi.ClearOne` | firmware/arduino/esp32shell/wifi_service.h:54-65 | empties a slot; clearing the active one disconnects and ends the wait |
| `WifiService.Wifi.ClearAll` | firmware/arduino/esp32shell/wifi_service.h:47-52 | empties every slot; the wait ends only through the active slot |
| `WifiRotation.OtherSlotsKeepTheirs` | firmware/arduino/esp32shell/wifi_service.h:33-65 | configuring or clearing one slot leaves the profiles of the others |
| `WifiRotation.ClearedIsNotAttempted` | firmware/arduino/esp32shell/wifi_service.h:54-58 | no tick attempts a cleared slot |
| `WifiRotation.AllClearedIsSilent` | firmware/arduino/esp32shell/wifi_service.h:47-52 | after all are cleared nothing is asked of the driver |
| `WifiRotation.ClearingEndsTheWait` | firmware/arduino/esp32shell/wifi_service.h:56-64 | clearing the slot last attempted lets the next idle tick try another at once; clearing another leaves wait and state |
| `WifiService.Wifi.TickAt` | firmware/arduino/esp32shell/wifi_service.h:67-99 | one tick: the new state and the one request, if any, made of the driver |
| `WifiService.Wifi.FindNext` | firmware/arduino/esp32shell/wifi_service.h:120-126 | the first enabled slot in cyclic order, or none |
| `WifiService.Wifi.AnyConfigured` | firmware/arduino/esp32shell/wifi_service.h:116-119 | whether some slot is enabled |
| `WifiRotation.StepKeepsConsistent` | firmware/arduino/esp32shell/wifi_service.h:33-65 | every operation keeps `configured_` equal to "some slot is enabled", and enabled slots usable |
| `WifiRotation.AttemptsRotate` | firmware/arduino/esp32shell/wifi_service.h:84-98 | whatever the driver reports, attempts follow the rotation over the enabled slots |
| `WifiRotation.AttemptsUseStoredCredentials` | firmware/arduino/esp32shell/wifi_service.h:94 | every attempt uses the credentials stored in an enabled slot |
| `WifiRotation.LapIsEnabledSlots` | firmware/arduino/esp32shell/wifi_service.h:120-126 | one lap from any slot meets every enabled slot exactly once |
| `WifiRotation.RotationIsLap` | firmware/arduino/esp32shell/wifi_service.h:98 | advancing past each used slot runs through the lap |
| `WifiRotation.RoundRobin` | firmware/arduino/esp32shell/wifi_service.h:84-98 | any k consecutive attempts, for k enabled slots, use each of them exactly once |
| `WifiRotation.RequestsAreSpaced` | firmware/arduino/esp32shell/wifi_service.h:87-97 | the request after an attempt comes at least 10 s later, after a disconnect at least 500 ms later |
| `WifiRotation.WaitAfterRequest` | firmware/arduino/esp32shell/wifi_service.h:89-97 | the wait after an attempt is exactly 10 s, after a disconnect exactly 500 ms, and nothing else moves it |
| `WifiRotation.BusyDriverIsLeftAlone` | firmware/arduino/esp32shell/wifi_service.h:68-87 | nothing is asked of a driver that reports connected or connecting, nor before the wait is over |
| `WifiRotation.RequestedIffReady` | firmware/arduino/esp32shell/wifi_service.h:67-99 | with an enabled slot, a run makes a request iff some tick finds the driver neither connected nor connecting and the wait over |
| `WifiRotation.DisconnectsAlternate` | firmware/arduino/esp32shell/wifi_service.h:80-93 | between two disconnects of ticks lies an attempt or a report of connecting |
| `WifiRotation.DisconnectIff` | firmware/arduino/esp32shell/wifi_service.h:80-92 | a ready tick disconnects instead of attempting iff the tick before attempted or found the driver connecting |
| `WifiRotation.ConnectingIsNeverTimedOut` | firmware/arduino/esp32shell/wifi_service.h:76-79 | a driver that keeps reporting connecting is asked nothing, however long it takes |
| `WifiRotation.IdleDriverGetsAnAttempt` | firmware/arduino/esp32shell/wifi_service.h:80-98 | an idle driver gets an attempt at once or at an idle tick 500 ms after the disconnect |
| `WifiStation.Wifi.ApplyProfile` | firmware/esp-idf/main/wifi_station.cpp:54-72 | an accepted profile becomes active, moves the rotation and starts the clock even when connecting is refused |
| `WifiStation.Wifi.PollOnce` | firmware/esp-idf/main/wifi_station.cpp:90-108 | one poll: at most two attempts, or the end of an attempt that timed out |
| `WifiStation.Wifi.Status` | firmware/esp-idf/main/wifi_station.cpp:133-155 | an associated station becomes connected while `connecting` stays; the copy returned hides it |
| `WifiStation.Wifi.Take` | firmware/esp-idf/main/wifi_station.cpp:74-155 | each poll, handler and status query is the step of that name in the runs below |
| `Failover.StepsAreSound` | firmware/esp-idf/main/wifi_station.cpp:54-155 | along every punctual run the attempt clock is the true time modulo 2^32 and an attempt seen by a poll is within its 10 s |
| `Failover.FirstChange` | firmware/esp-idf/main/wifi_station.cpp:91-105 | from any state in which nothing has happened yet, a connection or an attempt at a poll comes within the bound |
| `Failover.Progress` | firmware/esp-idf/main/wifi_station.cpp:54-107 | from every state reachable from a start at any tick, with an enabled profile: at some point within 10 s, 500 ms and two gaps, connected or a new attempt |
| `Failover.LostConnectionIsRetried` | firmware/esp-idf/main/wifi_station.cpp:74-94 | after a disconnection, connected or a new attempt within 500 ms and two gaps |
| `Failover.ConnectedIsLeftAlone` | firmware/esp-idf/main/wifi_station.cpp:81-92 | a connection lasts, and no profile is tried, until a disconnection |
| `Failover.AddressConnects` | firmware/esp-idf/main/wifi_station.cpp:81-87 | an address makes the station connected, no longer connecting, until a disconnection, and no profile is tried |
| `Failover.AssociationConnects` | firmware/esp-idf/main/wifi_station.cpp:141-146 | a query that finds the station associated connects it too, but leaves `connecting` to the next address |
| `Failover.AttemptStarts` | firmware/esp-idf/main/wifi_station.cpp:54-72 | an attempt the driver takes leaves the station connecting since now, with the other slot next |
| `Failover.AttemptIsGivenItsTime` | firmware/esp-idf/main/wifi_station.cpp:100-105 | for 10 s no poll ends an attempt or makes another, unless a disconnection or an address is heard |
| `Failover.AttemptExpires` | firmware/esp-idf/main/wifi_station.cpp:100-105 | the first poll after 10 s ends the attempt, starts the cooldown and moves to the other slot |
| `Failover.CooldownIsKept` | firmware/esp-idf/main/wifi_station.cpp:93-97 | for 500 ms after an attempt is started or given up no other is made in any run, a start at tick 0 apart |
| `Failover.OnlyEnabledAreTried` | firmware/esp-idf/main/wifi_station.cpp:55 | along every run only enabled profiles are tried |
| `Failover.StepsRotate` | firmware/esp-idf/main/wifi_station.cpp:54-107 | with both profiles accepted, attempts of different polls alternate slots along any run |
| `Failover.BothSlotsAreTried` | firmware/esp-idf/main/wifi_station.cpp:54-107 | from every state reached from a start at any tick with both profiles enabled and accepted: within two such windows connected, or both slots tried in turn |
| `Failover.SecondTurn` | firmware/esp-idf/main/wifi_station.cpp:66-97 | the second turn of a poll goes to the other slot iff the first profile's configuration was refused |
| `Failover.PollAttempts` | firmware/esp-idf/main/wifi_station.cpp:93-97 | a poll past the cooldown tries some enabled profile |
| `WifiProfiles.ProfileStore.WifiConfig` | firmware/esp-idf/main/idf_command_services.h:127-156 | the writes of `wifi-config`, call by call, up to the first that fails |
| `WifiProfiles.LoadProfiles` | firmware/esp-idf/main/wifi_station.cpp:36-52 | what a boot loads into both slots, the older keys serving slot 0 alone |
| `WifiProfiles.LoadedIff` | firmware/esp-idf/main/wifi_station.cpp:36-52 | a slot is enabled iff its own pair is readable, or for slot 0 the older pair, and holds that pair |
| `WifiProfiles.OtherSlotIsUntouched` | firmware/esp-idf/main/idf_command_services.h:149-152 | whatever calls fail, the other slot loads as before |
| `WifiProfiles.ParseNumbered` | firmware/esp-idf/main/idf_command_services.h:130-143 | a slot digit, a space-free ssid and any password are read back exactly |
| `WifiProfiles.ParseUnnumbered` | firmware/esp-idf/main/idf_command_services.h:130-143 | without a digit the arguments mean slot 0 iff the ssid is neither `0` nor `1` |
| `WifiProfiles.ParseIsSound` | firmware/esp-idf/main/idf_command_services.h:130-143 | accepted arguments have one of the two forms, a space-free ssid of 1 to 32 bytes and a password of 1 to 64 |
| `WifiProfiles.SavedIff` | firmware/esp-idf/main/idf_command_services.h:134-155 | a save is reported iff the arguments are well-formed and every call it needs succeeds |
| `WifiProfiles.ReportedSaveLoads` | firmware/esp-idf/main/idf_command_services.h:144-155 | after a reported save the next boot loads exactly what was named |
| `WifiProfiles.SavedProfileLoads` | firmware/esp-idf/main/wifi_station.cpp:36-52 | a boot after complete writes loads the slot enabled with those strings |
| `WifiProfiles.ProfileRoundTrip` | firmware/esp-idf/main/idf_command_services.h:127-156 | a typed profile survives a reboot byte for byte; the other slot loads as before |
| `WifiProfiles.NamesAreDistinct` | firmware/esp-idf/main/idf_command_services.h:146-152 | the six NVS keys differ and fit 15 characters |
| `FileReplace.Storage.FsWrite` | firmware/esp-idf/main/idf_command_services.h:277 | an upload's verdict, the files it leaves, and the files after each of its calls |
| `FileReplace.Storage.FsRead` | firmware/esp-idf/main/idf_command_services.h:276 | prints what was read up to its first NUL, unless one byte more can be read, or says why not |
| `FileReplace.ReadIsExact` | firmware/esp-idf/main/idf_command_services.h:276 | a NUL-free file is printed whole iff it has at most 512 bytes and all of them are read |
| `FileReplace.PathsAreNeverCut` | firmware/esp-idf/main/idf_command_services.h:50-59 | for every valid path both path buffers hold the whole path |
| `FileReplace.PathIff` | firmware/esp-idf/main/idf_command_services.h:50-59 | a path is accepted iff it is absolute, of at most 64 bytes, and names no parent and no empty component; it lies below `/littlefs` |
| `FileReplace.UploadIff` | firmware/esp-idf/main/idf_command_services.h:277 | an upload is accepted iff it names such a path below `/apps/` and 1 to 512 bytes of content |
| `FileReplace.CrashSafe` | firmware/esp-idf/main/idf_command_services.h:277 | at every point of an upload the target is wholly old or wholly new iff no failing close loses bytes before the rename, or what is left is the old content; nothing but it and its temporary file differs |
| `FileReplace.FailedCloseTearsTheTarget` | firmware/esp-idf/main/idf_command_services.h:277 | the failing input: an empty file replaces the target under a reported success |
| `FileReplace.ReportedSuccess` | firmware/esp-idf/main/idf_command_services.h:277 | after a reported success the target is new iff renamed with nothing lost at the close, or not renamed and new before |
| `FileReplace.WriteIff` | firmware/esp-idf/main/idf_command_services.h:277 | success is reported iff the upload is accepted and opening, writing and flushing succeed |
| `FileReplace.NoTemporaryIsLeft` | firmware/esp-idf/main/idf_command_services.h:277 | the temporary file stays only when the rename or the removal that should take it away fails |
| `FileReplace.ReportedFailure` | firmware/esp-idf/main/idf_command_services.h:277 | after a reported failure every file but the temporary one is as before |
| `FileReplace.FileRoundTrip` | firmware/esp-idf/main/idf_command_services.h:276-277 | 1 to 512 NUL-free bytes uploaded and read through the dispatcher come back exactly when every call succeeds; nothing else changes |
| `LogRing.BoundedLog.Append` | firmware/arduino/esp32shell/device_toolbox.h:25-35 | accepts exactly messages of at most 96 bytes and keeps the ring's relation to all accepted messages |
| `LogRing.BoundedLog.At` | firmware/arduino/esp32shell/device_toolbox.h:37-41 | the entries are the last 64 accepted messages in order |
| `LogRing.RecentAreLast` | firmware/arduino/esp32shell/device_toolbox.h:32-33 | the messages a ring holds are the last 64, or all while there are fewer |
| `LogRing.LogBuffer.Capture` | firmware/esp-idf/main/idf_log_buffer.cpp:23-45 | accepts the trimmed message unless it is empty or another is being stored |
| `LogRing.KeptWhole` | firmware/esp-idf/main/idf_log_buffer.cpp:26-37 | a text of at most 127 bytes is logged whole, whatever line ends follow it |
| `LogRing.KeptCut` | firmware/esp-idf/main/idf_log_buffer.cpp:26-37 | of a longer text the first 127 bytes are logged |
| `LogRing.LogBuffer.ChompLength` | firmware/esp-idf/main/idf_log_buffer.cpp:32-33 | the loop that drops trailing line ends |
| `LogRing.ChompDropsLineEnds` | firmware/esp-idf/main/idf_log_buffer.cpp:32-33 | exactly the run of line ends at the end is dropped |
| `LogRing.LogBuffer.Dump` | firmware/esp-idf/main/idf_log_buffer.cpp:54-67 | prints the last 64 accepted messages in order despite stale bytes after terminators |
| `LogRing.CopyTerminated` | firmware/esp-idf/main/idf_log_buffer.cpp:35-36 | the row holds the message, its later bytes stay, every other row keeps its string |
| `LogRing.CopyPadded` | firmware/arduino/esp32shell/device_toolbox.h:30-31 | the row holds the message and every other row keeps its string |
| `LogRing.FormulasAgree` | firmware/esp-idf/main/idf_log_buffer.cpp:59 | both logs' formulas for the oldest entry agree in every state a ring can be in |
| `Partitions.ValidateRows` | tools/validate_partitions.py:28-42 | the three loops report in order the wrong ranges, overlaps of neighbours and rows beyond flash |
| `Partitions.ActualIsLast` | tools/validate_partitions.py:31 | for each name the dictionary holds the last row that has it |
| `Partitions.SortedIsOrdered` | tools/validate_partitions.py:35 | the sorted ranges are ordered by start, then end, and are a permutation of the rows |
| `Partitions.NoOverlapReported` | tools/validate_partitions.py:36-38 | no overlap is reported iff each range ends before its successor starts |
| `Partitions.SortingKeepsClear` | tools/validate_partitions.py:35-38 | what the check asks of any two rows does not depend on the order of rows |
| `Partitions.NoOverlapIff` | tools/validate_partitions.py:35-38 | no overlap is reported iff of any two rows the one that sorts first ends before the other starts |
| `Partitions.PassingIsSound` | tools/validate_partitions.py:35-38 | a table that passes has all rows pairwise apart, whatever their sizes |
| `Partitions.MisjudgedIffBackwards` | tools/validate_partitions.py:35-38 | rows that are apart are reported iff one of negative size starts inside another and ends at or before that one's start |
| `Partitions.PassingIsExact` | tools/validate_partitions.py:28-42 | any table passes iff required ranges are exact, rows pairwise apart, none lies backwards in that way, and all end within flash |
| `Partitions.ProblemsAreReal` | tools/validate_partitions.py:32-41 | every reported problem is there, in the rows it names |
| `Partitions.ShippedTablePasses` | tools/validate_partitions.py:9-16 | the shipped table passes and fills the flash to its last byte |
| `Partitions.NegativeSizeIsMisjudged` | tools/validate_partitions.py:36-38 | a failing input of that iff: two rows that are apart, reported as overlapping |

## Left out

- Sockets, the SSH handshake and SFTP: foreign calls; a transport that delivers bytes stands in for them.
- SHA-256, Ed25519 and the layout of signed bundles: parameters or answers from outside.
- OTA updates: short guarded sequences over the boot loader's own semantics.
- `app_supervisor.h`, `ssh_session.h`, `security_policy.h`, `storage_policy.h` and the GPIO policy: small lookups; only the password rule appears, inside `config-set`.
- GPIO, LED, heap, uptime and status printing, `snprintf` layouts and help text: output without state.
- Commands of the ESP-IDF services other than `wifi-config`, `fs-read` and `fs-write`. Its `wifi-profile-clear` can never succeed, since its guard asks for two different characters in one place.
- Scripts and the parsing of CSV files; from `tools/provision_ssh.ps1` only the encoding and the command line are used.
- Data races finer than the atomic steps listed under Assumptions.
- The wrap of `unsigned long` inside the Arduino Wi-Fi service, whose comparison of times does not survive it.
- The creation of the supervisor task and of the failover task, and the start-up calls around them.
- The call of `tick` at the end of the Arduino `loop`: the service is modelled on its own.
- Line wrap, tabs and escape sequences on the terminal.
- Null arguments to the dispatcher and to the services behind it.
