/**
  The command dispatcher shared by both firmware images
  (firmware/arduino/esp32shell/command_core.h).
*/
module CommandCore {
  import opened CStrings

  const MAX_COMMAND_LENGTH: nat := 4096

  datatype Status = Ok | Empty | Unknown | Invalid | SessionClosed

  /** One constructor for each command word. */
  datatype Command =
    | Help | Version | DeviceInfo | Uptime | Heap | Reboot | WifiStatus | Exit | Quit
    | WifiConfig | WifiProfiles | WifiProfileClear
    | ConfigList | ConfigGet | ConfigSet | ConfigClear
    | FsList | FsRead | FsWrite | FsRemove
    | Psram | ResetReason | Tasks | GpioModes | GpioRead | GpioWrite
    | Logs | OtaStatus | AppList | AppRun | AppStop | AppStatus
  {
    function Word(): string {
      match this
      case Help => "help"
      case Version => "version"
      case DeviceInfo => "device-info"
      case Uptime => "uptime"
      case Heap => "heap"
      case Reboot => "reboot"
      case WifiStatus => "wifi-status"
      case Exit => "exit"
      case Quit => "quit"
      case WifiConfig => "wifi-config"
      case WifiProfiles => "wifi-profiles"
      case WifiProfileClear => "wifi-profile-clear"
      case ConfigList => "config-list"
      case ConfigGet => "config-get"
      case ConfigSet => "config-set"
      case ConfigClear => "config-clear"
      case FsList => "fs-list"
      case FsRead => "fs-read"
      case FsWrite => "fs-write"
      case FsRemove => "fs-remove"
      case Psram => "psram"
      case ResetReason => "reset-reason"
      case Tasks => "tasks"
      case GpioModes => "gpio-modes"
      case GpioRead => "gpio-read"
      case GpioWrite => "gpio-write"
      case Logs => "logs"
      case OtaStatus => "ota-status"
      case AppList => "app-list"
      case AppRun => "app-run"
      case AppStop => "app-stop"
      case AppStatus => "app-status"
    }

    /** Whether the service behind the command takes the rest of the line. */
    predicate TakesArguments() {
      WifiConfig? || WifiProfileClear? || ConfigGet? || ConfigSet? || ConfigClear?
      || FsList? || FsRead? || FsWrite? || FsRemove? || GpioRead? || GpioWrite?
      || AppRun? || AppStop?
    }

    /** Whether the service's own verdict decides the status. */
    predicate Checked() {
      TakesArguments() && !ConfigGet? && !FsList? && !FsRead? && !GpioRead?
    }
  }

  /** What a line asks for: only output, or one service call. */
  datatype Request =
    | Nothing
    | Print(message: Message)
    | Call(service: Command, arguments: string)
    | Close

  datatype Message = HelpText | VersionText | Usage(command: Command) | TooLong | NoSuchCommand

  /** The request behind a bare word. */
  function BareRequest(c: Command): Request {
    match c
    case Help => Print(HelpText)
    case Version => Print(VersionText)
    case Exit => Close
    case Quit => Close
    case _ => if c.TakesArguments() then Print(Usage(c)) else Call(c, "")
  }

  /** The command with a given word. */
  ghost function Named(word: string): Option<Command> {
    if c: Command :| c.Word() == word then Some(c) else None
  }

  /**
    What a line asks for, as a lookup of its text before the first space. The
    arguments run to the end of the line, trailing blanks included. The ordered
    tests of the source are in module Routing, where they are proved to agree.
  */
  ghost function Route(line: string): Request {
    RouteTrimmed(TrimLeft(line))
  }

  ghost function RouteTrimmed(command: string): Request {
    var text := TrimRight(command);
    if text == [] then Nothing
    else if |text| > MAX_COMMAND_LENGTH then Print(TooLong)
    else
      var i := IndexOf(text, ' ');
      Lookup(Named(text[..i]), if i == |text| then None else Some(command[i + 1..]))
  }

  /** The table: what a word asks for on its own and with arguments. */
  function Lookup(command: Option<Command>, arguments: Option<string>): Request {
    match (command, arguments)
    case (None, _) => Print(NoSuchCommand)
    case (Some(c), None) => BareRequest(c)
    case (Some(c), Some(a)) => if c.TakesArguments() then Call(c, a) else Print(NoSuchCommand)
  }

  /** A service's answer: the new device state, its verdict and the lines it prints. */
  datatype Reply<D> = Reply(device: D, ok: bool, lines: seq<string>)

  /** The device behind the dispatcher: any deterministic services over a state of type `D`. */
  datatype Services<!D> = Services(
    serve: (D, Command, string) -> Reply<D>,
    close: D -> Reply<D>,
    text: Message -> seq<string>)

  datatype Dispatched<D> = Dispatched(status: Status, device: D, lines: seq<string>)

  ghost function Dispatch<D>(services: Services<D>, device: D, line: string): Dispatched<D> {
    match Route(line)
    case Nothing => Dispatched(Empty, device, [])
    case Print(m) => Dispatched(MessageStatus(m), device, services.text(m))
    case Close =>
      var reply := services.close(device);
      Dispatched(SessionClosed, reply.device, reply.lines)
    case Call(c, arguments) =>
      var reply := services.serve(device, c, arguments);
      Dispatched(if c.Checked() && !reply.ok then Invalid else Ok, reply.device, reply.lines)
  }

  function MessageStatus(message: Message): Status {
    match message
    case HelpText => Ok
    case VersionText => Ok
    case NoSuchCommand => Unknown
    case Usage(_) => Invalid
    case TooLong => Invalid
  }
}
