/** The remote client library, seen from the CLI: records it returns,
    scripted results for each of its operations, and the events a command
    run produces. Nothing here models the wire protocol; each operation is
    an oracle that yields either a value or an error. */
module Remote {
  import opened Wrappers
  import opened GoInts

  /** One entry of ListDevices. */
  datatype DeviceInfo = DeviceInfo(id: string, kind: string, name: string, status: string)

  /** A link in the downloader list; absent fields are the library's nil pointers. */
  datatype DownloadLink = DownloadLink(
    uuid: Int64,
    url: string,
    status: Option<string>,
    eta: Option<Int64>,
    speed: Option<ConvertibleReal>,
    bytesTotal: Option<Int64>)

  /** A package in the downloader list. */
  datatype DownloadPackage = DownloadPackage(
    uuid: Int64,
    name: string,
    status: Option<string>,
    saveTo: string,
    bytesTotal: Option<Int64>)

  /** A link in the link collector (the staging area before download). */
  datatype CollectorLink = CollectorLink(
    uuid: Int64,
    name: string,
    url: string,
    status: Option<string>,
    bytesTotal: Option<Int64>)

  /** Options passed to the link collector's Add. */
  datatype AddOption = Autostart(on: bool) | PackageName(name: string) | DestinationDir(dir: string)

  /** The downloader's control operations. */
  datatype ControlOp = PauseOp | StopOp | StartOp

  /** Every operation a command invokes on a device handle. */
  datatype DeviceCall =
    | DownloadLinks
    | RemoveLinks(linkIds: seq<Int64>, packageIds: seq<Int64>)
    | DownloadPackages
    | QuerySpeed
    | QueryState
    | Control(op: ControlOp)
    | CollectorLinks
    | AddLinks(links: seq<string>, options: seq<AddOption>)

  /** Scripted results of a device's operations. */
  datatype DeviceApi = DeviceApi(
    downloadLinks: Result<seq<DownloadLink>>,
    remove: (seq<Int64>, seq<Int64>) -> Outcome,
    packages: Result<seq<DownloadPackage>>,
    speed: Result<Option<ConvertibleReal>>,
    state: Result<string>,
    control: ControlOp -> (bool, Outcome),
    collectorLinks: Result<seq<CollectorLink>>,
    add: (seq<string>, seq<AddOption>) -> Result<string>)

  /** A device handle as returned by the client's Device(name). */
  datatype Device = Device(name: string, api: DeviceApi)

  /** What an action does on a device, in order: remote calls, text
      written to the output, and tables rendered. */
  datatype DeviceEvent =
    | Call(call: DeviceCall)
    | Print(text: string)
    | Table(header: seq<string>, rows: seq<seq<string>>)

  /** The observable run of an action handed to the session helper. */
  datatype ActionRun = ActionRun(events: seq<DeviceEvent>, result: Outcome)

  /** Scripted results of the client's session-level operations. */
  datatype Client = Client(
    connect: Outcome,
    devices: Result<seq<DeviceInfo>>,
    device: string -> Result<Device>,
    disconnect: Outcome)

  /** The observable events of one command invocation. `Invoke` marks the
      moment the action receives its device; `Action` wraps the action's
      own events; `Warn` is text written by the connection closer. */
  datatype Event =
    | GetClient
    | Connect
    | ListDevices
    | OpenDevice(name: string)
    | Invoke(device: string)
    | Action(event: DeviceEvent)
    | Disconnect
    | Warn(text: string)

  /** One command invocation: its event trace and the error it returns. */
  datatype Run = Run(events: seq<Event>, result: Outcome)

  /** How many times `e` occurs in `es`. */
  function Count(es: seq<Event>, e: Event): (n: nat)
    ensures n <= |es|
    ensures n == 0 <==> e !in es
    decreases |es|
  {
    if |es| == 0 then 0 else (if es[0] == e then 1 else 0) + Count(es[1..], e)
  }

  lemma {:induction false} CountAppend(a: seq<Event>, b: seq<Event>, e: Event)
    ensures Count(a + b, e) == Count(a, e) + Count(b, e)
    decreases |a|
  {
    if |a| > 0 {
      assert (a + b)[1..] == a[1..] + b;
      CountAppend(a[1..], b, e);
    } else {
      assert a + b == b;
    }
  }

  /** An action's events as seen in the command's trace. */
  function Lift(es: seq<DeviceEvent>): (r: seq<Event>)
    ensures |r| == |es|
    ensures forall i :: 0 <= i < |r| ==> r[i] == Action(es[i])
  {
    seq(|es|, i requires 0 <= i < |es| => Action(es[i]))
  }
}
