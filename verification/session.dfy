/** The session helper of internal/util.go: build a client, connect,
    resolve the device (by name, or the first one listed), hand it to the
    command's action, and disconnect on every path once connected. */
module Session {
  import opened Wrappers
  import opened Remote
  import Config

  const NoDeviceAvailable: string := "no device available"
  const DisconnectFailurePrefix: string := "Failed to disconnect client: "

  /** The --debug and --device flags every device command takes. */
  datatype Common = Common(debug: bool, device: string)

  /** pickDevice (internal/util.go:39-49): the first listed device. */
  function PickDevice(client: Client): (r: Result<string>)
    ensures client.devices.Err? ==> r == Err(client.devices.error)
    ensures r.Ok? <==> client.devices.Ok? && |client.devices.value| > 0
    ensures r.Ok? ==> r.value == client.devices.value[0].name
    ensures client.devices.Ok? && r.Err? ==> r.error == Error(NoDeviceAvailable)
  {
    var devices :- client.devices;
    if |devices| == 0 then Err(Error(NoDeviceAvailable)) else Ok(devices[0].name)
  }

  /** The expectations of TestPickDevice (internal/util_test.go:25-35). */
  lemma PickDeviceExamples(client: Client)
    requires client.devices == Ok([])
    ensures PickDevice(client).Err?
    ensures PickDevice(client.(devices := Ok([DeviceInfo("", "", "mock", "")]))) == Ok("mock")
  {
  }

  /** clientCloser (internal/util.go:74-79): disconnect, and on failure
      only write a warning. */
  function ClientCloser(client: Client): (es: seq<Event>)
    ensures |es| >= 1 && es[0] == Disconnect
    ensures Count(es, Disconnect) == 1
    ensures forall i :: 1 <= i < |es| ==> es[i].Warn?
    ensures |es| == 2 <==> client.disconnect.Fail?
  {
    match client.disconnect
    case Pass => [Disconnect]
    case Fail(e) => [Disconnect, Warn(DisconnectFailurePrefix + e.message + "\n")]
  }

  /** The part of doWithDevice between a successful Connect and the
      deferred close (internal/util.go:61-71). */
  function Scoped(client: Client, devname: string, fn: Device -> ActionRun): (r: Run)
    ensures Disconnect !in r.events && Connect !in r.events && GetClient !in r.events
  {
    var lookup := if |devname| == 0 then [ListDevices] else [];
    var name := if |devname| == 0 then PickDevice(client) else Ok(devname);
    match name
    case Err(e) => Run(lookup, Fail(e))
    case Ok(n) =>
      match client.device(n)
      case Err(e) => Run(lookup + [OpenDevice(n)], Fail(e))
      case Ok(dev) =>
        var a := fn(dev);
        Run(lookup + [OpenDevice(n), Invoke(n)] + Lift(a.events), a.result)
  }

  /** Whether doWithDevice gets as far as an open connection. */
  predicate Connected(debug: bool, env: Config.Env, dial: Config.ClientSpec -> Client)
    requires Config.KeysPresent(env)
  {
    var b := Config.GetClient(debug, env);
    b.result.Ok? && dial(b.result.value).connect.Pass?
  }

  /** doWithDevice (internal/util.go:51-72). `dial` stands for the client
      the library builds from the spec getClient produced. */
  function DoWithDevice(debug: bool, devname: string, env: Config.Env,
                        dial: Config.ClientSpec -> Client, fn: Device -> ActionRun): (r: Run)
    requires Config.KeysPresent(env)
    ensures |r.events| >= 1 && r.events[0] == GetClient
    ensures Config.GetClient(debug, env).result.Err? ==>
      r == Run([GetClient], Fail(Config.GetClient(debug, env).result.error))
    ensures Config.GetClient(debug, env).result.Ok? && dial(Config.GetClient(debug, env).result.value).connect.Fail? ==>
      r == Run([GetClient, Connect], dial(Config.GetClient(debug, env).result.value).connect)
  {
    match Config.GetClient(debug, env).result
    case Err(e) => Run([GetClient], Fail(e))
    case Ok(spec) =>
      var client := dial(spec);
      match client.connect
      case Fail(e) => Run([GetClient, Connect], Fail(e))
      case Pass =>
        var body := Scoped(client, devname, fn);
        Run([GetClient, Connect] + body.events + ClientCloser(client), body.result)
  }

  /** The shape of a run that got a connection. */
  lemma ConnectedShape(debug: bool, devname: string, env: Config.Env,
                       dial: Config.ClientSpec -> Client, fn: Device -> ActionRun)
    requires Config.KeysPresent(env)
    requires Connected(debug, env, dial)
    ensures var client := dial(Config.GetClient(debug, env).result.value);
      var body := Scoped(client, devname, fn);
      DoWithDevice(debug, devname, env, dial, fn)
        == Run([GetClient, Connect] + body.events + ClientCloser(client), body.result)
  {
  }

  /** Closing after a trace free of Disconnect releases exactly once, and
      only warnings follow. */
  lemma ReleaseAtEnd(head: seq<Event>, client: Client)
    requires Disconnect !in head
    ensures var es := head + ClientCloser(client);
      && Count(es, Disconnect) == 1
      && forall i, j :: 0 <= i < j < |es| && es[i] == Disconnect ==> es[j].Warn?
  {
    var close := ClientCloser(client);
    var es := head + close;
    CountAppend(head, close, Disconnect);
    forall i, j | 0 <= i < j < |es| && es[i] == Disconnect
      ensures es[j].Warn?
    {
      assert i >= |head|;
      assert es[j] == close[j - |head|];
    }
  }

  /** A run that got a connection connects and releases it exactly once,
      at the end. */
  lemma ConnectedRelease(debug: bool, devname: string, env: Config.Env,
                         dial: Config.ClientSpec -> Client, fn: Device -> ActionRun)
    requires Config.KeysPresent(env)
    requires Connected(debug, env, dial)
    ensures var r := DoWithDevice(debug, devname, env, dial, fn);
      && Connect in r.events
      && Count(r.events, Disconnect) == 1
      && forall i, j :: 0 <= i < j < |r.events| && r.events[i] == Disconnect ==> r.events[j].Warn?
  {
    ConnectedShape(debug, devname, env, dial, fn);
    var client := dial(Config.GetClient(debug, env).result.value);
    var head := [GetClient, Connect] + Scoped(client, devname, fn).events;
    ReleaseAtEnd(head, client);
    assert DoWithDevice(debug, devname, env, dial, fn).events == head + ClientCloser(client);
    assert head[1] == Connect;
  }

  /** Connect is attempted only when getClient succeeds, and the
      connection is released exactly once if and only if Connect
      succeeded, on every exit path; nothing but warnings follows the
      release. */
  lemma ReleasedExactlyOnce(debug: bool, devname: string, env: Config.Env,
                            dial: Config.ClientSpec -> Client, fn: Device -> ActionRun)
    requires Config.KeysPresent(env)
    ensures var r := DoWithDevice(debug, devname, env, dial, fn);
      && (Connect in r.events <==> Config.GetClient(debug, env).result.Ok?)
      && (Count(r.events, Disconnect) == if Connected(debug, env, dial) then 1 else 0)
      && (forall i, j :: 0 <= i < j < |r.events| && r.events[i] == Disconnect ==> r.events[j].Warn?)
  {
    var r := DoWithDevice(debug, devname, env, dial, fn);
    var b := Config.GetClient(debug, env);
    if Connected(debug, env, dial) {
      ConnectedRelease(debug, devname, env, dial, fn);
    } else if b.result.Ok? {
      assert r.events == [GetClient, Connect];
    } else {
      assert r.events == [GetClient];
    }
  }

  /** The device list is consulted exactly when a connection was made and
      no device name was given. */
  lemma ListsDevicesOnlyWithoutName(debug: bool, devname: string, env: Config.Env,
                                    dial: Config.ClientSpec -> Client, fn: Device -> ActionRun)
    requires Config.KeysPresent(env)
    ensures ListDevices in DoWithDevice(debug, devname, env, dial, fn).events
      <==> Connected(debug, env, dial) && |devname| == 0
  {
    if Connected(debug, env, dial) {
      ConnectedShape(debug, devname, env, dial, fn);
      var client := dial(Config.GetClient(debug, env).result.value);
      var body := Scoped(client, devname, fn);
      var close := ClientCloser(client);
      assert ListDevices !in close;
      if |devname| == 0 {
        assert body.events[0] == ListDevices;
      } else {
        assert forall i :: 0 <= i < |body.events| ==> body.events[i] != ListDevices;
      }
    } else if Config.GetClient(debug, env).result.Ok? {
      assert DoWithDevice(debug, devname, env, dial, fn).events == [GetClient, Connect];
    }
  }

  /** Within the connection, a device name that cannot be resolved or
      opened is returned as the error, and the action never runs. */
  lemma ScopedResolutionError(client: Client, devname: string, fn: Device -> ActionRun)
    ensures var r := Scoped(client, devname, fn);
      var name := if |devname| == 0 then PickDevice(client) else Ok(devname);
      && (name.Err? ==> r.result == Fail(name.error) && forall e :: e in r.events ==> !e.Invoke?)
      && (name.Ok? && client.device(name.value).Err? ==>
            r.result == Fail(client.device(name.value).error) && forall e :: e in r.events ==> !e.Invoke?)
  {
  }

  /** Within the connection, a resolved and opened device gets exactly one
      Invoke, and the action's own result is returned. */
  lemma ScopedAction(client: Client, devname: string, fn: Device -> ActionRun)
    requires var name := if |devname| == 0 then PickDevice(client) else Ok(devname);
      name.Ok? && client.device(name.value).Ok?
    ensures var r := Scoped(client, devname, fn);
      var n := if |devname| == 0 then PickDevice(client).value else devname;
      && Count(r.events, Invoke(n)) == 1
      && r.result == fn(client.device(n).value).result
  {
    var n := if |devname| == 0 then PickDevice(client).value else devname;
    var lookup: seq<Event> := if |devname| == 0 then [ListDevices] else [];
    var a := fn(client.device(n).value);
    var mid: seq<Event> := [OpenDevice(n), Invoke(n)];
    assert Scoped(client, devname, fn).events == lookup + mid + Lift(a.events);
    CountAppend(lookup + mid, Lift(a.events), Invoke(n));
    CountAppend(lookup, mid, Invoke(n));
    assert Count(Lift(a.events), Invoke(n)) == 0;
  }

  /** Once connected, the action runs exactly once when the device name
      resolves and Device(name) succeeds, and then its error is the
      command's result unchanged; otherwise the resolution error is
      returned and the action never runs. */
  lemma ActionRunsOnlyOnResolvedDevice(debug: bool, devname: string, env: Config.Env,
                                       dial: Config.ClientSpec -> Client, fn: Device -> ActionRun)
    requires Config.KeysPresent(env)
    requires Connected(debug, env, dial)
    ensures var client := dial(Config.GetClient(debug, env).result.value);
      var r := DoWithDevice(debug, devname, env, dial, fn);
      var name := if |devname| == 0 then PickDevice(client) else Ok(devname);
      && (name.Err? ==> r.result == Fail(name.error) && forall e :: e in r.events ==> !e.Invoke?)
      && (name.Ok? && client.device(name.value).Err? ==>
            r.result == Fail(client.device(name.value).error) && forall e :: e in r.events ==> !e.Invoke?)
      && (name.Ok? && client.device(name.value).Ok? ==>
            && Count(r.events, Invoke(name.value)) == 1
            && r.result == fn(client.device(name.value).value).result)
  {
    ConnectedShape(debug, devname, env, dial, fn);
    var client := dial(Config.GetClient(debug, env).result.value);
    var body := Scoped(client, devname, fn);
    var name := if |devname| == 0 then PickDevice(client) else Ok(devname);
    if name.Ok? && client.device(name.value).Ok? {
      ScopedAction(client, devname, fn);
      InvokeCountAround(body.events, client, name.value);
    } else {
      ScopedResolutionError(client, devname, fn);
      NoInvokeAround(body.events, client);
    }
  }

  /** Connecting before and closing after add no Invoke to a trace. */
  lemma InvokeCountAround(body: seq<Event>, client: Client, n: string)
    ensures Count([GetClient, Connect] + body + ClientCloser(client), Invoke(n)) == Count(body, Invoke(n))
  {
    var head: seq<Event> := [GetClient, Connect];
    var close := ClientCloser(client);
    CountAppend(head + body, close, Invoke(n));
    CountAppend(head, body, Invoke(n));
    assert Invoke(n) !in close;
    assert Invoke(n) !in head;
  }

  lemma NoInvokeAround(body: seq<Event>, client: Client)
    requires forall e :: e in body ==> !e.Invoke?
    ensures forall e :: e in [GetClient, Connect] + body + ClientCloser(client) ==> !e.Invoke?
  {
    var close := ClientCloser(client);
    assert forall e :: e in close ==> !e.Invoke?;
  }

  /** Once connected to a resolved device, every event of the action is
      recorded in the run. */
  lemma ActionEventsRecorded(debug: bool, devname: string, env: Config.Env,
                             dial: Config.ClientSpec -> Client, fn: Device -> ActionRun)
    requires Config.KeysPresent(env)
    requires Connected(debug, env, dial)
    requires var client := dial(Config.GetClient(debug, env).result.value);
      var name := if |devname| == 0 then PickDevice(client) else Ok(devname);
      name.Ok? && client.device(name.value).Ok?
    ensures var client := dial(Config.GetClient(debug, env).result.value);
      var n := if |devname| == 0 then PickDevice(client).value else devname;
      var r := DoWithDevice(debug, devname, env, dial, fn);
      forall e :: e in fn(client.device(n).value).events ==> Action(e) in r.events
  {
    ConnectedShape(debug, devname, env, dial, fn);
    var client := dial(Config.GetClient(debug, env).result.value);
    var n := if |devname| == 0 then PickDevice(client).value else devname;
    var a := fn(client.device(n).value);
    var lookup: seq<Event> := if |devname| == 0 then [ListDevices] else [];
    var front: seq<Event> := [GetClient, Connect] + lookup + [OpenDevice(n), Invoke(n)];
    var close := ClientCloser(client);
    var r := DoWithDevice(debug, devname, env, dial, fn);
    assert Scoped(client, devname, fn).events == lookup + [OpenDevice(n), Invoke(n)] + Lift(a.events);
    assert r.events == front + Lift(a.events) + close;
    forall e | e in a.events
      ensures Action(e) in r.events
    {
      var i :| 0 <= i < |a.events| && a.events[i] == e;
      assert r.events[|front| + i] == Lift(a.events)[i];
    }
  }

  /** A failing Disconnect is only reported as a warning: the command's
      result is the same as with a disconnect that succeeds. */
  lemma DisconnectNeverChangesResult(debug: bool, devname: string, env: Config.Env,
                                     dial: Config.ClientSpec -> Client, fn: Device -> ActionRun)
    requires Config.KeysPresent(env)
    ensures var quiet := (spec: Config.ClientSpec) => dial(spec).(disconnect := Pass);
      DoWithDevice(debug, devname, env, dial, fn).result == DoWithDevice(debug, devname, env, quiet, fn).result
  {
  }
}
