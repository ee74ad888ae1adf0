/** The downloader commands of internal/downloads.go: listing links and
    packages, status, clean, rm, and the pause/stop/start controls. */
module Downloads {
  import opened Wrappers
  import opened GoInts
  import opened Remote
  import opened Sequences
  import Decimal
  import Format
  import Config
  import Session

  const FinishedStatus: string := "Finished"
  const NothingToClean: string := "Nothing to clean\n"
  const CompletedSuffix: string := " is completed and will be removed\n"
  const CleanedSuffix: string := " links cleaned\n"
  const NoLinkIds: string := "no link identifier(s) was specified (use --ids id1 --ids id2 ... )"
  const ResultPrefix: string := "Result : "
  const StatusPrefix: string := "Download status: "
  const SpeedPrefix: string := "Download speed: "
  const LinkColumns: seq<string> := ["ID", "URL", "State", "ETA", "Speed", "Size"]
  const PackageColumns: seq<string> := ["ID", "Name", "Status", "Save to", "Total size"]

  // ---------------------------------------------------------------- clean

  /** A link `download clean` removes: its status is present and exactly
      "Finished". */
  predicate Finished(link: DownloadLink) {
    link.status == Some(FinishedStatus)
  }

  /** The finished links, in list order. */
  function FinishedLinks(links: seq<DownloadLink>): (r: seq<DownloadLink>)
    ensures |r| <= |links|
    ensures forall i :: 0 <= i < |r| ==> Finished(r[i])
    decreases |links|
  {
    if |links| == 0 then []
    else (if Finished(links[0]) then [links[0]] else []) + FinishedLinks(links[1..])
  }

  /** A link is selected exactly when it is in the list and finished. */
  lemma {:induction false} FinishedLinksMembership(links: seq<DownloadLink>, x: DownloadLink)
    ensures x in FinishedLinks(links) <==> x in links && Finished(x)
    decreases |links|
  {
    if |links| > 0 {
      FinishedLinksMembership(links[1..], x);
      assert links == [links[0]] + links[1..];
    }
  }

  /** The selection keeps the list order. */
  lemma {:induction false} FinishedLinksSubsequence(links: seq<DownloadLink>)
    ensures IsSubsequence(FinishedLinks(links), links)
    decreases |links|
  {
    if |links| > 0 {
      var r := FinishedLinks(links);
      FinishedLinksSubsequence(links[1..]);
      if Finished(links[0]) {
        assert r[1..] == FinishedLinks(links[1..]);
      } else {
        assert r == FinishedLinks(links[1..]);
        if |r| > 0 {
          assert IsSubsequence(r, links[1..]);
        }
      }
    }
  }

  /** The identifiers `download clean` hands to Remove. */
  function CleanSelection(links: seq<DownloadLink>): (ids: seq<Int64>)
    ensures |ids| == |FinishedLinks(links)|
    ensures forall i :: 0 <= i < |ids| ==> ids[i] == FinishedLinks(links)[i].uuid
  {
    var f := FinishedLinks(links);
    seq(|f|, i requires 0 <= i < |f| => f[i].uuid)
  }

  /** An identifier is removed exactly when some finished link carries it. */
  lemma CleanSelectionMembership(links: seq<DownloadLink>, id: Int64)
    ensures id in CleanSelection(links) <==> exists link :: link in links && Finished(link) && link.uuid == id
  {
    var f := FinishedLinks(links);
    var ids := CleanSelection(links);
    if id in ids {
      var i :| 0 <= i < |ids| && ids[i] == id;
      FinishedLinksMembership(links, f[i]);
    }
    if exists link :: link in links && Finished(link) && link.uuid == id {
      var link :| link in links && Finished(link) && link.uuid == id;
      FinishedLinksMembership(links, link);
      var i :| 0 <= i < |f| && f[i] == link;
      assert ids[i] == id;
    }
  }

  /** The notice printed for each selected link, in the same order. */
  function CleanNotices(links: seq<DownloadLink>): (ps: seq<DeviceEvent>)
    ensures |ps| == |CleanSelection(links)|
    ensures forall i :: 0 <= i < |ps| ==> ps[i] == Print(FinishedLinks(links)[i].url + CompletedSuffix)
  {
    var f := FinishedLinks(links);
    seq(|f|, i requires 0 <= i < |f| => Print(f[i].url + CompletedSuffix))
  }

  /** One iteration of the clean loop keeps the selection invariant. */
  lemma FinishedLinksStep(links: seq<DownloadLink>, k: nat, done: seq<DownloadLink>)
    requires k < |links|
    requires done + FinishedLinks(links[k..]) == FinishedLinks(links)
    ensures Finished(links[k]) ==> (done + [links[k]]) + FinishedLinks(links[k + 1..]) == FinishedLinks(links)
    ensures !Finished(links[k]) ==> done + FinishedLinks(links[k + 1..]) == FinishedLinks(links)
  {
    var tail := links[k..];
    assert tail[0] == links[k];
    assert tail[1..] == links[k + 1..];
    if Finished(links[k]) {
      assert FinishedLinks(tail) == [links[k]] + FinishedLinks(links[k + 1..]);
      AppendAssociative(done, [links[k]], FinishedLinks(links[k + 1..]));
    } else {
      assert FinishedLinks(tail) == [] + FinishedLinks(links[k + 1..]);
      assert [] + FinishedLinks(links[k + 1..]) == FinishedLinks(links[k + 1..]);
    }
  }

  /** The selection loop of `download clean` (internal/downloads.go:240-246),
      collecting identifiers and notices together. */
  method CleanScan(links: seq<DownloadLink>) returns (toRemove: seq<Int64>, notices: seq<DeviceEvent>)
    ensures toRemove == CleanSelection(links)
    ensures notices == CleanNotices(links)
  {
    toRemove := [];
    notices := [];
    ghost var done: seq<DownloadLink> := [];
    var k := 0;
    while k < |links|
      invariant k <= |links|
      invariant done + FinishedLinks(links[k..]) == FinishedLinks(links)
      invariant |toRemove| == |done| && |notices| == |done|
      invariant forall i :: 0 <= i < |done| ==> toRemove[i] == done[i].uuid
      invariant forall i :: 0 <= i < |done| ==> notices[i] == Print(done[i].url + CompletedSuffix)
    {
      var link := links[k];
      FinishedLinksStep(links, k, done);
      if link.status.Some? && link.status.value == FinishedStatus {
        notices := notices + [Print(link.url + CompletedSuffix)];
        toRemove := toRemove + [link.uuid];
        done := done + [link];
      }
      k := k + 1;
    }
    assert FinishedLinks(links[k..]) == [];
    assert done == FinishedLinks(links);
  }

  /** The action of `download clean` (internal/downloads.go:234-258). */
  function CleanAction(dev: Device): (a: ActionRun)
    ensures |a.events| >= 1 && a.events[0] == Call(DownloadLinks)
    ensures dev.api.downloadLinks.Err? ==> a == ActionRun([Call(DownloadLinks)], Fail(dev.api.downloadLinks.error))
    ensures dev.api.downloadLinks.Ok? ==>
      var links := dev.api.downloadLinks.value;
      var sel := CleanSelection(links);
      var head := [Call(DownloadLinks)] + CleanNotices(links);
      && |a.events| > |head|
      && a.events[..|head|] == head
      && (|sel| == 0 ==> a == ActionRun(head + [Print(NothingToClean)], Pass))
      && (|sel| > 0 ==> a.events[|head|] == Call(RemoveLinks(sel, [])))
      && (|sel| > 0 && dev.api.remove(sel, []).Fail? ==>
            a == ActionRun(head + [Call(RemoveLinks(sel, []))], dev.api.remove(sel, [])))
      && (|sel| > 0 && dev.api.remove(sel, []).Pass? ==>
            a == ActionRun(head + [Call(RemoveLinks(sel, [])), Print(Decimal.IntText(|sel|) + CleanedSuffix)], Pass))
  {
    match dev.api.downloadLinks
    case Err(e) => ActionRun([Call(DownloadLinks)], Fail(e))
    case Ok(links) =>
      var sel := CleanSelection(links);
      var head := [Call(DownloadLinks)] + CleanNotices(links);
      if |sel| > 0 then
        var call := Call(RemoveLinks(sel, []));
        match dev.api.remove(sel, [])
        case Fail(e) => ActionRun(head + [call], Fail(e))
        case Pass => ActionRun(head + [call, Print(Decimal.IntText(|sel|) + CleanedSuffix)], Pass)
      else
        ActionRun(head + [Print(NothingToClean)], Pass)
  }

  /** Remove is called at most once, exactly when some link is finished,
      and then with exactly the finished links' identifiers and no
      packages. */
  lemma CleanRemovesOnlyFinished(dev: Device)
    requires dev.api.downloadLinks.Ok?
    ensures var links := dev.api.downloadLinks.value;
      var a := CleanAction(dev);
      && ((exists i :: 0 <= i < |a.events| && a.events[i].Call? && a.events[i].call.RemoveLinks?)
            <==> exists link :: link in links && Finished(link))
      && (forall i :: 0 <= i < |a.events| && a.events[i].Call? && a.events[i].call.RemoveLinks? ==>
            a.events[i] == Call(RemoveLinks(CleanSelection(links), [])))
  {
    var links := dev.api.downloadLinks.value;
    var a := CleanAction(dev);
    var sel := CleanSelection(links);
    var head := [Call(DownloadLinks)] + CleanNotices(links);
    assert forall i :: 0 <= i < |head| ==> !head[i].Call? || head[i].call == DownloadLinks;
    if exists link :: link in links && Finished(link) {
      var link :| link in links && Finished(link);
      FinishedLinksMembership(links, link);
      assert |sel| > 0;
      assert a.events[|head|] == Call(RemoveLinks(sel, []));
    } else if |sel| > 0 {
      FinishedLinksMembership(links, FinishedLinks(links)[0]);
    }
    forall i | 0 <= i < |a.events| && a.events[i].Call? && a.events[i].call.RemoveLinks?
      ensures a.events[i] == Call(RemoveLinks(sel, []))
    {
      assert i >= |head|;
    }
  }

  // ------------------------------------------------------------------- rm

  /** The action of `download link rm` (internal/downloads.go:132-134):
      one Remove call with the given links and no packages, whose error is
      returned. */
  function RmAction(ids: seq<Int64>, dev: Device): (a: ActionRun)
    ensures a.events == [Call(RemoveLinks(ids, []))]
    ensures a.result == dev.api.remove(ids, [])
  {
    ActionRun([Call(RemoveLinks(ids, []))], dev.api.remove(ids, []))
  }

  /** RmAction as the callback handed to the session helper. */
  function RmHandler(ids: seq<Int64>): Device -> ActionRun {
    (dev: Device) => RmAction(ids, dev)
  }

  /** `download link rm` (internal/downloads.go:128-135): no identifiers is
      an error before any client is built. */
  function RmCommand(common: Session.Common, ids: seq<Int64>, env: Config.Env,
                     dial: Config.ClientSpec -> Client): (r: Run)
    requires Config.KeysPresent(env)
    ensures |ids| == 0 <==> r == Run([], Fail(Error(NoLinkIds)))
    ensures |ids| > 0 ==> |r.events| >= 1 && r.events[0] == GetClient
  {
    if |ids| == 0 then Run([], Fail(Error(NoLinkIds)))
    else Session.DoWithDevice(common.debug, common.device, env, dial, RmHandler(ids))
  }

  /** On a resolved device, rm removes exactly the given links and no
      packages, and returns Remove's error unchanged. */
  lemma RmRemovesGivenIds(common: Session.Common, ids: seq<Int64>, env: Config.Env,
                          dial: Config.ClientSpec -> Client)
    requires Config.KeysPresent(env)
    requires 0 < |ids|
    requires Session.Connected(common.debug, env, dial)
    ensures var client := dial(Config.GetClient(common.debug, env).result.value);
      var name := if |common.device| == 0 then Session.PickDevice(client) else Ok(common.device);
      name.Ok? && client.device(name.value).Ok? ==>
        var dev := client.device(name.value).value;
        var r := RmCommand(common, ids, env, dial);
        && Action(Call(RemoveLinks(ids, []))) in r.events
        && r.result == dev.api.remove(ids, [])
  {
    var client := dial(Config.GetClient(common.debug, env).result.value);
    var name := if |common.device| == 0 then Session.PickDevice(client) else Ok(common.device);
    if name.Ok? && client.device(name.value).Ok? {
      Session.ActionRunsOnlyOnResolvedDevice(common.debug, common.device, env, dial, RmHandler(ids));
      Session.ActionEventsRecorded(common.debug, common.device, env, dial, RmHandler(ids));
      assert Call(RemoveLinks(ids, [])) in RmHandler(ids)(client.device(name.value).value).events;
    }
  }

  // ---------------------------------------------------------------- lists

  lemma EtaCellRoundTrip(eta: Option<Int64>)
    ensures eta.Some? && eta.value >= 0 ==> Format.ParseEta(Format.FormatEta(eta)) == Some(eta.value)
  {
    if eta.Some? && eta.value >= 0 {
      Format.FormatEtaRoundTrip(eta.value);
    }
  }

  /** One table row of `download link list` (internal/downloads.go:96-105):
      the progress cells are formatEta, formatSpeed and formatSize of the
      link's fields, whose texts LinkRowProgress reads back. */
  function LinkRow(link: DownloadLink): (row: seq<string>)
    ensures |row| == |LinkColumns|
    ensures Decimal.ParseNat(row[0]) == Some(Uint64Of(link.uuid))
    ensures |row[1]| == if |link.url| <= Format.UrlDisplayLength then |link.url| else Format.UrlDisplayLength
    ensures row[1] == link.url[..|row[1]|]
    ensures link.status.Some? ==> row[2] == link.status.value
    ensures link.status.None? ==> row[2] == ""
    ensures row[3] == Format.FormatEta(link.eta)
    ensures row[4] == Format.FormatSpeed(link.speed)
    ensures row[5] == Format.FormatSize(link.bytesTotal)
  {
    [ Format.IdText(link.uuid),
      Format.CompressUrl(link.url),
      if link.status.Some? then link.status.value else "",
      Format.FormatEta(link.eta),
      Format.FormatSpeed(link.speed),
      Format.FormatSize(link.bytesTotal)
    ]
  }

  /** The ETA, speed and size cells of a link row are `N/A` exactly when
      the value is absent, and a non-negative ETA reads back as itself. */
  lemma LinkRowProgress(link: DownloadLink)
    ensures var row := LinkRow(link);
      && (link.eta.None? <==> row[3] == "N/A")
      && (link.eta.Some? && link.eta.value >= 0 ==> Format.ParseEta(row[3]) == Some(link.eta.value))
      && (link.speed.None? <==> row[4] == "N/A")
      && (link.bytesTotal.None? <==> row[5] == "N/A")
  {
    EtaCellRoundTrip(link.eta);
    assert LinkRow(link)[3..] == [Format.FormatEta(link.eta), Format.FormatSpeed(link.speed), Format.FormatSize(link.bytesTotal)];
  }

  /** The table branch of `download link list` (internal/downloads.go:77-109):
      one row per link, in list order, even when there are none. */
  function LinkListAction(dev: Device): (a: ActionRun)
    ensures |a.events| >= 1 && a.events[0] == Call(DownloadLinks)
    ensures dev.api.downloadLinks.Err? <==> a.result.Fail?
    ensures dev.api.downloadLinks.Err? ==> a == ActionRun([Call(DownloadLinks)], Fail(dev.api.downloadLinks.error))
    ensures dev.api.downloadLinks.Ok? ==>
      && |a.events| == 2
      && a.events[1].Table?
      && a.events[1].header == LinkColumns
      && |a.events[1].rows| == |dev.api.downloadLinks.value|
      && forall i :: 0 <= i < |a.events[1].rows| ==> a.events[1].rows[i] == LinkRow(dev.api.downloadLinks.value[i])
  {
    match dev.api.downloadLinks
    case Err(e) => ActionRun([Call(DownloadLinks)], Fail(e))
    case Ok(links) =>
      var rows := seq(|links|, i requires 0 <= i < |links| => LinkRow(links[i]));
      ActionRun([Call(DownloadLinks), Table(LinkColumns, rows)], Pass)
  }

  /** One table row of `download package list` (internal/downloads.go:181-189). */
  function PackageRow(pkg: DownloadPackage): (row: seq<string>)
    ensures |row| == |PackageColumns|
    ensures Decimal.ParseNat(row[0]) == Some(Uint64Of(pkg.uuid))
    ensures row[1] == pkg.name
    ensures pkg.status.Some? ==> row[2] == pkg.status.value
    ensures pkg.status.None? ==> row[2] == ""
    ensures row[3] == pkg.saveTo
    ensures pkg.bytesTotal.None? <==> row[4] == "N/A"
    ensures row[4] == Format.FormatSize(pkg.bytesTotal)
  {
    [ Format.IdText(pkg.uuid),
      pkg.name,
      if pkg.status.Some? then pkg.status.value else "",
      pkg.saveTo,
      Format.FormatSize(pkg.bytesTotal)
    ]
  }

  /** The table branch of `download package list` (internal/downloads.go:162-193). */
  function PackageListAction(dev: Device): (a: ActionRun)
    ensures |a.events| >= 1 && a.events[0] == Call(DownloadPackages)
    ensures dev.api.packages.Err? <==> a.result.Fail?
    ensures dev.api.packages.Err? ==> a == ActionRun([Call(DownloadPackages)], Fail(dev.api.packages.error))
    ensures dev.api.packages.Ok? ==>
      && |a.events| == 2
      && a.events[1].Table?
      && a.events[1].header == PackageColumns
      && |a.events[1].rows| == |dev.api.packages.value|
      && forall i :: 0 <= i < |a.events[1].rows| ==> a.events[1].rows[i] == PackageRow(dev.api.packages.value[i])
  {
    match dev.api.packages
    case Err(e) => ActionRun([Call(DownloadPackages)], Fail(e))
    case Ok(pkgs) =>
      var rows := seq(|pkgs|, i requires 0 <= i < |pkgs| => PackageRow(pkgs[i]));
      ActionRun([Call(DownloadPackages), Table(PackageColumns, rows)], Pass)
  }

  // --------------------------------------------------------------- status

  /** `download status` (internal/downloads.go:208-220): the state is only
      queried once the speed query succeeded, and nothing is printed
      unless both succeeded. */
  function StatusAction(dev: Device): (a: ActionRun)
    ensures dev.api.speed.Err? ==> a == ActionRun([Call(QuerySpeed)], Fail(dev.api.speed.error))
    ensures dev.api.speed.Ok? && dev.api.state.Err? ==>
      a == ActionRun([Call(QuerySpeed), Call(QueryState)], Fail(dev.api.state.error))
    ensures a.result.Pass? <==> dev.api.speed.Ok? && dev.api.state.Ok?
    ensures a.result.Pass? ==>
      && |a.events| == 4
      && a.events[..2] == [Call(QuerySpeed), Call(QueryState)]
      && a.events[2] == Print(StatusPrefix + dev.api.state.value + "\n")
      && a.events[3] == Print(SpeedPrefix + Format.FormatSpeed(dev.api.speed.value) + "\n")
  {
    match dev.api.speed
    case Err(e) => ActionRun([Call(QuerySpeed)], Fail(e))
    case Ok(speed) =>
      match dev.api.state
      case Err(e) => ActionRun([Call(QuerySpeed), Call(QueryState)], Fail(e))
      case Ok(state) =>
        ActionRun([Call(QuerySpeed), Call(QueryState),
                   Print(StatusPrefix + state + "\n"),
                   Print(SpeedPrefix + Format.FormatSpeed(speed) + "\n")], Pass)
  }

  // ------------------------------------------------------------- controls

  /** The three control subcommands. */
  datatype ControlCommand = PauseCommand | StopCommand | StartCommand

  /** The downloader operation each subcommand invokes, as written
      (internal/downloads.go:273, 291, 309): `start` calls Stop. */
  function ControlOpAsWritten(c: ControlCommand): (op: ControlOp)
    ensures c == PauseCommand <==> op == PauseOp
    ensures op != StartOp
  {
    match c
    case PauseCommand => PauseOp
    case StopCommand => StopOp
    case StartCommand => StopOp
  }

  /** As written, `start` and `stop` invoke the same operation and no
      subcommand ever starts the downloader. */
  lemma StartStopsAsWritten()
    ensures ControlOpAsWritten(StartCommand) == ControlOpAsWritten(StopCommand) == StopOp
    ensures forall c :: ControlOpAsWritten(c) != StartOp
  {
  }

  /** The operation each subcommand is evidently meant to invoke. */
  function ControlOp(c: ControlCommand): (op: ControlOp)
    ensures c == PauseCommand <==> op == PauseOp
    ensures c == StopCommand <==> op == StopOp
    ensures c == StartCommand <==> op == StartOp
  {
    match c
    case PauseCommand => PauseOp
    case StopCommand => StopOp
    case StartCommand => StartOp
  }

  /** The subcommand that invokes an operation. */
  function CommandFor(op: ControlOp): ControlCommand {
    match op
    case PauseOp => PauseCommand
    case StopOp => StopCommand
    case StartOp => StartCommand
  }

  /** Subcommands and operations correspond one to one. */
  lemma ControlOpBijective(c: ControlCommand, op: ControlOp)
    ensures CommandFor(ControlOp(c)) == c
    ensures ControlOp(CommandFor(op)) == op
    ensures ControlOp(c) == op <==> c == CommandFor(op)
  {
  }

  /** The body every control subcommand shares
      (internal/downloads.go:272-276, 290-294, 308-312), given the
      downloader operation it invokes: the result is printed, without a
      newline, even when the call failed, and the call's error is
      returned. */
  function ControlAction(op: ControlOp, dev: Device): (a: ActionRun)
    ensures |a.events| == 2
    ensures a.events[0] == Call(Control(op))
    ensures a.events[1].Print? && |a.events[1].text| >= |ResultPrefix|
    ensures a.events[1].text[..|ResultPrefix|] == ResultPrefix
    ensures a.events[1].text[|ResultPrefix|..] == "true" <==> dev.api.control(op).0
    ensures a.events[1].text[|ResultPrefix|..] == "false" <==> !dev.api.control(op).0
    ensures a.result == dev.api.control(op).1
  {
    var (res, err) := dev.api.control(op);
    ActionRun([Call(Control(op)), Print(ResultPrefix + Decimal.BoolText(res))], err)
  }

  /** The action of a control subcommand as written: `download start`
      runs the same body as `download stop`. */
  function ControlCommandAction(c: ControlCommand, dev: Device): (a: ActionRun)
    ensures |a.events| == 2 && a.events[0] == Call(Control(ControlOpAsWritten(c)))
    ensures a.result == dev.api.control(ControlOpAsWritten(c)).1
  {
    ControlAction(ControlOpAsWritten(c), dev)
  }

  /** As written, `download start` asks the downloader to stop, reports
      the stop call's answer, and never issues a Start call. */
  lemma StartCommandStops(dev: Device)
    ensures ControlCommandAction(StartCommand, dev) == ControlCommandAction(StopCommand, dev)
    ensures ControlCommandAction(StartCommand, dev).events[0] == Call(Control(StopOp))
    ensures forall c :: Call(Control(StartOp)) !in ControlCommandAction(c, dev).events
  {
    forall c
      ensures Call(Control(StartOp)) !in ControlCommandAction(c, dev).events
    {
      var a := ControlCommandAction(c, dev);
      assert a.events == [a.events[0], a.events[1]];
    }
  }

  /** The action each control subcommand is evidently meant to run. */
  function CorrectedControlCommandAction(c: ControlCommand, dev: Device): (a: ActionRun)
    ensures |a.events| == 2 && a.events[0] == Call(Control(ControlOp(c)))
    ensures a.result == dev.api.control(ControlOp(c)).1
  {
    ControlAction(ControlOp(c), dev)
  }

  /** With the correction, each operation is issued by its own subcommand
      and by no other. */
  lemma CorrectedControlIssuesOwnOp(c: ControlCommand, op: ControlOp, dev: Device)
    ensures Call(Control(op)) in CorrectedControlCommandAction(c, dev).events <==> c == CommandFor(op)
  {
    var a := CorrectedControlCommandAction(c, dev);
    assert a.events == [a.events[0], a.events[1]];
    ControlOpBijective(c, op);
  }
}
