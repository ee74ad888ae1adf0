/** The link-collector commands of internal/links.go: reading links from a
    file, `links add`, and `links list`. */
module Links {
  import opened Wrappers
  import opened GoStrings
  import opened Remote
  import opened Sequences
  import Format
  import Decimal
  import GoInts
  import Config
  import Session

  const NoLinksSpecified: string := "no links specified"
  const NoLinks: string := "No links\n"
  const ResponsePrefix: string := "Response: "
  /** Lines of a link file that start with this character are comments. */
  const CommentMark: char := ';'
  const CollectorColumns: seq<string> := ["ID", "Name", "URL", "Status", "Size"]

  // ---------------------------------------------------------- link files

  /** A trimmed line is kept when it is non-empty, not a comment, and
      url.Parse accepts it (`parses`). */
  predicate KeepLine(line: string, parses: string -> bool) {
    0 < |line| && line[0] != CommentMark && parses(line)
  }

  /** What one line contributes: the trimmed line, or nothing. */
  function Kept(line: string, space: char -> bool, parses: string -> bool): seq<string> {
    var t := TrimSpace(line, space);
    if KeepLine(t, parses) then [t] else []
  }

  /** The reference definition of parseLinksFromFile's loop: each line
      trimmed, then kept or dropped. */
  function KeptLinks(lines: seq<string>, space: char -> bool, parses: string -> bool): (r: seq<string>)
    ensures |r| <= |lines|
    ensures forall i :: 0 <= i < |r| ==> KeepLine(r[i], parses)
    decreases |lines|
  {
    if |lines| == 0 then [] else Kept(lines[0], space, parses) + KeptLinks(lines[1..], space, parses)
  }

  /** Every kept link is already trimmed. */
  lemma {:induction false} KeptLinksTrimmed(lines: seq<string>, space: char -> bool, parses: string -> bool)
    ensures forall x :: x in KeptLinks(lines, space, parses) ==> TrimSpace(x, space) == x
    decreases |lines|
  {
    if |lines| > 0 {
      KeptLinksTrimmed(lines[1..], space, parses);
      TrimSpaceIdempotent(lines[0], space);
    }
  }

  function TrimmedLines(lines: seq<string>, space: char -> bool): (r: seq<string>)
    ensures |r| == |lines|
    ensures forall i :: 0 <= i < |r| ==> r[i] == TrimSpace(lines[i], space)
  {
    seq(|lines|, i requires 0 <= i < |lines| => TrimSpace(lines[i], space))
  }

  /** The kept links keep the input order: they are a subsequence of the
      trimmed lines. */
  lemma {:induction false} KeptLinksSubsequence(lines: seq<string>, space: char -> bool, parses: string -> bool)
    ensures IsSubsequence(KeptLinks(lines, space, parses), TrimmedLines(lines, space))
    decreases |lines|
  {
    if |lines| > 0 {
      var kept := KeptLinks(lines, space, parses);
      var rest := KeptLinks(lines[1..], space, parses);
      var trimmed := TrimmedLines(lines, space);
      KeptLinksSubsequence(lines[1..], space, parses);
      assert trimmed[1..] == TrimmedLines(lines[1..], space);
      if KeepLine(trimmed[0], parses) {
        assert kept == [trimmed[0]] + rest;
        assert kept[1..] == rest;
      } else {
        assert kept == rest;
        if |kept| > 0 {
          assert IsSubsequence(kept, trimmed[1..]);
        }
      }
    }
  }

  /** Some line of a non-empty file trims to `x` exactly when the first
      one does or some later one does. */
  lemma SomeLineTrimsTo(lines: seq<string>, space: char -> bool, x: string)
    requires |lines| > 0
    ensures (exists i :: 0 <= i < |lines| && TrimSpace(lines[i], space) == x)
      <==> TrimSpace(lines[0], space) == x
           || exists i :: 0 <= i < |lines[1..]| && TrimSpace(lines[1..][i], space) == x
  {
    if exists i :: 0 <= i < |lines| && TrimSpace(lines[i], space) == x {
      var i :| 0 <= i < |lines| && TrimSpace(lines[i], space) == x;
      if i > 0 {
        assert lines[1..][i - 1] == lines[i];
      }
    }
    if exists i :: 0 <= i < |lines[1..]| && TrimSpace(lines[1..][i], space) == x {
      var i :| 0 <= i < |lines[1..]| && TrimSpace(lines[1..][i], space) == x;
      assert lines[i + 1] == lines[1..][i];
    }
  }

  /** A string is among the kept links exactly when some line trims to it
      and it passes the filter. */
  lemma {:induction false} KeptLinksMembership(lines: seq<string>, space: char -> bool, parses: string -> bool, x: string)
    ensures x in KeptLinks(lines, space, parses)
      <==> KeepLine(x, parses) && exists i :: 0 <= i < |lines| && TrimSpace(lines[i], space) == x
    decreases |lines|
  {
    if |lines| > 0 {
      KeptLinksMembership(lines[1..], space, parses, x);
      SomeLineTrimsTo(lines, space, x);
      assert KeptLinks(lines, space, parses) == Kept(lines[0], space, parses) + KeptLinks(lines[1..], space, parses);
    }
  }

  /** parseLinksFromFile (internal/links.go:159-177) as a function: a read
      failure is the only error; every line is split off, trimmed and
      filtered. */
  function LinksFromFile(file: string, readFile: string -> Result<string>,
                         space: char -> bool, parses: string -> bool): (r: Result<seq<string>>)
    ensures readFile(file).Err? <==> r.Err?
    ensures r.Err? ==> r.error == readFile(file).error
    ensures r.Ok? ==> |r.value| <= |Split(readFile(file).value, '\n')|
  {
    var data :- readFile(file);
    Ok(KeptLinks(Split(data, '\n'), space, parses))
  }

  lemma KeptLinksUnfold(lines: seq<string>, k: nat, space: char -> bool, parses: string -> bool)
    requires k < |lines|
    ensures KeptLinks(lines[k..], space, parses) == Kept(lines[k], space, parses) + KeptLinks(lines[k + 1..], space, parses)
  {
    assert lines[k..][1..] == lines[k + 1..];
  }

  /** One iteration of parseLinksFromFile's loop keeps its invariant. */
  lemma FilterStep(lines: seq<string>, k: nat, before: seq<string>, after: seq<string>,
                   space: char -> bool, parses: string -> bool)
    requires k < |lines|
    requires before + KeptLinks(lines[k..], space, parses) == KeptLinks(lines, space, parses)
    requires after == before + Kept(lines[k], space, parses)
    ensures after + KeptLinks(lines[k + 1..], space, parses) == KeptLinks(lines, space, parses)
  {
    KeptLinksUnfold(lines, k, space, parses);
    AppendAssociative(before, Kept(lines[k], space, parses), KeptLinks(lines[k + 1..], space, parses));
  }

  /** The loop of parseLinksFromFile (internal/links.go:166-175). */
  method FilterLines(lines: seq<string>, space: char -> bool, parses: string -> bool)
    returns (res: seq<string>)
    ensures res == KeptLinks(lines, space, parses)
  {
    res := [];
    var k := 0;
    while k < |lines|
      invariant k <= |lines|
      invariant res + KeptLinks(lines[k..], space, parses) == KeptLinks(lines, space, parses)
    {
      var line := TrimSpace(lines[k], space);
      ghost var before := res;
      if KeepLine(line, parses) {
        res := res + [line];
      }
      FilterStep(lines, k, before, res, space, parses);
      k := k + 1;
    }
    assert KeptLinks(lines[k..], space, parses) == [];
    assert res + [] == res;
  }

  /** parseLinksFromFile (internal/links.go:159-177), as written. */
  method ParseLinksFromFile(file: string, readFile: string -> Result<string>,
                            space: char -> bool, parses: string -> bool)
    returns (r: Result<seq<string>>)
    ensures r == LinksFromFile(file, readFile, space, parses)
  {
    var data := readFile(file);
    if data.Err? {
      return Err(data.error);
    }
    var links := FilterLines(Split(data.value, '\n'), space, parses);
    return Ok(links);
  }

  // ----------------------------------------------------------- links add

  /** Flags of `links add`. */
  datatype AddArgs = AddArgs(
    common: Session.Common,
    fromFile: string,
    links: seq<string>,
    packageName: string,
    downloadDir: string,
    autoStart: bool)

  /** The position an option kind takes in the option list. */
  function OptionRank(o: AddOption): nat {
    match o
    case Autostart(_) => 0
    case PackageName(_) => 1
    case DestinationDir(_) => 2
  }

  /** The option list `links add` passes to the collector
      (internal/links.go:75-82). */
  function AddOptions(autoStart: bool, packageName: string, downloadDir: string): (opts: seq<AddOption>)
    ensures 0 < |opts| && opts[0] == Autostart(autoStart)
    ensures forall i, j :: 0 <= i < j < |opts| ==> OptionRank(opts[i]) < OptionRank(opts[j])
    ensures PackageName(packageName) in opts <==> 0 < |packageName|
    ensures DestinationDir(downloadDir) in opts <==> 0 < |downloadDir|
    ensures forall o :: o in opts && o.PackageName? ==> o == PackageName(packageName)
    ensures forall o :: o in opts && o.DestinationDir? ==> o == DestinationDir(downloadDir)
  {
    [Autostart(autoStart)]
      + (if 0 < |packageName| then [PackageName(packageName)] else [])
      + (if 0 < |downloadDir| then [DestinationDir(downloadDir)] else [])
  }

  /** The action of `links add` (internal/links.go:74-89) on a device:
      one Add call with the links and options, then the response printed,
      or Add's error returned with nothing printed. */
  function AddAction(links: seq<string>, opts: seq<AddOption>, dev: Device): (a: ActionRun)
    ensures |a.events| >= 1 && a.events[0] == Call(AddLinks(links, opts))
    ensures dev.api.add(links, opts).Err? ==>
      a == ActionRun([Call(AddLinks(links, opts))], Fail(dev.api.add(links, opts).error))
    ensures dev.api.add(links, opts).Ok? ==>
      a == ActionRun([Call(AddLinks(links, opts)), Print(ResponsePrefix + dev.api.add(links, opts).value + "\n")], Pass)
  {
    var call := Call(AddLinks(links, opts));
    match dev.api.add(links, opts)
    case Err(e) => ActionRun([call], Fail(e))
    case Ok(data) => ActionRun([call, Print(ResponsePrefix + data + "\n")], Pass)
  }

  /** AddAction as the callback handed to the session helper. */
  function AddHandler(links: seq<string>, opts: seq<AddOption>): Device -> ActionRun {
    (dev: Device) => AddAction(links, opts, dev)
  }

  /** The links `links add` submits: the --link values, then the file's. */
  function LinksToAdd(args: AddArgs, readFile: string -> Result<string>,
                      space: char -> bool, parses: string -> bool): Result<seq<string>> {
    if 0 < |args.fromFile| then
      var fileLinks :- LinksFromFile(args.fromFile, readFile, space, parses);
      Ok(args.links + fileLinks)
    else Ok(args.links)
  }

  /** `links add` (internal/links.go:63-90). */
  function AddCommand(args: AddArgs, readFile: string -> Result<string>,
                      space: char -> bool, parses: string -> bool,
                      env: Config.Env, dial: Config.ClientSpec -> Client): (r: Run)
    requires Config.KeysPresent(env)
    ensures LinksToAdd(args, readFile, space, parses).Err? ==>
      r == Run([], Fail(LinksToAdd(args, readFile, space, parses).error))
    ensures LinksToAdd(args, readFile, space, parses) == Ok([]) ==>
      r == Run([], Fail(Error(NoLinksSpecified)))
    ensures r.events != [] <==>
      LinksToAdd(args, readFile, space, parses).Ok? && LinksToAdd(args, readFile, space, parses).value != []
  {
    match LinksToAdd(args, readFile, space, parses)
    case Err(e) => Run([], Fail(e))
    case Ok(links) =>
      if |links| == 0 then Run([], Fail(Error(NoLinksSpecified)))
      else
        var opts := AddOptions(args.autoStart, args.packageName, args.downloadDir);
        Session.DoWithDevice(args.common.debug, args.common.device, env, dial, AddHandler(links, opts))
  }

  /** File links are appended after the --link values, in file order; a
      file that yields no links with no --link values is refused before
      any client is built. */
  lemma AddMergesLinks(args: AddArgs, readFile: string -> Result<string>,
                       space: char -> bool, parses: string -> bool)
    requires 0 < |args.fromFile| && readFile(args.fromFile).Ok?
    ensures var fileLinks := KeptLinks(Split(readFile(args.fromFile).value, '\n'), space, parses);
      var merged := LinksToAdd(args, readFile, space, parses);
      && merged == Ok(args.links + fileLinks)
      && merged.value[..|args.links|] == args.links
      && merged.value[|args.links|..] == fileLinks
  {
  }

  /** On a resolved device, `links add` makes one Add call carrying the
      merged links and the option list built from the flags, and returns
      Add's error, or nil once the response is printed. */
  lemma AddSubmitsMergedLinks(args: AddArgs, readFile: string -> Result<string>,
                              space: char -> bool, parses: string -> bool,
                              env: Config.Env, dial: Config.ClientSpec -> Client)
    requires Config.KeysPresent(env)
    requires LinksToAdd(args, readFile, space, parses).Ok? && LinksToAdd(args, readFile, space, parses).value != []
    requires Session.Connected(args.common.debug, env, dial)
    ensures var client := dial(Config.GetClient(args.common.debug, env).result.value);
      var devname := args.common.device;
      var name := if |devname| == 0 then Session.PickDevice(client) else Ok(devname);
      name.Ok? && client.device(name.value).Ok? ==>
        var dev := client.device(name.value).value;
        var links := LinksToAdd(args, readFile, space, parses).value;
        var opts := AddOptions(args.autoStart, args.packageName, args.downloadDir);
        var r := AddCommand(args, readFile, space, parses, env, dial);
        && Action(Call(AddLinks(links, opts))) in r.events
        && (dev.api.add(links, opts).Err? ==> r.result == Fail(dev.api.add(links, opts).error))
        && (dev.api.add(links, opts).Ok? ==> r.result == Pass)
  {
    var debug, devname := args.common.debug, args.common.device;
    var client := dial(Config.GetClient(debug, env).result.value);
    var name := if |devname| == 0 then Session.PickDevice(client) else Ok(devname);
    if name.Ok? && client.device(name.value).Ok? {
      var links := LinksToAdd(args, readFile, space, parses).value;
      var opts := AddOptions(args.autoStart, args.packageName, args.downloadDir);
      var fn := AddHandler(links, opts);
      assert AddCommand(args, readFile, space, parses, env, dial) == Session.DoWithDevice(debug, devname, env, dial, fn);
      Session.ActionRunsOnlyOnResolvedDevice(debug, devname, env, dial, fn);
      Session.ActionEventsRecorded(debug, devname, env, dial, fn);
      assert Call(AddLinks(links, opts)) in fn(client.device(name.value).value).events;
    }
  }

  // ---------------------------------------------------------- links list

  /** One table row of `links list` (internal/links.go:132-143). The status
      and size cells stay empty when those fields are absent. */
  function CollectorRow(link: CollectorLink): (row: seq<string>)
    ensures |row| == |CollectorColumns|
    ensures Decimal.ParseNat(row[0]) == Some(GoInts.Uint64Of(link.uuid))
    ensures row[1] == link.name
    ensures |row[2]| == if |link.url| <= Format.UrlDisplayLength then |link.url| else Format.UrlDisplayLength
    ensures row[2] == link.url[..|row[2]|]
    ensures link.status.Some? ==> row[3] == link.status.value
    ensures link.status.None? ==> row[3] == ""
    ensures link.bytesTotal.None? <==> row[4] == ""
    ensures link.bytesTotal.Some? ==> row[4] == Format.FormatSize(link.bytesTotal)
  {
    [ Format.IdText(link.uuid),
      link.name,
      Format.CompressUrl(link.url),
      if link.status.Some? then link.status.value else "",
      if link.bytesTotal.Some? then Format.FormatSize(link.bytesTotal) else ""
    ]
  }

  /** The table branch of `links list` (internal/links.go:112-150): an
      empty collector prints "No links" instead of a table. */
  function ListAction(dev: Device): (a: ActionRun)
    ensures |a.events| >= 1 && a.events[0] == Call(CollectorLinks)
    ensures dev.api.collectorLinks.Err? ==> a == ActionRun([Call(CollectorLinks)], Fail(dev.api.collectorLinks.error))
    ensures dev.api.collectorLinks == Ok([]) ==> a == ActionRun([Call(CollectorLinks), Print(NoLinks)], Pass)
    ensures dev.api.collectorLinks.Ok? && dev.api.collectorLinks.value != [] ==>
      && a.result == Pass
      && |a.events| == 2
      && a.events[1].Table?
      && a.events[1].header == CollectorColumns
      && |a.events[1].rows| == |dev.api.collectorLinks.value|
      && forall i :: 0 <= i < |a.events[1].rows| ==> a.events[1].rows[i] == CollectorRow(dev.api.collectorLinks.value[i])
  {
    match dev.api.collectorLinks
    case Err(e) => ActionRun([Call(CollectorLinks)], Fail(e))
    case Ok(links) =>
      if |links| > 0 then
        var rows := seq(|links|, i requires 0 <= i < |links| => CollectorRow(links[i]));
        ActionRun([Call(CollectorLinks), Table(CollectorColumns, rows)], Pass)
      else
        ActionRun([Call(CollectorLinks), Print(NoLinks)], Pass)
  }
}
