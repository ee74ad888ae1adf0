# jdcli command core in Dafny

`jdcli` is a command-line client for a remote download manager. The
download manager and its web API live elsewhere: each `jdcli` command loads
stored credentials, builds a client, connects, picks a device, makes one or
two remote calls, and prints the result as text or a table. This project
models the logic the repository owns around those calls and proves what it
promises:

- **Formatting** (`Format`, `internal/util.go`). `formatSize` picks a binary
  unit and prints one decimal. The model covers Go's `float64(int64)`
  rounding to 53 bits and `%.1f` rounding half to even. `formatEta` uses Go's
  truncating `/` and `%`. `formatSpeed` truncates a float64 toward zero.
  `compressUrl` keeps the first 80 bytes.
- **Session helper** (`Session`, `internal/util.go`). `pickDevice` returns
  the first listed device. `doWithDevice` builds the client, connects,
  resolves the device, runs the command's action and disconnects.
  `clientCloser` turns a failed disconnect into a warning.
- **Credential store** (`Config`, `internal/config.go`). It finds the config
  path (the `JD_CONFIG` override or the per-user config directory), loads and
  validates credentials, builds the parameters the client is created with, and saves the file.
- **Link collector commands** (`Links`, `internal/links.go`). These read link
  files, merge links and build the option list for `links add`, and build
  the `links list` table.
- **Downloader commands** (`Downloads`, `internal/downloads.go`). These cover
  the selection and removal in `download clean`, the id check in
  `download link rm`, the rows of `download link list` and
  `download package list`, `download status`, and the
  pause/stop/start controls.

The remote client library, the filesystem, the environment, the YAML codec,
the logger constructors, `url.Parse` and Unicode's whitespace class are
**parameters** (oracle values or functions), so every result is stated for
every possible behaviour of those collaborators. A command's observable
behaviour is an event trace (`Remote.Event`, `Remote.DeviceEvent`): client
construction, connect, device listing and opening, each remote call, each
printed text, each rendered table, and the disconnect. It also has a
returned error (`Wrappers.Outcome`).

Supporting modules:
- `Wrappers` holds Option, Result and Outcome.
- `GoInts` holds int64 bounds, truncating division, `uint64(int64)` and
  float-to-int truncation.
- `Decimal` holds Go's `%d`, `%2.2d` and `%t` text, with parsers that invert
  them.
- `GoStrings` holds `strings.Split`, `strings.Join` and `strings.TrimSpace`.
- `Sequences` holds the subsequence relation.

Facts of the code worth knowing when reading the model:
- `saveConfig` writes the file with mode `0o644` (`Config.ConfigFileMode`).
- `download status` queries the speed, then the state: two remote calls.
- `download link rm` names its flag `--id`, while its error message says
  `--ids`; the message is kept verbatim.
- `download start` calls the downloader's `Stop()`; see "## Findings".

## Model

| member | source | states |
|---|---|---|
| `Format.SizeExponent` | internal/util.go:85-93 | For sizes of at least 1024 bytes, the chosen unit exponent `e` satisfies 1024^(e+1) <= bytes < 1024^(e+2). It always indexes one of the six prefixes `KMGTPE`. |
| `Format.SizeUnitChoice` | internal/util.go:89-94 | That exponent is the only one with this bracket (both directions). The loop's integer quotient `bytes / 1024^(e+1)` lies in [1, 1024); the printed value is rounded and can reach 1024.0. |
| `Format.ScaleLoop` | internal/util.go:89-93 | The division loop, as written, ends with the reference exponent. It ends with `div` = 1024^(exp+1) <= bytes and never overflows int64. |
| `Format.RoundHalfEven` | internal/util.go:94 | The result is within half a unit of n/d, and an exact tie goes to the even neighbour (the rounding `%.1f` uses). |
| `Format.DoubleOf` | internal/util.go:94 | `float64(bytes)` is exact below 2^53. Above that it is a multiple of the dropped-bit weight, within half of it of the input, and an exact tie goes to the even multiple. |
| `Format.DroppedBitsSpacing` | internal/util.go:94 | From 2^53 on, dropping `DroppedBits(b)` low bits leaves a significand in [2^52, 2^53): the weight is float64's spacing at b. |
| `Format.TenthsText` | internal/util.go:94 | `%.1f` of a count of tenths: digits, a point and one digit, which `ParseTenths` reads back as the count. |
| `Format.FormatSize` | internal/util.go:81-95 | `N/A` exactly for a missing size. Below 1024 it is the decimal integer followed by ` B`. Otherwise it is ` <prefix>iB` with the chosen prefix, after a number that reads back as the rounded tenths of float64(bytes) / 1024^(e+1). |
| `Format.SmallSizeRoundTrip` | internal/util.go:86-88 | Below 1024 the byte count can be parsed back from the text. |
| `Format.SizeTenthsAccurate` | internal/util.go:94 | The number formatSize prints is within half a tenth of float64(bytes) / 1024^(e+1), an exact tie printing the even neighbour; below 2^53 float64(bytes) is bytes itself. |
| `Format.FormatSizeRoundsUpExample` | internal/util.go:89-94 | 1048575 bytes print as `1024.0 KiB`: the unit stays KiB while the rounded number reaches 1024.0. |
| `Format.EtaParts` | internal/util.go:101-104 | Days, hours, minutes and seconds recombine to the input. Each part keeps the sign of the input and is bounded by its unit, as Go's truncating `/` and `%` give. |
| `Format.Clock` | internal/util.go:109 | `%2.2d:%2.2d:%2.2d` of in-range parts is 8 characters. |
| `Format.ClockRoundTrip` | internal/util.go:109 | A clock of hours below 24 and minutes and seconds below 60 reads back as its seconds. |
| `Format.FormatEta` | internal/util.go:97-111 | `N/A` exactly for a missing ETA. Under one day it is `hh:mm:ss` (8 characters). From one day on it is prefixed by `<days> days `. |
| `Format.FormatEtaRoundTrip` | internal/util.go:97-111 | Every non-negative int64 ETA parses back from the formatted text (days, hh, mm, ss). |
| `Format.FormatSpeed` | internal/util.go:113-119 | `N/A` exactly for a missing speed. Otherwise it is the size text of the speed truncated toward zero, followed by `/s`. |
| `Format.CompressUrl` | internal/util.go:121-126 | The result is the prefix of the URL of length min(len, 80). |
| `Format.CompressUrlIdempotent` | internal/util.go:121-126 | Compressing twice is compressing once, and a URL of at most 80 bytes is unchanged. |
| `Format.IdText` | internal/downloads.go:97 | The ID cell parses back to the identifier's unsigned 64-bit value: the identifier itself if non-negative, plus 2^64 if negative. |
| `Format.FormatSpeedByteExample` | internal/util_test.go:45-51 | `1000 B/s` for 1000.0 and `N/A` for a missing speed. |
| `Format.FormatSpeedSmallKibExample` | internal/util_test.go:47 | `9.8 KiB/s` for 10000.0. |
| `Format.FormatSpeedKibExample` | internal/util_test.go:48 | `976.6 KiB/s` for 1000000.0. |
| `Format.FormatSpeedMibExample` | internal/util_test.go:49 | `95.4 MiB/s` for 100000000.0. |
| `Format.FormatEtaClockExample` | internal/util_test.go:53-57 | `00:16:40` for 1000 seconds and `N/A` for a missing ETA. |
| `Format.FormatEtaDaysExample` | internal/util_test.go:55 | `8 days 21:32:34` for 768754 seconds. |
| `Decimal.Pad2` | internal/util.go:109 | `%2.2d` gives exactly two digits, with the value's digits, for 0..99, and a leading minus exactly for negative values. |
| `Decimal.IntText` | internal/util.go:87 | `%d` of an integer: non-empty, with a leading minus exactly for negative values. |
| `Decimal.IntTextRoundTrip` | internal/util.go:87 | The `%d` text of any integer parses back to it. |
| `Decimal.BoolText` | internal/downloads.go:274 | `%t` prints `true` exactly for true and `false` exactly for false. |
| `Decimal.NatTextRoundTrip` | internal/links.go:133 | The decimal text of a natural number parses back to it. |
| `GoInts.Uint64Of` | internal/links.go:133 | `uint64(x)` lies in [0, 2^64), agrees with x modulo 2^64, and is x itself for x >= 0. |
| `GoInts.Trunc` | internal/util.go:117 | `int64(f)` discards the fraction toward zero for both signs. |
| `GoInts.Rem` | internal/util.go:102-104 | Truncating remainder: quotient * d + remainder = a, with the remainder's sign that of a and its size below d's. |
| `GoStrings.Split` | internal/links.go:165 | At least one piece, and no piece contains the separator. |
| `GoStrings.JoinSplit` | internal/links.go:165 | Joining the pieces of a split with the separator gives back the input. |
| `GoStrings.SplitJoin` | internal/links.go:165 | Splitting a join of separator-free pieces gives back the pieces. |
| `GoStrings.TrimSpace` | internal/links.go:167 | The result is the input's slice between the trim bounds. It neither starts nor ends with whitespace, and everything cut off is whitespace. |
| `GoStrings.TrimSpaceIdempotent` | internal/links.go:167 | Trimming twice is trimming once. |
| `Session.PickDevice` | internal/util.go:39-49 | A listing error is passed through. The result is the first device's name exactly when the list is non-empty, and `no device available` otherwise. |
| `Session.PickDeviceExamples` | internal/util_test.go:25-35 | An empty device list is an error. A list holding `mock` yields `mock`. |
| `Session.ClientCloser` | internal/util.go:74-79 | Exactly one Disconnect, followed by a warning exactly when it fails. |
| `Session.Scoped` | internal/util.go:61-71 | The part of a session between connecting and closing never builds, connects or disconnects a client. |
| `Session.DoWithDevice` | internal/util.go:51-72 | Every run starts by building the client. A failure to build it is returned with nothing else done. A failure to connect is returned right after the Connect attempt, and the action never runs. |
| `Session.ReleasedExactlyOnce` | internal/util.go:56-60 | Connect is tried exactly when the client was built. Disconnect happens once if Connect succeeded and never otherwise, on every exit path, and only warnings follow it. |
| `Session.ListsDevicesOnlyWithoutName` | internal/util.go:61-66 | The device list is requested exactly when connected and no device name was given. |
| `Session.ActionRunsOnlyOnResolvedDevice` | internal/util.go:61-71 | A resolution or open error is returned and the action never runs. Otherwise the action runs exactly once and its error is the command's result. |
| `Session.DisconnectNeverChangesResult` | internal/util.go:74-79 | A failing disconnect never changes the command's result. |
| `Config.ConfigPath` | internal/config.go:87-96 | The set override is used verbatim, even if empty. Otherwise the result is the config directory followed by `/jdconfig.yaml`, and a directory lookup error is passed through. |
| `Config.OverrideIgnoresConfigDir` | internal/config.go:87-96 | With the override set, the per-user directory does not affect the path. |
| `Config.LoadConfig` | internal/config.go:55-73 | Success exactly when path, read and decode succeed with non-empty mail and password. Earlier errors are passed through. Otherwise the error is `credentials are not specified...`, already when the mail is empty, whatever the password. |
| `Config.GetClient` | internal/config.go:36-53 | Credentials are loaded first. The logger is built only after a successful load, and the client only after both succeed. The client gets the loaded mail and password, the debug flag, a 30 s timeout and app key `jdcli`. |
| `Config.ClientOnlyFromValidCredentials` | internal/config.go:36-53 | A client is built exactly when one is returned. |
| `Config.SaveConfig` | internal/config.go:75-85 | At most one write. Nothing is written on a marshal or path error. When both succeed, the marshalled data goes to the config path with mode 0o644 and the write's error is returned. |
| `Links.KeptLinks` | internal/links.go:164-176 | Every kept line is non-empty, does not start with `;`, and parses as a URL. |
| `Links.KeptLinksTrimmed` | internal/links.go:167 | Every kept link is already trimmed. |
| `Links.KeptLinksSubsequence` | internal/links.go:166-175 | The kept links are a subsequence of the trimmed lines, in file order. |
| `Links.KeptLinksMembership` | internal/links.go:166-175 | A string is kept exactly when some line trims to it and it passes the filter. |
| `Links.LinksFromFile` | internal/links.go:159-177 | A read error is the only error. Otherwise there are at most as many links as lines. |
| `Links.FilterLines` | internal/links.go:164-176 | The loop as written yields exactly the reference list of kept links. |
| `Links.ParseLinksFromFile` | internal/links.go:159-177 | The whole function as written equals the reference definition. |
| `Links.AddOptions` | internal/links.go:75-82 | Autostart always comes first. Package name and destination are present exactly when non-empty, in that order, with the given values. |
| `Links.AddAction` | internal/links.go:74-89 | One Add call with the given links and options. Add's error is returned with nothing printed; otherwise `Response: <data>` is printed and the result is nil. |
| `Links.AddCommand` | internal/links.go:63-90 | A file error, or an empty merged list (`no links specified`), is returned before any client is built. A session starts exactly when there are links to add. |
| `Links.AddMergesLinks` | internal/links.go:64-70 | The submitted list is the `--link` values followed by the file's links. |
| `Links.AddSubmitsMergedLinks` | internal/links.go:64-89 | On a resolved device, the Add call carries the merged links and the option list built from the flags, and the command returns Add's error, or nil. |
| `Links.CollectorRow` | internal/links.go:132-143 | The ID reads back as the unsigned identifier. The URL is its compressed prefix. Status is empty when absent. The size cell is empty exactly when the size is absent, and the size text otherwise. |
| `Links.ListAction` | internal/links.go:112-150 | A listing error is returned. An empty collector prints `No links`. Otherwise a table with the five columns has one row per link, in order. |
| `Downloads.FinishedLinks` | internal/downloads.go:241-246 | Every selected link has status `Finished`. |
| `Downloads.FinishedLinksMembership` | internal/downloads.go:241-246 | A link is selected exactly when it is listed and finished. |
| `Downloads.FinishedLinksSubsequence` | internal/downloads.go:241-246 | The selection keeps list order. |
| `Downloads.CleanSelection` | internal/downloads.go:240-246 | The identifiers removed are those of the finished links, in order. |
| `Downloads.CleanSelectionMembership` | internal/downloads.go:240-246 | An identifier is removed exactly when a finished link carries it. |
| `Downloads.CleanNotices` | internal/downloads.go:242-243 | One `... is completed and will be removed` notice per selected link, in the same order. |
| `Downloads.CleanScan` | internal/downloads.go:240-246 | The loop as written yields exactly the reference identifiers and notices. |
| `Downloads.CleanAction` | internal/downloads.go:234-258 | A listing error is returned. Otherwise the notices come first. With nothing finished it prints `Nothing to clean`. Otherwise it calls Remove with the selection and no packages, then either returns Remove's error or prints `<n> links cleaned`. |
| `Downloads.CleanRemovesOnlyFinished` | internal/downloads.go:247-256 | Remove is called exactly when some link is finished, and every Remove call carries exactly the finished identifiers. |
| `Downloads.RmAction` | internal/downloads.go:132-134 | One Remove call with the given links and no packages; Remove's error is the result. |
| `Downloads.RmCommand` | internal/downloads.go:128-135 | No identifiers is an error before any client is built. Otherwise a session starts. |
| `Downloads.RmRemovesGivenIds` | internal/downloads.go:132-134 | On a resolved device, Remove gets exactly the given identifiers and no packages, and its error is the result. |
| `Downloads.LinkRow` | internal/downloads.go:96-105 | The ID reads back as the unsigned identifier and the URL is its compressed prefix. Status is empty when absent. The ETA, speed and size cells are formatEta, formatSpeed and formatSize of the link's fields. |
| `Downloads.LinkRowProgress` | internal/downloads.go:102-104 | The ETA, speed and size cells are `N/A` exactly when the field is absent, and a non-negative ETA parses back. |
| `Downloads.LinkListAction` | internal/downloads.go:77-109 | A listing error is returned. Otherwise the six-column table has one row per link, in order, even when there are no links. |
| `Downloads.PackageRow` | internal/downloads.go:181-189 | The ID reads back and the name and save path are kept. Status is empty when absent. The size cell is formatSize of the total: `N/A` exactly when absent. |
| `Downloads.PackageListAction` | internal/downloads.go:162-193 | A listing error is returned. Otherwise the five-column table has one row per package, in order. |
| `Downloads.StatusAction` | internal/downloads.go:208-220 | The state is queried only after the speed query succeeds. Both lines are printed exactly when both queries succeed. |
| `Downloads.ControlOpAsWritten` | internal/downloads.go:266-317 | As written, no subcommand maps to Start, and only `pause` maps to Pause. |
| `Downloads.StartStopsAsWritten` | internal/downloads.go:302-317 | As written, `start` invokes the same operation as `stop`. |
| `Downloads.ControlOp` | internal/downloads.go:266-317 | Corrected mapping: pause, stop and start invoke Pause, Stop and Start respectively (both directions). |
| `Downloads.ControlOpBijective` | internal/downloads.go:266-317 | Subcommands and operations correspond one to one. |
| `Downloads.ControlAction` | internal/downloads.go:272-276 | Given the operation: one call to it, then `Result : <bool>` printed without a newline even when the call fails. The text says `true` exactly when the call reported true, and the call's error is the result. |
| `Downloads.ControlCommandAction` | internal/downloads.go:266-317 | As written, each subcommand issues the operation `ControlOpAsWritten` gives it and returns that call's error. |
| `Downloads.StartCommandStops` | internal/downloads.go:302-317 | As written, `download start` runs exactly the action of `download stop`, and no subcommand ever issues a Start call. |
| `Downloads.CorrectedControlCommandAction` | internal/downloads.go:266-317 | Corrected: each subcommand issues the operation `ControlOp` gives it. |
| `Downloads.CorrectedControlIssuesOwnOp` | internal/downloads.go:266-317 | Corrected: an operation is issued by its own subcommand and by no other. |

## Left out

- JSON output (`--json`) of the three list commands: a library-defined encoding of its records, not the repository's own logic.
- Table rendering: a table is one event holding header and rows. `tablewriter`'s layout and `Render` errors are not modelled, and `links list` is taken to succeed once the table is built.
- `login`, `device list`, `version`, the root command and flag registration: argument plumbing and interactive prompts around the modelled operations.
- The remote API, the filesystem, environment lookups, the YAML codec, the logger constructors and `url.Parse` are oracle parameters. The model states results for every behaviour they can have.
- `strings.TrimSpace`'s Unicode whitespace class is a parameter predicate. The model treats strings as sequences of characters, while Go's `len`, `[0:80]` and `line[0]` count bytes; the two agree on ASCII.
- Config.LoadConfig: requires that a decoded record has a `mail` key, and a `password` key when the mail is non-empty. Otherwise the dereferences at internal/config.go:69 panic, which the model does not represent.
- Format.FormatSpeed: defined only for speeds strictly inside the int64 range. Go's conversion of NaN, infinities and out-of-range floats is implementation-defined.
- Format.FormatEtaRoundTrip: stated for non-negative ETAs. Negative ETAs are formatted with Go's truncating arithmetic (`Format.EtaParts`), but no parser for that text is given.
- Nil pointers returned by the remote library are not modelled: where the source dereferences one unconditionally, the model takes the value as present, so the nil-pointer panics are left out. The cases follow, one per member.
- Links.CollectorRow: the uuid, name and URL pointers (internal/links.go:133-135) are always present.
- Links.ListAction: the link-list pointer (internal/links.go:127, 131) is always non-nil.
- Downloads.LinkRow: the uuid and URL pointers (internal/downloads.go:97-98) are always present.
- Downloads.LinkListAction: the link-list pointer (internal/downloads.go:95) is always non-nil.
- Downloads.PackageRow: the uuid, name and save-path pointers (internal/downloads.go:182-187) are always present.
- Downloads.PackageListAction: the package-list pointer (internal/downloads.go:180) is always non-nil.
- Downloads.CleanAction: the link-list pointer (internal/downloads.go:241) is always non-nil, and a finished link's URL and uuid pointers (internal/downloads.go:243-244) are always present. This also applies to Downloads.CleanSelection, Downloads.CleanNotices and Downloads.CleanScan.
- Downloads.StatusAction: the state string pointer (internal/downloads.go:217) is always present.
- Session.PickDevice: the device-list pointer (internal/util.go:44, 47) is always non-nil when ListDevices returns no error.
- Concurrency and logging: none is observable in the modelled operations.

## Findings

| source | as written | input that shows it | evidently intended | confidence | as-written member | corrected member |
|---|---|---|---|---|---|---|
| internal/downloads.go:309 | `download start` calls the downloader's `Stop()` | `jdcli download start` | `download start` calls `Start()` | not executed | `Downloads.StartCommandStops` | `Downloads.CorrectedControlIssuesOwnOp` |
