/** The credential store of internal/config.go: where the config file
    lives, how credentials are loaded and validated, how the remote client
    is built from them, and how they are saved. The environment, the
    filesystem, the YAML codec and the logger constructors are oracles. */
module Config {
  import opened Wrappers

  /** The environment variable that overrides the config file location. */
  const ConfigPathVariable: string := "JD_CONFIG"
  /** Appended to the per-user configuration directory. */
  const ConfigFileSuffix: string := "/jdconfig.yaml"
  const CredentialsMissing: string := "credentials are not specified. Use 'jdcli login' to populate them"
  /** The permission bits saveConfig writes with, 0o644. */
  const ConfigFileMode: nat := 0x1A4
  const ClientTimeoutSeconds: nat := 30
  const ClientAppKey: string := "jdcli"

  /** The YAML record: keys `mail`, `password`, `device`, each possibly absent. */
  datatype ConfigData = ConfigData(mail: Option<string>, password: Option<string>, device: Option<string>)

  /** What the config code observes of the process and the filesystem. */
  datatype Env = Env(
    configVariable: Option<string>,        // os.LookupEnv(JD_CONFIG)
    userConfigDir: Result<string>,         // os.UserConfigDir()
    readFile: string -> Result<string>,    // ioutil.ReadFile
    unmarshal: string -> Result<ConfigData>,
    newLogger: bool -> Outcome)            // zap.NewDevelopment (true) / zap.NewProduction (false)

  /** getConfigPath (internal/config.go:87-96). */
  function ConfigPath(env: Env): (r: Result<string>)
    ensures env.configVariable.Some? ==> r == Ok(env.configVariable.value)
    ensures env.configVariable.None? && env.userConfigDir.Err? ==> r == Err(env.userConfigDir.error)
    ensures env.configVariable.None? && env.userConfigDir.Ok? ==>
      && r.Ok?
      && |r.value| == |env.userConfigDir.value| + |ConfigFileSuffix|
      && r.value[..|env.userConfigDir.value|] == env.userConfigDir.value
      && r.value[|env.userConfigDir.value|..] == ConfigFileSuffix
  {
    match env.configVariable
    case Some(path) => Ok(path)
    case None =>
      match env.userConfigDir
      case Err(e) => Err(e)
      case Ok(dir) => Ok(dir + ConfigFileSuffix)
  }

  /** When the override is set, even to the empty string, the per-user
      configuration directory is never consulted. */
  lemma OverrideIgnoresConfigDir(env: Env, dir: Result<string>)
    requires env.configVariable.Some?
    ensures ConfigPath(env) == ConfigPath(env.(userConfigDir := dir)) == Ok(env.configVariable.value)
  {
  }

  /** The decoded record, when every step before validation succeeds. */
  function Decoded(env: Env): Result<ConfigData> {
    var path :- ConfigPath(env);
    var data :- env.readFile(path);
    env.unmarshal(data)
  }

  /** loadConfig dereferences `mail`, and `password` only when `mail` is
      non-empty (the `||` at internal/config.go:69 stops early); a record
      that would make either dereference panic is outside the model. */
  predicate KeysPresent(env: Env) {
    Decoded(env).Ok? ==>
      && Decoded(env).value.mail.Some?
      && (Decoded(env).value.mail.value != "" ==> Decoded(env).value.password.Some?)
  }

  /** loadConfig (internal/config.go:55-73). */
  function LoadConfig(env: Env): (r: Result<ConfigData>)
    requires KeysPresent(env)
    ensures r.Ok? <==> Decoded(env).Ok? && Decoded(env).value.mail.value != "" && Decoded(env).value.password.value != ""
    ensures r.Ok? ==> r.value == Decoded(env).value
    ensures Decoded(env).Err? ==> r == Decoded(env)
    ensures Decoded(env).Ok? && r.Err? ==> r.error == Error(CredentialsMissing)
    ensures Decoded(env).Ok? && Decoded(env).value.mail.value == "" ==> r == Err(Error(CredentialsMissing))
  {
    var cfg :- Decoded(env);
    if |cfg.mail.value| == 0 || |cfg.password.value| == 0 then Err(Error(CredentialsMissing))
    else Ok(cfg)
  }

  /** What jdownloader.NewClient is called with. */
  datatype ClientSpec = ClientSpec(
    mail: string,
    password: string,
    developmentLogger: bool,
    timeoutSeconds: nat,
    appKey: string)

  /** Steps getClient performs, in order. */
  datatype BuildStep = LoadConfigStep | NewLogger(development: bool) | NewClient(spec: ClientSpec)

  datatype ClientBuild = ClientBuild(steps: seq<BuildStep>, result: Result<ClientSpec>)

  /** getClient (internal/config.go:36-53). */
  function GetClient(debug: bool, env: Env): (b: ClientBuild)
    requires KeysPresent(env)
    ensures |b.steps| >= 1 && b.steps[0] == LoadConfigStep
    ensures LoadConfig(env).Err? ==> b == ClientBuild([LoadConfigStep], Err(LoadConfig(env).error))
    ensures b.result.Ok? <==> LoadConfig(env).Ok? && env.newLogger(debug).Pass?
    ensures b.result.Ok? ==>
      && b.steps == [LoadConfigStep, NewLogger(debug), NewClient(b.result.value)]
      && b.result.value.mail == LoadConfig(env).value.mail.value
      && b.result.value.password == LoadConfig(env).value.password.value
      && b.result.value.developmentLogger == debug
      && b.result.value.timeoutSeconds == ClientTimeoutSeconds
      && b.result.value.appKey == ClientAppKey
  {
    match LoadConfig(env)
    case Err(e) => ClientBuild([LoadConfigStep], Err(e))
    case Ok(cfg) =>
      match env.newLogger(debug)
      case Fail(e) => ClientBuild([LoadConfigStep, NewLogger(debug)], Err(e))
      case Pass =>
        var spec := ClientSpec(cfg.mail.value, cfg.password.value, debug, ClientTimeoutSeconds, ClientAppKey);
        ClientBuild([LoadConfigStep, NewLogger(debug), NewClient(spec)], Ok(spec))
  }

  /** No client is ever built from credentials loadConfig rejected: a
      NewClient step appears exactly when a client is returned. */
  lemma ClientOnlyFromValidCredentials(debug: bool, env: Env)
    requires KeysPresent(env)
    ensures var b := GetClient(debug, env);
      (exists i :: 0 <= i < |b.steps| && b.steps[i].NewClient?) <==> b.result.Ok?
  {
    var b := GetClient(debug, env);
    if b.result.Ok? {
      assert b.steps[2].NewClient?;
    }
  }

  /** A file write attempted by saveConfig. */
  datatype FileWrite = FileWrite(path: string, data: string, mode: nat)

  datatype SaveRun = SaveRun(writes: seq<FileWrite>, result: Outcome)

  /** saveConfig (internal/config.go:75-85). */
  function SaveConfig(cfg: ConfigData, env: Env, marshal: ConfigData -> Result<string>,
                      write: FileWrite -> Outcome): (s: SaveRun)
    ensures |s.writes| <= 1
    ensures marshal(cfg).Err? ==> s == SaveRun([], Fail(marshal(cfg).error))
    ensures marshal(cfg).Ok? && ConfigPath(env).Err? ==> s == SaveRun([], Fail(ConfigPath(env).error))
    ensures |s.writes| == 1 <==> marshal(cfg).Ok? && ConfigPath(env).Ok?
    ensures |s.writes| == 1 ==>
      && s.writes[0] == FileWrite(ConfigPath(env).value, marshal(cfg).value, ConfigFileMode)
      && s.result == write(s.writes[0])
  {
    match marshal(cfg)
    case Err(e) => SaveRun([], Fail(e))
    case Ok(data) =>
      match ConfigPath(env)
      case Err(e) => SaveRun([], Fail(e))
      case Ok(path) =>
        var w := FileWrite(path, data, ConfigFileMode);
        SaveRun([w], write(w))
  }
}
