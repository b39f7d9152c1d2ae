/** The environment a module's container is given (CollectEnv, lines 340-399): the
    module's own variables, the `KEY=VALUE` strings of its create options, and the
    variables the controller injects, some of them only for edgeAgent or edgeHub. */
module Environment {
  import opened Results
  import Constants

  datatype EnvVar = EnvVar(name: string, value: string)

  /** The identity's credentials; only identity-service credentials carry a
      generation id into the environment. */
  datatype Credentials =
    | IdentityProviderServiceCredentials(moduleGenerationId: string)
    | OtherCredentials

  /** A module identity as the identity manager hands it out. */
  datatype Identity = Identity(moduleId: string, credentials: Credentials)

  /** One entry of a module's `Env` dictionary: a name and its `EnvVal`, `None`
      when the `EnvVal` is null. */
  datatype EnvItem = EnvItem(key: string, value: Option<string>)

  /** A desired module: its name, its type tag, its environment in enumeration
      order, and the `Env` list of its create options (`None` when the config, its
      create options or the list is null; a null string in the list is `None`). */
  datatype Module = Module(
    name: string,
    moduleType: string,
    env: seq<EnvItem>,
    createOptionsEnv: Option<seq<Option<string>>>)

  /** The controller's constructor arguments that reach the environment, with the
      two URIs already rendered by `ToString` and the runtime log level (read from
      the process-wide logger in the source) passed in. */
  datatype Settings = Settings(
    deviceId: string,
    iotHubHostname: string,
    edgeHostname: string,
    proxyImage: string,
    proxyConfigPath: string,
    proxyConfigVolumeName: string,
    proxyConfigMapName: string,
    proxyTrustBundlePath: string,
    proxyTrustBundleVolumeName: string,
    proxyTrustBundleConfigMapName: string,
    workloadApiVersion: string,
    workloadUri: string,
    managementUri: string,
    logLevel: string)

  /** `Split(new[] { '=' }, 2)` keeping only the two-part results: the text before
      the first `=` and everything after it. */
  function SplitOnFirst(s: string): (r: Option<(string, string)>)
    ensures r.None? <==> '=' !in s
    ensures r.Some? ==> '=' !in r.value.0 && s == r.value.0 + "=" + r.value.1
  {
    if |s| == 0 then None
    else if s[0] == '=' then Some(("", s[1..]))
    else
      match SplitOnFirst(s[1..])
      case None => None
      case Some(kv) => Some(([s[0]] + kv.0, kv.1))
  }

  /** Joining a name without `=` to any value splits back into the same pair: the
      split is the inverse of `name + "=" + value`. */
  lemma {:induction false} SplitOnFirstJoin(name: string, value: string)
    requires '=' !in name
    ensures SplitOnFirst(name + "=" + value) == Some((name, value))
    decreases |name|
  {
    var s := name + "=" + value;
    if |name| == 0 {
      assert s == "=" + value;
      assert s[1..] == value;
    } else {
      assert s[0] == name[0];
      assert s[1..] == name[1..] + "=" + value;
      SplitOnFirstJoin(name[1..], value);
      assert [s[0]] + name[1..] == name;
    }
  }

  /** The variables parsed from the create options' `Env` strings, in order. A
      string without `=` is dropped. */
  function HostEnv(entries: seq<string>): (r: seq<EnvVar>)
    ensures |r| <= |entries|
    decreases |entries|
  {
    if |entries| == 0 then []
    else
      var rest := HostEnv(entries[1..]);
      match SplitOnFirst(entries[0])
      case None => rest
      case Some(kv) => [EnvVar(kv.0, kv.1)] + rest
  }

  /** A single entry yields its `name=value` pair, split at the first `=`, or
      nothing when it holds no `=`. */
  lemma HostEnvOne(e: string)
    ensures '=' !in e ==> HostEnv([e]) == []
    ensures '=' in e ==> exists name, value :: '=' !in name && e == name + "=" + value
                                                && HostEnv([e]) == [EnvVar(name, value)]
  {
    assert [e][1..] == [];
    if '=' in e {
      var kv := SplitOnFirst(e).value;
      assert e == kv.0 + "=" + kv.1;
      assert HostEnv([e]) == [EnvVar(kv.0, kv.1)] + HostEnv([]);
    }
  }

  /** Parsing distributes over concatenation: entries are parsed one by one, and
      the pairs keep the order of the entries they come from. */
  lemma {:induction false} HostEnvAppend(a: seq<string>, b: seq<string>)
    ensures HostEnv(a + b) == HostEnv(a) + HostEnv(b)
    decreases |a|
  {
    if |a| > 0 {
      var ab := a + b;
      assert ab[0] == a[0];
      assert ab[1..] == a[1..] + b;
      HostEnvAppend(a[1..], b);
      match SplitOnFirst(a[0])
      case None =>
        assert HostEnv(ab) == HostEnv(ab[1..]);
        assert HostEnv(a) == HostEnv(a[1..]);
      case Some(kv) =>
        var x := [EnvVar(kv.0, kv.1)];
        assert HostEnv(ab) == x + HostEnv(ab[1..]);
        assert HostEnv(a) == x + HostEnv(a[1..]);
        assert x + (HostEnv(a[1..]) + HostEnv(b)) == (x + HostEnv(a[1..])) + HostEnv(b);
    } else {
      assert a + b == b;
    }
  }

  /** The number of entries that hold an `=`. */
  function EqualsCount(entries: seq<string>): nat
    decreases |entries|
  {
    if |entries| == 0 then 0
    else (if '=' in entries[0] then 1 else 0) + EqualsCount(entries[1..])
  }

  /** Exactly one variable is parsed per entry holding an `=`. */
  lemma {:induction false} HostEnvCount(entries: seq<string>)
    ensures |HostEnv(entries)| == EqualsCount(entries)
    ensures |HostEnv(entries)| <= |entries|
    decreases |entries|
  {
    if |entries| > 0 {
      HostEnvCount(entries[1..]);
    }
  }

  /** A variable is parsed from the create options exactly when some entry is its
      name, an `=`, and its value, with no `=` in the name; only entries without `=`
      are lost. */
  lemma {:induction false} HostEnvMembers(entries: seq<string>)
    ensures forall name, value ::
      EnvVar(name, value) in HostEnv(entries) <==> '=' !in name && name + "=" + value in entries
    decreases |entries|
  {
    if |entries| > 0 {
      HostEnvMembers(entries[1..]);
      forall name, value
        ensures EnvVar(name, value) in HostEnv(entries) <==> '=' !in name && name + "=" + value in entries
      {
        if '=' !in name && name + "=" + value == entries[0] {
          SplitOnFirstJoin(name, value);
        }
        assert entries == [entries[0]] + entries[1..];
      }
    }
  }

  /** The first loop of CollectEnv (lines 344-347): each entry of the module's
      `Env` becomes a variable, in order. Reading the value of a null `EnvVal`
      raises a null reference. */
  function OwnEnv(items: seq<EnvItem>): (r: Result<seq<EnvVar>>)
    ensures r.Ok? <==> forall i | 0 <= i < |items| :: items[i].value.Some?
    ensures r.Err? ==> r.error == NullReference
    ensures r.Ok? ==> (|r.value| == |items|
      && forall i | 0 <= i < |items| :: r.value[i] == EnvVar(items[i].key, items[i].value.value))
    decreases |items|
  {
    if |items| == 0 then Ok([])
    else
      match items[0].value
      case None => Err(NullReference)
      case Some(v) =>
        match OwnEnv(items[1..])
        case Err(e) => Err(e)
        case Ok(rest) => Ok([EnvVar(items[0].key, v)] + rest)
  }

  /** The create options' `Env` list, empty when it is null (line 349). Splitting
      a null string raises a null reference (line 353). */
  function OptionsEnv(m: Module): (r: Result<seq<string>>)
    ensures r.Ok? <==> OptionsPresent(m)
    ensures r.Err? ==> r.error == NullReference
    ensures r.Ok? && m.createOptionsEnv.None? ==> r.value == []
    ensures r.Ok? && m.createOptionsEnv.Some? ==>
      (|r.value| == |m.createOptionsEnv.value|
       && forall i | 0 <= i < |r.value| :: m.createOptionsEnv.value[i] == Some(r.value[i]))
  {
    match m.createOptionsEnv
    case None => Ok([])
    case Some(e) => Strings(e)
  }

  /** The strings of a list, or a null reference at its first null. */
  function Strings(xs: seq<Option<string>>): (r: Result<seq<string>>)
    ensures r.Ok? <==> forall i | 0 <= i < |xs| :: xs[i].Some?
    ensures r.Err? ==> r.error == NullReference
    ensures r.Ok? ==> (|r.value| == |xs| && forall i | 0 <= i < |xs| :: xs[i] == Some(r.value[i]))
    decreases |xs|
  {
    if |xs| == 0 then Ok([])
    else
      match xs[0]
      case None => Err(NullReference)
      case Some(x) =>
        match Strings(xs[1..])
        case Err(e) => Err(e)
        case Ok(rest) => Ok([x] + rest)
  }

  /** No entry of the create options' `Env` list is null. */
  predicate OptionsPresent(m: Module)
  {
    m.createOptionsEnv.Some? ==> forall i | 0 <= i < |m.createOptionsEnv.value| :: m.createOptionsEnv.value[i].Some?
  }

  /** No `EnvVal` of the module and no create-option string is null, so CollectEnv
      cannot throw. */
  predicate EnvPresent(m: Module)
  {
    (forall i | 0 <= i < |m.env| :: m.env[i].value.Some?) && OptionsPresent(m)
  }

  predicate IsAgent(id: Identity)
  {
    id.moduleId == Constants.EdgeAgentModuleIdentityName
  }

  predicate IsHub(id: Identity)
  {
    id.moduleId == Constants.EdgeHubModuleIdentityName
  }

  /** The variables every module gets (lines 361-372). */
  function CommonVars(s: Settings, id: Identity): seq<EnvVar>
  {
    [ EnvVar(Constants.IotHubHostnameVariable, s.iotHubHostname),
      EnvVar(Constants.AuthSchemeVariable, Constants.SasTokenScheme),
      EnvVar(Constants.RuntimeLogLevelVariable, s.logLevel),
      EnvVar(Constants.WorkloadUriVariable, s.workloadUri) ]
    + (match id.credentials
       case IdentityProviderServiceCredentials(g) => [EnvVar(Constants.ModuleGenerationIdVariable, g)]
       case OtherCredentials => [])
    + [ EnvVar(Constants.DeviceIdVariable, s.deviceId),
        EnvVar(Constants.ModuleIdVariable, id.moduleId),
        EnvVar(Constants.ApiVersionVariable, s.workloadApiVersion) ]
  }

  /** The variables only edgeAgent gets (lines 374-386). */
  function AgentVars(s: Settings, id: Identity): seq<EnvVar>
  {
    if IsAgent(id) then
      [ EnvVar(Constants.ModeVariable, Constants.KubernetesMode),
        EnvVar(Constants.ManagementUriVariable, s.managementUri),
        EnvVar(Constants.NetworkIdVariable, Constants.NetworkId),
        EnvVar(Constants.ProxyImageVariable, s.proxyImage),
        EnvVar(Constants.ProxyConfigPathVariable, s.proxyConfigPath),
        EnvVar(Constants.ProxyConfigVolumeVariable, s.proxyConfigVolumeName),
        EnvVar(Constants.ProxyConfigMapNameVariable, s.proxyConfigMapName),
        EnvVar(Constants.ProxyTrustBundlePathVariable, s.proxyTrustBundlePath),
        EnvVar(Constants.ProxyTrustBundleVolumeVariable, s.proxyTrustBundleVolumeName),
        EnvVar(Constants.ProxyTrustBundleConfigMapVariable, s.proxyTrustBundleConfigMapName) ]
    else []
  }

  /** The host-name variable that ends every list (lines 388-396). */
  function HostnameVar(s: Settings, id: Identity): EnvVar
  {
    if IsAgent(id) || IsHub(id) then EnvVar(Constants.EdgeDeviceHostNameVariable, s.edgeHostname)
    else EnvVar(Constants.GatewayHostnameVariable, Constants.EdgeHubHostname)
  }

  /** The variables the controller itself injects, after the module's own ones. */
  function Injected(s: Settings, id: Identity): seq<EnvVar>
  {
    CommonVars(s, id) + AgentVars(s, id) + [HostnameVar(s, id)]
  }

  /** CollectEnv: the sections appended in the source's order, nothing
      deduplicated. A null `EnvVal` or create-option string raises a null
      reference, so no environment is built. */
  function CollectEnv(s: Settings, m: Module, id: Identity): (r: Result<seq<EnvVar>>)
    ensures r.Ok? <==> EnvPresent(m)
    ensures r.Err? ==> r.error == NullReference
  {
    match OwnEnv(m.env)
    case Err(e) => Err(e)
    case Ok(own) =>
      match OptionsEnv(m)
      case Err(e) => Err(e)
      case Ok(opts) => Ok(own + HostEnv(opts) + Injected(s, id))
  }

  function Names(vs: seq<EnvVar>): seq<string>
  {
    seq(|vs|, i requires 0 <= i < |vs| => vs[i].name)
  }

  /** The layout of a module's environment: it starts with the module's own
      variables unchanged and in order, followed by the create-option pairs parsed
      entry by entry in order, followed by the injected variables; its length counts
      every section, so nothing is deduplicated; it ends with the device host name
      for edgeAgent and edgeHub and with the gateway host name `edgehub` for every
      other module. */
  lemma CollectEnvLayout(s: Settings, m: Module, id: Identity)
    requires EnvPresent(m)
    ensures var r := CollectEnv(s, m, id).value;
      var opts := OptionsEnv(m).value;
      var h := HostEnv(opts);
      var ips := id.credentials.IdentityProviderServiceCredentials?;
      && |h| == EqualsCount(opts)
      && (forall i | 0 <= i < |m.env| :: r[i] == EnvVar(m.env[i].key, m.env[i].value.value))
      && r[|m.env|..|m.env| + |h|] == h
      && (forall name, value :: EnvVar(name, value) in r[|m.env|..|m.env| + |h|] <==>
            '=' !in name && name + "=" + value in opts)
      && r[|m.env| + |h|..] == Injected(s, id)
      && |r| == |m.env| + |h| + 7 + (if ips then 1 else 0) + (if IsAgent(id) then 10 else 0) + 1
      && r[|r| - 1] == (if IsAgent(id) || IsHub(id)
                        then EnvVar(Constants.EdgeDeviceHostNameVariable, s.edgeHostname)
                        else EnvVar(Constants.GatewayHostnameVariable, Constants.EdgeHubHostname))
  {
    var own := OwnEnv(m.env).value;
    var opts := OptionsEnv(m).value;
    var h := HostEnv(opts);
    var r := CollectEnv(s, m, id).value;
    assert r == own + h + Injected(s, id);
    HostEnvMembers(opts);
    HostEnvCount(opts);
    assert r[..|m.env|] == own;
    assert r[|m.env|..|m.env| + |h|] == h;
    assert r[|m.env| + |h|..] == Injected(s, id);
    assert |CommonVars(s, id)| == 7 + (if id.credentials.IdentityProviderServiceCredentials? then 1 else 0);
    assert |AgentVars(s, id)| == (if IsAgent(id) then 10 else 0);
  }

  /** Among the injected variables a generation id appears exactly for
      identity-service credentials, the proxy variables exactly for edgeAgent, and
      exactly one of the device host name (edgeAgent, edgeHub) and the gateway host
      name (every other module). */
  lemma InjectedRoles(s: Settings, id: Identity)
    ensures var injected := Injected(s, id);
      var ips := id.credentials.IdentityProviderServiceCredentials?;
      && (Constants.ModuleGenerationIdVariable in Names(injected) <==> ips)
      && (ips ==> EnvVar(Constants.ModuleGenerationIdVariable, id.credentials.moduleGenerationId) in injected)
      && (forall n | n in ProxyNames() :: n in Names(injected) <==> IsAgent(id))
      && (Constants.EdgeDeviceHostNameVariable in Names(injected) <==> IsAgent(id) || IsHub(id))
      && (Constants.GatewayHostnameVariable in Names(injected) <==> !(IsAgent(id) || IsHub(id)))
  {
    GenerationIdRole(s, id);
    ProxyRole(s, id);
    HostNameRole(s, id);
  }

  /** The generation id is injected exactly for identity-service credentials. */
  lemma GenerationIdRole(s: Settings, id: Identity)
    ensures var ips := id.credentials.IdentityProviderServiceCredentials?;
      && (Constants.ModuleGenerationIdVariable in Names(Injected(s, id)) <==> ips)
      && (ips ==> EnvVar(Constants.ModuleGenerationIdVariable, id.credentials.moduleGenerationId) in Injected(s, id))
  {
    InjectedNames(s, id);
    var x := Constants.ModuleGenerationIdVariable;
    assert x !in FixedNames() && x !in ProxyNames();
    assert x != Constants.EdgeDeviceHostNameVariable && x != Constants.GatewayHostnameVariable;
    if id.credentials.IdentityProviderServiceCredentials? {
      assert CommonVars(s, id)[4] == EnvVar(x, id.credentials.moduleGenerationId);
      assert Injected(s, id)[4] == CommonVars(s, id)[4];
    }
  }

  /** Each of the ten edgeAgent-only variables (mode, management URI, network id
      and the proxy settings) is injected exactly for edgeAgent. */
  lemma ProxyRole(s: Settings, id: Identity)
    ensures forall n | n in ProxyNames() :: n in Names(Injected(s, id)) <==> IsAgent(id)
  {
    InjectedNames(s, id);
    forall n | n in ProxyNames() ensures n in Names(Injected(s, id)) <==> IsAgent(id)
    {
      assert n !in FixedNames() && n != Constants.ModuleGenerationIdVariable;
      assert n != Constants.EdgeDeviceHostNameVariable && n != Constants.GatewayHostnameVariable;
    }
  }

  /** Exactly one host-name variable is injected: the device host name for
      edgeAgent and edgeHub, the gateway host name for every other module. */
  lemma HostNameRole(s: Settings, id: Identity)
    ensures Constants.EdgeDeviceHostNameVariable in Names(Injected(s, id)) <==> IsAgent(id) || IsHub(id)
    ensures Constants.GatewayHostnameVariable in Names(Injected(s, id)) <==> !(IsAgent(id) || IsHub(id))
  {
    InjectedNames(s, id);
    var x := Constants.EdgeDeviceHostNameVariable;
    var y := Constants.GatewayHostnameVariable;
    assert x != y;
    assert x !in FixedNames() && x !in ProxyNames() && x != Constants.ModuleGenerationIdVariable;
    assert y !in FixedNames() && y !in ProxyNames() && y != Constants.ModuleGenerationIdVariable;
  }

  /** The names every module gets, in order, leaving out the generation id. */
  function FixedNames(): seq<string>
  {
    [ Constants.IotHubHostnameVariable, Constants.AuthSchemeVariable,
      Constants.RuntimeLogLevelVariable, Constants.WorkloadUriVariable,
      Constants.DeviceIdVariable, Constants.ModuleIdVariable, Constants.ApiVersionVariable ]
  }

  /** The names only edgeAgent gets, in order. */
  function ProxyNames(): seq<string>
  {
    [ Constants.ModeVariable, Constants.ManagementUriVariable, Constants.NetworkIdVariable,
      Constants.ProxyImageVariable, Constants.ProxyConfigPathVariable, Constants.ProxyConfigVolumeVariable,
      Constants.ProxyConfigMapNameVariable, Constants.ProxyTrustBundlePathVariable,
      Constants.ProxyTrustBundleVolumeVariable, Constants.ProxyTrustBundleConfigMapVariable ]
  }

  /** The names of the injected variables, section by section. */
  lemma InjectedNames(s: Settings, id: Identity)
    ensures var gen := if id.credentials.IdentityProviderServiceCredentials?
                       then [Constants.ModuleGenerationIdVariable] else [];
      var proxy := if IsAgent(id) then ProxyNames() else [];
      var host := if IsAgent(id) || IsHub(id) then Constants.EdgeDeviceHostNameVariable
                  else Constants.GatewayHostnameVariable;
      Names(Injected(s, id)) == FixedNames()[..4] + gen + FixedNames()[4..] + proxy + [host]
  {
    var common := CommonVars(s, id);
    var agent := AgentVars(s, id);
    var last := [HostnameVar(s, id)];
    NamesAppend(common, agent);
    NamesAppend(common + agent, last);
    var gen := if id.credentials.IdentityProviderServiceCredentials?
               then [Constants.ModuleGenerationIdVariable] else [];
    assert Names(common) == FixedNames()[..4] + gen + FixedNames()[4..];
    assert Names(agent) == if IsAgent(id) then ProxyNames() else [];
    assert Names(last) == [HostnameVar(s, id).name];
  }

  lemma NamesAppend(a: seq<EnvVar>, b: seq<EnvVar>)
    ensures Names(a + b) == Names(a) + Names(b)
  {
  }
}
