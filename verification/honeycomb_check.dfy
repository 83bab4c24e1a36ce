/** The integration check script for the Honeycomb setup: the masked API
    key it reports, the outcome of its configuration test, and the exit
    code that sums up all checks. Package and module imports are foreign
    and enter as the booleans they produce. */
module HoneycombCheck {
  import opened Results
  import opened PyText
  import opened Honeycomb

  const ServiceNameVar: string := "OTEL_SERVICE_NAME"

  /** The service name the configuration test passes. */
  const TestServiceName: string := "test-service"

  /* ---------------------------------------------------------------------- */
  /* Key masking                                                             */
  /* ---------------------------------------------------------------------- */

  /** `api_key[:8] + "..." + api_key[-4:] if len(api_key) > 12 else "***"`. */
  function MaskKey(key: string): string {
    if |key| > 12 then SliceTo(key, 8) + "..." + SliceFrom(key, -4) else "***"
  }

  /** A long key is shown as its first 8 characters, "...", and its last 4:
      15 characters in all. A key of at most 12 characters is shown as
      "***". */
  lemma MaskKeyShape(key: string)
    ensures |key| > 12 ==> MaskKey(key) == key[..8] + "..." + key[|key| - 4..]
    ensures |key| > 12 ==> |MaskKey(key)| == 15
    ensures |key| <= 12 ==> MaskKey(key) == "***"
  {
  }

  /** The mask of a long key depends on its first 8 and last 4 characters
      and on nothing else: two long keys get the same mask exactly when
      they agree there. Everything from position 8 to `len - 5` stays
      hidden. */
  lemma MaskKeyRevealsOnlyEnds(a: string, b: string)
    requires |a| > 12 && |b| > 12
    ensures MaskKey(a) == MaskKey(b) <==> a[..8] == b[..8] && a[|a| - 4..] == b[|b| - 4..]
  {
    MaskKeyShape(a);
    MaskKeyShape(b);
    if MaskKey(a) == MaskKey(b) {
      assert a[..8] == MaskKey(a)[..8] == MaskKey(b)[..8] == b[..8];
      assert a[|a| - 4..] == MaskKey(a)[11..] == MaskKey(b)[11..] == b[|b| - 4..];
    }
  }

  /** A short key's mask tells nothing about the key, and it is never the
      mask of a long key. */
  lemma MaskKeyShortHidden(a: string, b: string)
    requires |a| <= 12
    ensures |b| <= 12 ==> MaskKey(a) == MaskKey(b)
    ensures |b| > 12 ==> MaskKey(a) != MaskKey(b)
  {
    MaskKeyShape(a);
    MaskKeyShape(b);
  }

  /* ---------------------------------------------------------------------- */
  /* The environment check                                                   */
  /* ---------------------------------------------------------------------- */

  /** What `check_environment` reports: the masked key (`None` for the
      "not set" warning), the service name and endpoint with their
      defaults, and the dataset when one is set. */
  datatype EnvironmentReport = EnvironmentReport(
    maskedKey: Option<string>,
    serviceName: string,
    endpoint: string,
    dataset: Option<string>)

  /** `check_environment`: the report, together with the result it returns. */
  function CheckEnvironment(env: Env): (EnvironmentReport, bool) {
    var apiKey := Getenv(env, ApiKeyVar);
    var dataset := Getenv(env, DatasetVar);
    (EnvironmentReport(
       if Truthy(apiKey) then Some(MaskKey(apiKey.value)) else None,
       GetenvOr(env, ServiceNameVar, DefaultServiceName),
       GetenvOr(env, EndpointVar, DefaultEndpoint),
       if Truthy(dataset) then dataset else None),
     true)
  }

  /** The environment check always passes. A masked key is reported
      exactly when `HONEYCOMB_API_KEY` is non-empty. Unset variables report
      the defaults "tedxsdg-search-backend" and
      "https://api.honeycomb.io:443". The report's endpoint is the one
      `configure_honeycomb` resolves when no endpoint is passed. */
  lemma CheckEnvironmentReport(env: Env)
    ensures CheckEnvironment(env).1
    ensures var r := CheckEnvironment(env).0;
      r.maskedKey.Some? <==> ApiKeyVar in env && |env[ApiKeyVar]| > 0
    ensures var r := CheckEnvironment(env).0;
      r.maskedKey.Some? ==> r.maskedKey.value == MaskKey(env[ApiKeyVar])
    ensures ServiceNameVar !in env ==> CheckEnvironment(env).0.serviceName == "tedxsdg-search-backend"
    ensures EndpointVar !in env ==> CheckEnvironment(env).0.endpoint == "https://api.honeycomb.io:443"
    ensures CheckEnvironment(env).0.endpoint == ResolveEndpoint(Defaults, env)
  {
  }

  /* ---------------------------------------------------------------------- */
  /* The configuration test                                                  */
  /* ---------------------------------------------------------------------- */

  /** The arguments of `configure_honeycomb(service_name="test-service")`. */
  const TestArguments: Arguments := Arguments(TestServiceName, None, None, None, 1)

  /** `test_configuration` with the module import succeeding or not
      (`moduleImports`) and the SDK raising or not while it builds an
      enabled provider (`sdkRaises`): the result it returns and the global
      provider afterwards. */
  function TestConfiguration(env: Env, global: Option<TracerProvider>, moduleImports: bool, sdkRaises: bool)
    : (bool, Option<TracerProvider>)
  {
    if !moduleImports then (false, global)
    else
      var outcome := Configure(TestArguments, env, global);
      if outcome.returned.Some? && sdkRaises then (false, global)
      else (true, outcome.global)
  }

  /** The configuration test fails only when configuring raises: when the
      module cannot be imported, or when the SDK raises while building an
      enabled provider. Both a returned provider and `None` pass. */
  lemma TestConfigurationPasses(env: Env, global: Option<TracerProvider>, moduleImports: bool, sdkRaises: bool)
    ensures TestConfiguration(env, global, moduleImports, sdkRaises).0 <==>
      moduleImports && (ResolveApiKey(TestArguments, env) == "" || !sdkRaises)
    ensures moduleImports && ResolveApiKey(TestArguments, env) == "" ==>
      TestConfiguration(env, global, moduleImports, sdkRaises) == (true, global)
    ensures moduleImports && !sdkRaises && ResolveApiKey(TestArguments, env) != "" ==>
      var g := TestConfiguration(env, global, moduleImports, sdkRaises).1;
      g.Some? && g.value.resource.attributes[ServiceNameKey] == Text("test-service")
  {
    ConfigureEnabledIff(TestArguments, env, global);
    if moduleImports && !sdkRaises && ResolveApiKey(TestArguments, env) != "" {
      ConfigureResource(TestArguments, env, global);
    }
  }

  /* ---------------------------------------------------------------------- */
  /* The summary                                                             */
  /* ---------------------------------------------------------------------- */

  /** One `(name, passed)` entry of `results`. */
  datatype CheckResult = CheckResult(name: string, passed: bool)

  predicate AllPassed(results: seq<CheckResult>) {
    forall j :: 0 <= j < |results| ==> results[j].passed
  }

  /** The summary loop of `main`: `all_passed` starts true and is cleared
      by any failed entry; the exit code is 0 when it survives and 1
      otherwise. */
  method SummaryExitCode(results: seq<CheckResult>) returns (code: int)
    ensures code == 0 <==> AllPassed(results)
    ensures code == 1 <==> exists j :: 0 <= j < |results| && !results[j].passed
  {
    var allPassed := true;
    var i := 0;
    while i < |results|
      invariant 0 <= i <= |results|
      invariant allPassed <==> forall j :: 0 <= j < i ==> results[j].passed
    {
      if !results[i].passed {
        allPassed := false;
      }
      i := i + 1;
    }
    if allPassed {
      code := 0;
    } else {
      code := 1;
    }
  }

  /** The four entries `main` collects, in order. */
  function CollectResults(packagesImport: bool, moduleImports: bool, env: Env, global: Option<TracerProvider>, sdkRaises: bool)
    : (results: seq<CheckResult>)
    ensures |results| == 4
  {
    [CheckResult("Package imports", packagesImport),
     CheckResult("Honeycomb module", moduleImports),
     CheckResult("Environment variables", CheckEnvironment(env).1),
     CheckResult("Configuration test", TestConfiguration(env, global, moduleImports, sdkRaises).0)]
  }

  /** `main`: the script exits with 0 exactly when the packages and the
      module import and the configuration test does not raise; the
      environment check and a missing API key never fail it. */
  method RunChecks(packagesImport: bool, moduleImports: bool, env: Env, global: Option<TracerProvider>, sdkRaises: bool)
    returns (code: int)
    ensures code == 0 <==> packagesImport && moduleImports && (ResolveApiKey(TestArguments, env) == "" || !sdkRaises)
    ensures code == 0 || code == 1
  {
    var results := CollectResults(packagesImport, moduleImports, env, global, sdkRaises);
    TestConfigurationPasses(env, global, moduleImports, sdkRaises);
    CheckEnvironmentReport(env);
    code := SummaryExitCode(results);
    assert AllPassed(results) <==> results[0].passed && results[1].passed && results[2].passed && results[3].passed;
  }
}
