/** `configure_honeycomb` as a pure resolution from its arguments and the
    process environment to the tracer provider it builds and installs.
    The OpenTelemetry SDK objects become plain records that keep what the
    function puts into them. */
module Honeycomb {
  import opened Results
  import opened PyText

  /** The process environment, as `os.getenv` sees it. */
  type Env = map<string, string>

  const DefaultServiceName: string := "tedxsdg-search-backend"
  const DefaultEndpoint: string := "https://api.honeycomb.io:443"
  const TracesPath: string := "/v1/traces"

  const ApiKeyVar: string := "HONEYCOMB_API_KEY"
  const HeadersVar: string := "OTEL_EXPORTER_OTLP_HEADERS"
  const EndpointVar: string := "OTEL_EXPORTER_OTLP_ENDPOINT"
  const DatasetVar: string := "HONEYCOMB_DATASET"

  /** The marker that introduces the API key inside the OTLP headers
      variable, and the header names the exporter is given. */
  const TeamMarker: string := "x-honeycomb-team="
  const TeamHeader: string := "x-honeycomb-team"
  const DatasetHeader: string := "x-honeycomb-dataset"

  /** The resource attribute keys: `SERVICE_NAME` is "service.name". */
  const ServiceNameKey: string := "service.name"
  const SampleRateKey: string := "SampleRate"

  /** `os.getenv(name)`: `None` when unset; a variable set to the empty
      string yields the empty string. */
  function Getenv(env: Env, name: string): Option<string> {
    if name in env then Some(env[name]) else None
  }

  /** `os.getenv(name, default)`. */
  function GetenvOr(env: Env, name: string, default: string): string {
    if name in env then env[name] else default
  }

  /** Python truthiness of an optional string: present and non-empty. */
  predicate Truthy(s: Option<string>) {
    s.Some? && |s.value| > 0
  }

  /** The keyword arguments of `configure_honeycomb`. */
  datatype Arguments = Arguments(
    serviceName: string,
    apiKey: Option<string>,
    dataset: Option<string>,
    endpoint: Option<string>,
    sampleRate: int)

  /** A call with every argument left at its default. */
  const Defaults: Arguments := Arguments(DefaultServiceName, None, None, None, 1)

  /* ---------------------------------------------------------------------- */
  /* Resolution                                                              */
  /* ---------------------------------------------------------------------- */

  /** The key inside an OTLP headers string: the text after the last
      `x-honeycomb-team=`, cut at the first comma. */
  function HeaderKey(headers: string): string {
    var pieces := Split(headers, TeamMarker);
    Split(pieces[|pieces| - 1], ",")[0]
  }

  /** `api_key or os.getenv("HONEYCOMB_API_KEY") or
      os.getenv("OTEL_EXPORTER_OTLP_HEADERS", "")...`: each empty or
      missing value falls through to the next. */
  function ResolveApiKey(args: Arguments, env: Env): string {
    if Truthy(args.apiKey) then args.apiKey.value
    else if Truthy(Getenv(env, ApiKeyVar)) then env[ApiKeyVar]
    else HeaderKey(GetenvOr(env, HeadersVar, ""))
  }

  /** `endpoint or os.getenv("OTEL_EXPORTER_OTLP_ENDPOINT", default)`. */
  function ResolveEndpoint(args: Arguments, env: Env): string {
    if Truthy(args.endpoint) then args.endpoint.value
    else GetenvOr(env, EndpointVar, DefaultEndpoint)
  }

  /** `dataset or os.getenv("HONEYCOMB_DATASET")`. */
  function ResolveDataset(args: Arguments, env: Env): Option<string> {
    if Truthy(args.dataset) then args.dataset else Getenv(env, DatasetVar)
  }

  /* ---------------------------------------------------------------------- */
  /* What gets built                                                         */
  /* ---------------------------------------------------------------------- */

  datatype AttributeValue = Text(text: string) | Number(number: int)

  /** The `Resource` of the provider, by the attributes it is created with. */
  datatype Resource = Resource(attributes: map<string, AttributeValue>)

  /** `OTLPSpanExporter(endpoint=..., headers=...)`. */
  datatype Exporter = OtlpSpanExporter(url: string, headers: map<string, string>)

  /** `ALLOW_ALL_BAGGAGE_KEYS`, the only baggage filter used. */
  datatype BaggageFilter = AllowAllBaggageKeys

  /** The span processors, in the order they are added. */
  datatype SpanProcessor = BatchSpanProcessor(exporter: Exporter) | BaggageSpanProcessor(filter: BaggageFilter)

  datatype TracerProvider = TracerProvider(resource: Resource, processors: seq<SpanProcessor>)

  /** The result of a call: the provider returned (`None` when disabled)
      and the global tracer provider afterwards. */
  datatype Outcome = Outcome(returned: Option<TracerProvider>, global: Option<TracerProvider>)

  /** `resource_attributes`: the service name, and the sample rate only
      when it is above 1. */
  function ResourceAttributes(serviceName: string, sampleRate: int): (attrs: map<string, AttributeValue>)
    ensures ServiceNameKey in attrs && attrs[ServiceNameKey] == Text(serviceName)
    ensures SampleRateKey in attrs <==> sampleRate > 1
    ensures SampleRateKey in attrs ==> attrs[SampleRateKey] == Number(sampleRate)
    ensures attrs.Keys <= {ServiceNameKey, SampleRateKey}
  {
    var base := map[ServiceNameKey := Text(serviceName)];
    if sampleRate > 1 then base[SampleRateKey := Number(sampleRate)] else base
  }

  /** `headers`: the team header always, the dataset header only for a
      non-empty dataset. */
  function ExporterHeaders(apiKey: string, dataset: Option<string>): (headers: map<string, string>)
    ensures TeamHeader in headers && headers[TeamHeader] == apiKey
    ensures DatasetHeader in headers <==> Truthy(dataset)
    ensures DatasetHeader in headers ==> headers[DatasetHeader] == dataset.value
    ensures headers.Keys <= {TeamHeader, DatasetHeader}
  {
    var base := map[TeamHeader := apiKey];
    if Truthy(dataset) then base[DatasetHeader := dataset.value] else base
  }

  /** `configure_honeycomb(**args)` in environment `env`, starting from the
      global provider `global`: disabled, returning `None` and leaving the
      global provider alone, when no API key resolves; otherwise the
      provider with a batching OTLP exporter and a baggage processor,
      installed as the global provider and returned. */
  function Configure(args: Arguments, env: Env, global: Option<TracerProvider>): Outcome {
    var apiKey := ResolveApiKey(args, env);
    var endpoint := ResolveEndpoint(args, env);
    var dataset := ResolveDataset(args, env);
    if |apiKey| == 0 then Outcome(None, global)
    else
      var exporter := OtlpSpanExporter(endpoint + TracesPath, ExporterHeaders(apiKey, dataset));
      var provider := TracerProvider(
        Resource(ResourceAttributes(args.serviceName, args.sampleRate)),
        [BatchSpanProcessor(exporter), BaggageSpanProcessor(AllowAllBaggageKeys)]);
      Outcome(Some(provider), Some(provider))
  }

  /* ---------------------------------------------------------------------- */
  /* Header parsing                                                          */
  /* ---------------------------------------------------------------------- */

  /** The marker cannot overlap itself and holds no comma. */
  lemma TeamMarkerShape()
    ensures |TeamMarker| > 0 && Unbordered(TeamMarker)
    ensures forall d :: 0 <= d < |TeamMarker| ==> TeamMarker[d] != ','
  {
    forall d | 0 < d < |TeamMarker|
      ensures TeamMarker[d..] != TeamMarker[..|TeamMarker| - d]
    {
      assert TeamMarker[d..][0] == TeamMarker[d] != 'x';
    }
  }

  /** An empty headers string, which is what an unset variable reads as,
      yields the empty key. */
  lemma HeaderKeyEmpty()
    ensures HeaderKey("") == ""
  {
    SplitWithoutSep("", TeamMarker);
    SplitWithoutSep("", ",");
  }

  /** The first comma-separated piece of `t`: a comma-free prefix of `t`
      followed by the end of `t` or by a comma. */
  lemma FirstCommaPiece(t: string)
    ensures var k := Split(t, ",")[0];
      && |k| <= |t| && t[..|k|] == k
      && !Contains(k, ",")
      && (|k| == |t| || t[|k|] == ',')
  {
    SplitFirst(t, ",");
    SplitPiecesFree(t, ",");
    var k := Split(t, ",")[0];
    if |k| < |t| {
      assert OccursAt(t, ",", |k|);
      assert t[|k|..|k| + 1] == ",";
    }
  }

  /** Without the marker, the key is the whole headers string up to its
      first comma. */
  lemma HeaderKeyWithoutMarker(headers: string)
    requires !Contains(headers, TeamMarker)
    ensures var k := HeaderKey(headers);
      && |k| <= |headers| && headers[..|k|] == k
      && !Contains(k, ",")
      && (|k| == |headers| || headers[|k|] == ',')
  {
    SplitWithoutSep(headers, TeamMarker);
    FirstCommaPiece(headers);
  }

  /** With the marker, the key is the text after its last occurrence up to
      the next comma. */
  lemma HeaderKeyAfterLastMarker(headers: string)
    requires Contains(headers, TeamMarker)
    ensures var k := HeaderKey(headers);
      exists j: nat ::
        && OccursAt(headers, TeamMarker, j)
        && (forall p: nat :: j < p ==> !OccursAt(headers, TeamMarker, p))
        && var tail := headers[j + |TeamMarker|..];
           |k| <= |tail| && tail[..|k|] == k && !Contains(k, ",") && (|k| == |tail| || tail[|k|] == ',')
  {
    TeamMarkerShape();
    LastPieceAfterLastOccurrence(headers, TeamMarker);
    var ps := Split(headers, TeamMarker);
    var tail := ps[|ps| - 1];
    var j := |headers| - |tail| - |TeamMarker|;
    assert headers[j + |TeamMarker|..] == tail;
    FirstCommaPiece(tail);
    assert HeaderKey(headers) == Split(tail, ",")[0];
  }

  /** No occurrence of a comma-free string straddles the boundary before a
      comma. */
  lemma NoStraddle(a: string, b: string, t: string)
    requires |b| > 0 && b[0] == ','
    requires forall d :: 0 <= d < |t| ==> t[d] != ','
    requires !Contains(a, t) && !Contains(b, t)
    ensures !Contains(a + b, t)
  {
    var s := a + b;
    forall i: nat | i <= |s|
      ensures !OccursAt(s, t, i)
    {
      if i + |t| <= |s| {
        if i + |t| <= |a| {
          assert !OccursAt(a, t, i);
          assert s[i..i + |t|] == a[i..i + |t|];
        } else if i >= |a| {
          assert !OccursAt(b, t, i - |a|);
          assert s[i..i + |t|] == b[i - |a|..i - |a| + |t|];
        } else {
          assert s[i..i + |t|][|a| - i] == b[0];
        }
      }
    }
  }

  /** Round trip: a key written after the marker, followed by nothing or by
      further comma-separated headers without the marker, is read back. */
  lemma HeaderKeyRoundTrip(before: string, key: string, after: string)
    requires !Contains(key, ",") && !Contains(key, TeamMarker)
    requires |after| == 0 || (after[0] == ',' && !Contains(after, TeamMarker))
    ensures HeaderKey(before + TeamMarker + key + after) == key
  {
    TeamMarkerShape();
    var u := key + after;
    assert before + TeamMarker + key + after == before + TeamMarker + u;
    if |after| > 0 {
      NoStraddle(key, after, TeamMarker);
    } else {
      assert u == key;
    }
    LastPieceAfter(before, TeamMarker, u);
    FirstPieceOf(key, ",", after);
  }

  /* ---------------------------------------------------------------------- */
  /* Configuration                                                           */
  /* ---------------------------------------------------------------------- */

  /** The key resolution chain: a non-empty argument wins; else a non-empty
      `HONEYCOMB_API_KEY`; else the key parsed from
      `OTEL_EXPORTER_OTLP_HEADERS`, which is empty when that variable is
      unset or empty. */
  lemma ApiKeyChain(args: Arguments, env: Env)
    ensures Truthy(args.apiKey) ==> ResolveApiKey(args, env) == args.apiKey.value
    ensures !Truthy(args.apiKey) && ApiKeyVar in env && |env[ApiKeyVar]| > 0 ==>
      ResolveApiKey(args, env) == env[ApiKeyVar]
    ensures !Truthy(args.apiKey) && !Truthy(Getenv(env, ApiKeyVar)) ==>
      ResolveApiKey(args, env) == HeaderKey(GetenvOr(env, HeadersVar, ""))
    ensures !Truthy(args.apiKey) && !Truthy(Getenv(env, ApiKeyVar)) && !Truthy(Getenv(env, HeadersVar)) ==>
      ResolveApiKey(args, env) == ""
  {
    HeaderKeyEmpty();
  }

  /** Honeycomb is disabled exactly when the resolved key is empty; then
      nothing is returned and the global provider is left as it was.
      Otherwise the returned provider is the one installed globally. */
  lemma ConfigureEnabledIff(args: Arguments, env: Env, global: Option<TracerProvider>)
    ensures var o := Configure(args, env, global);
      o.returned.None? <==> ResolveApiKey(args, env) == ""
    ensures var o := Configure(args, env, global);
      o.returned.None? ==> o.global == global
    ensures var o := Configure(args, env, global);
      o.returned.Some? ==> o.global == o.returned
  {
  }

  /** Without any API key in the arguments or the environment the call is
      disabled. */
  lemma ConfigureWithoutKey(args: Arguments, env: Env, global: Option<TracerProvider>)
    requires !Truthy(args.apiKey)
    requires !Truthy(Getenv(env, ApiKeyVar)) && !Truthy(Getenv(env, HeadersVar))
    ensures Configure(args, env, global) == Outcome(None, global)
  {
    ApiKeyChain(args, env);
  }

  /** When enabled, the provider carries exactly two processors, batch
      export first and baggage (all keys) second; the exporter posts to the
      resolved endpoint followed by `/v1/traces` — the argument, else the
      variable even when it is set but empty, else the US endpoint — with
      the team header holding the key, and the dataset header only for a
      non-empty dataset. */
  lemma ConfigureEnabled(args: Arguments, env: Env, global: Option<TracerProvider>)
    requires ResolveApiKey(args, env) != ""
    ensures var o := Configure(args, env, global);
      && o.returned.Some?
      && |o.returned.value.processors| == 2
      && o.returned.value.processors[0].BatchSpanProcessor?
      && o.returned.value.processors[1] == BaggageSpanProcessor(AllowAllBaggageKeys)
    ensures var e := Configure(args, env, global).returned.value.processors[0].exporter;
      && (Truthy(args.endpoint) ==> e.url == args.endpoint.value + "/v1/traces")
      && (!Truthy(args.endpoint) && EndpointVar in env ==> e.url == env[EndpointVar] + "/v1/traces")
      && (!Truthy(args.endpoint) && EndpointVar !in env ==> e.url == "https://api.honeycomb.io:443/v1/traces")
    ensures var e := Configure(args, env, global).returned.value.processors[0].exporter;
      && e.headers[TeamHeader] == ResolveApiKey(args, env)
      && (DatasetHeader in e.headers <==> Truthy(args.dataset) || Truthy(Getenv(env, DatasetVar)))
      && (Truthy(args.dataset) ==> e.headers[DatasetHeader] == args.dataset.value)
      && (!Truthy(args.dataset) && Truthy(Getenv(env, DatasetVar)) ==> e.headers[DatasetHeader] == env[DatasetVar])
      && e.headers.Keys <= {TeamHeader, DatasetHeader}
  {
  }

  /** When enabled, the resource names the service, "tedxsdg-search-backend"
      by default, and carries a sample rate exactly when it is above 1. */
  lemma ConfigureResource(args: Arguments, env: Env, global: Option<TracerProvider>)
    requires ResolveApiKey(args, env) != ""
    ensures var attrs := Configure(args, env, global).returned.value.resource.attributes;
      && attrs[ServiceNameKey] == Text(args.serviceName)
      && (SampleRateKey in attrs <==> args.sampleRate > 1)
      && (SampleRateKey in attrs ==> attrs[SampleRateKey] == Number(args.sampleRate))
      && attrs.Keys <= {ServiceNameKey, SampleRateKey}
    ensures args == Defaults ==>
      Configure(args, env, global).returned.value.resource.attributes == map[ServiceNameKey := Text("tedxsdg-search-backend")]
  {
  }
}
