/**
 * The endpoints the exporter's constructor is known to accept or reject,
 * worked through the URL parser and the path rules.
 */
module EndpointExamples {
  import opened Wrappers
  import opened Bytes
  import opened Environment
  import opened ConfigErrors
  import opened Endpoint

  const Localhost: Bytes := Ascii("localhost")

  /** `/v1/metrics`, the path joined under an endpoint without one. */
  const V1Metrics: Bytes := [Slash] + MetricsSuffix

  lemma LocalhostIsHost()
    ensures ValidHost(Localhost)
  {
  }

  lemma JoinedUnderRoot()
    ensures MetricsPath([]) == V1Metrics && MetricsPath([Slash]) == V1Metrics
  {
    assert [] + [Slash] == [Slash];
  }

  // ---------------------------------------------------------------- the default

  lemma DefaultEndpointText()
    ensures DefaultEndpoint == FormatUrl(Url(Http, Localhost, Some(4318), []))
  {
    FourDigits(4318);
    var parts := FormatUrl(Url(Http, Localhost, Some(4318), []));
    assert parts == HttpPrefix + Localhost + ([Colon] + [0x34, 0x33, 0x31, 0x38]) + [];
    assert |DefaultEndpoint| == 21 == |parts|;
    assert forall i :: 0 <= i < 21 ==> DefaultEndpoint[i] == parts[i];
  }

  /** With no endpoint configured the exporter posts to http://localhost:4318/v1/metrics, without TLS. */
  lemma DefaultEndpointResolves(env: Env)
    requires MetricsVar("ENDPOINT") !in env && GenericVar("ENDPOINT") !in env
    ensures ResolveEndpoint(None, env) == Success(Url(Http, Localhost, Some(4318), V1Metrics))
    ensures Port(ResolveEndpoint(None, env).value) == 4318 && !UseSsl(ResolveEndpoint(None, env).value)
  {
    DefaultEndpointText();
    LocalhostIsHost();
    ParseFormat(Url(Http, Localhost, Some(4318), []));
    JoinedUnderRoot();
  }

  // ---------------------------------------------------------------- rejected

  const NotAUrlText: Bytes := Ascii("not a url")

  /** `not a url` is refused with an ArgumentError that names it. */
  lemma NotAUrl()
    ensures ParseEndpoint(NotAUrlText) == Failure(InvalidEndpoint(NotAUrlText))
  {
    assert NotAUrlText[0] != HttpsPrefix[0] && NotAUrlText[0] != HttpPrefix[0];
  }

  // ---------------------------------------------------------------- explicit endpoints

  const CustomPathText: Bytes := Ascii("https://localhost/custom/path")
  const CustomPath: Bytes := Ascii("/custom/path")

  lemma CustomPathTextParts()
    ensures CustomPathText == FormatUrl(Url(Https, Localhost, None, CustomPath))
  {
    var parts := FormatUrl(Url(Https, Localhost, None, CustomPath));
    assert parts == HttpsPrefix + Localhost + [] + CustomPath;
    assert |CustomPathText| == 29 == |parts|;
    assert forall i :: 0 <= i < 29 ==> CustomPathText[i] == parts[i];
  }

  /** An explicit endpoint keeps its own path. */
  lemma CustomPathKept(env: Env)
    ensures ResolveEndpoint(Some(CustomPathText), env) == Success(Url(Https, Localhost, None, CustomPath))
  {
    CustomPathTextParts();
    LocalhostIsHost();
    ParseFormat(Url(Https, Localhost, None, CustomPath));
  }

  const ExplicitEndpointText: Bytes := Ascii("http://localhost:4321")

  lemma ExplicitEndpointTextParts()
    ensures ExplicitEndpointText == FormatUrl(Url(Http, Localhost, Some(4321), []))
  {
    FourDigits(4321);
    var parts := FormatUrl(Url(Http, Localhost, Some(4321), []));
    assert parts == HttpPrefix + Localhost + ([Colon] + [0x34, 0x33, 0x32, 0x31]) + [];
    assert |ExplicitEndpointText| == 21 == |parts|;
    assert forall i :: 0 <= i < 21 ==> ExplicitEndpointText[i] == parts[i];
  }

  /**
   * An explicit endpoint without a path posts to the empty path on its own
   * port, whatever the generic variable says.
   */
  lemma ExplicitEndpointVerbatim(env: Env)
    ensures ResolveEndpoint(Some(ExplicitEndpointText), env) == Success(Url(Http, Localhost, Some(4321), []))
    ensures Port(ResolveEndpoint(Some(ExplicitEndpointText), env).value) == 4321
  {
    ExplicitEndpointTextParts();
    LocalhostIsHost();
    ParseFormat(Url(Http, Localhost, Some(4321), []));
  }

  // ---------------------------------------------------------------- the generic variable

  const EnvEndpointText: Bytes := Ascii("https://localhost:1234")
  const EnvEndpointSlashText: Bytes := Ascii("https://localhost:1234/")

  lemma EnvEndpointTextParts()
    ensures EnvEndpointText == FormatUrl(Url(Https, Localhost, Some(1234), []))
    ensures EnvEndpointSlashText == FormatUrl(Url(Https, Localhost, Some(1234), [Slash]))
  {
    FourDigits(1234);
    var parts := FormatUrl(Url(Https, Localhost, Some(1234), []));
    assert parts == HttpsPrefix + Localhost + ([Colon] + [0x31, 0x32, 0x33, 0x34]) + [];
    assert |EnvEndpointText| == 22 == |parts|;
    assert forall i :: 0 <= i < 22 ==> EnvEndpointText[i] == parts[i];
    var slashed := FormatUrl(Url(Https, Localhost, Some(1234), [Slash]));
    assert slashed == parts + [Slash];
    assert |EnvEndpointSlashText| == 23 == |slashed|;
    assert forall i :: 0 <= i < 23 ==> EnvEndpointSlashText[i] == slashed[i];
  }

  /** The generic endpoint variable gets `/v1/metrics`, and its https scheme and port are kept. */
  lemma GenericEndpointGetsMetricsPath(env: Env)
    requires MetricsVar("ENDPOINT") !in env
    requires GenericVar("ENDPOINT") in env
    requires env[GenericVar("ENDPOINT")] == EnvEndpointText || env[GenericVar("ENDPOINT")] == EnvEndpointSlashText
    ensures ResolveEndpoint(None, env) == Success(Url(Https, Localhost, Some(1234), V1Metrics))
    ensures Port(ResolveEndpoint(None, env).value) == 1234 && UseSsl(ResolveEndpoint(None, env).value)
  {
    EnvEndpointTextParts();
    LocalhostIsHost();
    ParseFormat(Url(Https, Localhost, Some(1234), []));
    ParseFormat(Url(Https, Localhost, Some(1234), [Slash]));
    JoinedUnderRoot();
  }
}
