/**
 * Whole configurations the exporter's constructor is known to produce:
 * the defaults, settings taken from the environment, explicit arguments
 * over a conflicting environment, and the compression and verify-mode rules.
 */
module ConfigExamples {
  import opened Wrappers
  import opened Bytes
  import opened Environment
  import opened ConfigErrors
  import opened Headers
  import opened Endpoint
  import opened ExporterConfig
  import opened HeaderExamples
  import opened EndpointExamples

  /** Neither the metrics-specific nor the generic variable of `field` is set. */
  predicate Unset2(env: Env, field: string) {
    MetricsVar(field) !in env && GenericVar(field) !in env
  }

  // ---------------------------------------------------------------- defaults

  /**
   * With no arguments and nothing in the environment: only the User-Agent
   * header, a 10 second timeout, `/v1/metrics` on http://localhost:4318,
   * gzip, no TLS files, and VERIFY_PEER.
   */
  lemma Defaults(env: Env, agent: Bytes)
    requires Unset2(env, "ENDPOINT") && Unset2(env, "HEADERS") && Unset2(env, "COMPRESSION") && Unset2(env, "TIMEOUT")
    requires Unset2(env, "CERTIFICATE") && Unset2(env, "CLIENT_CERTIFICATE") && Unset2(env, "CLIENT_KEY")
    requires RubyVar("SSL_VERIFY_NONE") !in env && RubyVar("SSL_VERIFY_PEER") !in env
    ensures Configure(NoParams, env, agent)
         == Success(TransportConfig(Localhost, 4318, false, V1Metrics, map[UserAgent := agent], Gzip,
                                    10_000, None, None, None, VerifyPeer))
  {
    DefaultEndpointResolves(env);
  }

  // ---------------------------------------------------------------- compression

  const FlateText: Bytes := Ascii("flate")

  /** `gzip` and `none` are kept, an explicit nil is kept as nil, and `flate` is refused. */
  lemma CompressionArguments(env: Env)
    ensures ResolveCompression(Some(Some(GzipText)), env) == Success(Gzip)
    ensures ResolveCompression(Some(Some(NoneText)), env) == Success(NoCompression)
    ensures ResolveCompression(Some(None), env) == Success(Unset)
    ensures ResolveCompression(Some(Some(FlateText)), env) == Failure(UnsupportedCompression(FlateText))
  {
    CompressionRoundTrip(Gzip);
    CompressionRoundTrip(NoCompression);
    assert FlateText[0] != GzipText[0] && FlateText[0] != NoneText[0];
  }

  /** `flate` fails construction even with a valid endpoint. */
  lemma FlateRefused(env: Env, agent: Bytes)
    requires Unset2(env, "ENDPOINT")
    ensures Configure(NoParams.(compression := Some(Some(FlateText))), env, agent)
         == Failure(UnsupportedCompression(FlateText))
  {
    DefaultEndpointResolves(env);
    CompressionArguments(env);
  }

  /** Either COMPRESSION variable may say `gzip` or `none`, and the setting is that name. */
  lemma CompressionFromEnvironment(env: Env, text: Bytes)
    requires text == GzipText || text == NoneText
    requires ConfigOpt(env, "COMPRESSION") == Some(text)
    ensures ResolveCompression(None, env).Success?
    ensures CompressionText(ResolveCompression(None, env).value) == Some(text)
  {
  }

  // ---------------------------------------------------------------- from the environment

  const HeadersAB: Bytes := Ascii("a=b,c=d")
  const EntryCDPlain: Bytes := KeyC + [Equals] + ValueDPlain
  const FooBar: Bytes := Ascii("/foo/bar")
  const Eleven: Bytes := Ascii("11")

  lemma HeadersABPieces()
    ensures HeadersAB == EntryAB + [Comma] + EntryCDPlain
  {
    var parts := EntryAB + [Comma] + EntryCDPlain;
    assert |HeadersAB| == 7 == |parts|;
    assert forall i :: 0 <= i < 7 ==> HeadersAB[i] == parts[i];
  }

  lemma HeadersABParses()
    ensures ParseHeaders(HeadersAB) == Success(map[KeyA := ValueB, KeyC := ValueDPlain])
  {
    HeadersABPieces();
    EntryABParses();
    PlainEntry("c", "d");
    ParseTwo(EntryAB, EntryCDPlain, KeyA, ValueB, KeyC, ValueDPlain);
  }

  lemma HeadersABWithAgent(agent: Bytes)
    ensures WithUserAgent(map[KeyA := ValueB, KeyC := ValueDPlain], agent)
         == map[KeyA := ValueB, KeyC := ValueDPlain, UserAgent := agent]
  {
    assert |KeyA| != |UserAgent| && |KeyC| != |UserAgent|;
  }

  lemma ElevenSeconds()
    ensures SecondsToMillis(Eleven) == 11_000
  {
    assert Digits(11) == Digits(1) + [0x31];
    assert Digits(11) == Eleven;
    WholeSecondsRoundTrip(11);
  }

  /**
   * Every setting from the generic variables: the endpoint's https scheme
   * and port, the metrics path joined under it, the CA file, the client
   * certificate and key, the parsed headers, gzip, the VERIFY_NONE switch
   * and an 11 second timeout.
   */
  lemma FromEnvironment(env: Env, agent: Bytes)
    requires MetricsVar("ENDPOINT") !in env && MetricsVar("CERTIFICATE") !in env
    requires MetricsVar("CLIENT_CERTIFICATE") !in env && MetricsVar("CLIENT_KEY") !in env
    requires MetricsVar("HEADERS") !in env && MetricsVar("COMPRESSION") !in env && MetricsVar("TIMEOUT") !in env
    requires GenericVar("ENDPOINT") in env && env[GenericVar("ENDPOINT")] == EnvEndpointText
    requires GenericVar("CERTIFICATE") in env && env[GenericVar("CERTIFICATE")] == FooBar
    requires GenericVar("CLIENT_CERTIFICATE") in env && GenericVar("CLIENT_KEY") in env
    requires GenericVar("HEADERS") in env && env[GenericVar("HEADERS")] == HeadersAB
    requires GenericVar("COMPRESSION") in env && env[GenericVar("COMPRESSION")] == GzipText
    requires GenericVar("TIMEOUT") in env && env[GenericVar("TIMEOUT")] == Eleven
    requires RubyVar("SSL_VERIFY_NONE") in env && RubyVar("SSL_VERIFY_PEER") !in env
    ensures Configure(NoParams, env, agent)
         == Success(TransportConfig(Localhost, 1234, true, V1Metrics,
                                    map[KeyA := ValueB, KeyC := ValueDPlain, UserAgent := agent], Gzip, 11_000,
                                    Some(FooBar), Some(env[GenericVar("CLIENT_CERTIFICATE")]),
                                    Some(env[GenericVar("CLIENT_KEY")]), VerifyNone))
  {
    GenericEndpointGetsMetricsPath(env);
    CompressionArguments(env);
    assert ResolveCompression(None, env) == Success(Gzip);
    HeadersABParses();
    HeadersABWithAgent(agent);
    assert ResolveHeaders(None, env, agent) == Success(map[KeyA := ValueB, KeyC := ValueDPlain, UserAgent := agent]);
    ElevenSeconds();
  }

  // ---------------------------------------------------------------- explicit arguments

  const Baz: Bytes := Ascii("/baz")
  const KeyX: Bytes := Ascii("x")
  const ValueY: Bytes := Ascii("y")

  /** The arguments of the explicit-parameters case; `clientFile` holds both certificate and key. */
  function ExplicitParams(clientFile: Bytes): Params {
    Params(Some(ExplicitEndpointText), Some(Some(Baz)), Some(Some(clientFile)), Some(Some(clientFile)),
           Some(VerifyNone), Some(HashArg(map[KeyX := ValueY])), Some(Some(GzipText)), Some(12_000))
  }

  lemma ExplicitHeadersWithAgent(agent: Bytes)
    ensures WithUserAgent(map[KeyX := ValueY], agent) == map[KeyX := ValueY, UserAgent := agent]
  {
    assert |KeyX| != |UserAgent|;
  }

  /**
   * Explicit arguments win over every variable, and the environment's
   * malformed headers and unsupported compression are never looked at:
   * the result is the same in every environment.
   */
  lemma ExplicitOverEnvironment(env: Env, clientFile: Bytes, agent: Bytes)
    ensures Configure(ExplicitParams(clientFile), env, agent)
         == Success(TransportConfig(Localhost, 4321, false, [], map[KeyX := ValueY, UserAgent := agent], Gzip,
                                    12_000, Some(Baz), Some(clientFile), Some(clientFile), VerifyNone))
  {
    ExplicitEndpointVerbatim(env);
    CompressionArguments(env);
    ExplicitHeadersWithAgent(agent);
  }

  // ---------------------------------------------------------------- verify mode

  /** VERIFY_NONE's switch alone gives NONE; VERIFY_PEER's switch gives PEER, with or without the other. */
  lemma VerifyModeSwitches(env: Env)
    ensures RubyVar("SSL_VERIFY_NONE") in env && RubyVar("SSL_VERIFY_PEER") !in env ==> ResolveVerifyMode(None, env) == VerifyNone
    ensures RubyVar("SSL_VERIFY_PEER") in env ==> ResolveVerifyMode(None, env) == VerifyPeer
    ensures RubyVar("SSL_VERIFY_NONE") !in env ==> ResolveVerifyMode(None, env) == VerifyPeer
  {
  }
}
