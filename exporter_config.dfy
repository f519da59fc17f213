/**
 * The settings the metrics exporter's constructor resolves once, from its
 * keyword arguments, the environment and the defaults: endpoint and path,
 * headers, compression, timeout, TLS files and certificate verification.
 */
module ExporterConfig {
  import opened Wrappers
  import opened Bytes
  import opened Environment
  import opened ConfigErrors
  import opened Headers
  import opened Endpoint

  // ---------------------------------------------------------------- compression

  /** The `@compression` setting: `'gzip'`, `'none'`, or nil when the argument was an explicit nil. */
  datatype Compression = Gzip | NoCompression | Unset

  const GzipText: Bytes := Ascii("gzip")
  const NoneText: Bytes := Ascii("none")

  /** The string a compression setting is written as; nil has none. */
  function CompressionText(c: Compression): Option<Bytes> {
    match c
    case Gzip => Some(GzipText)
    case NoCompression => Some(NoneText)
    case Unset => None
  }

  /** A compression name: only `gzip` and `none` are accepted. */
  function ReadCompression(text: Bytes): (r: Result<Compression, ConfigError>)
    ensures r.Success? <==> text == GzipText || text == NoneText
    ensures r.Success? ==> r.value != Unset && CompressionText(r.value) == Some(text)
    ensures r.Failure? ==> r.error == UnsupportedCompression(text)
  {
    if text == GzipText then Success(Gzip)
    else if text == NoneText then Success(NoCompression)
    else Failure(UnsupportedCompression(text))
  }

  /** Reading back the name of a setting gives the setting. */
  lemma CompressionRoundTrip(c: Compression)
    requires c != Unset
    ensures ReadCompression(CompressionText(c).value) == Success(c)
  {
    assert GzipText[0] != NoneText[0];
  }

  /**
   * The `compression:` argument (Some(None) is an explicit nil), else the
   * COMPRESSION variables, else `gzip`.
   */
  function ResolveCompression(explicit: Option<Option<Bytes>>, env: Env): (r: Result<Compression, ConfigError>)
    ensures explicit == Some(None) ==> r == Success(Unset)
    ensures explicit.Some? && explicit.value.Some? ==> r == ReadCompression(explicit.value.value)
    ensures explicit.None? && ConfigOpt(env, "COMPRESSION").Some? ==> r == ReadCompression(ConfigOpt(env, "COMPRESSION").value)
    ensures explicit.None? && ConfigOpt(env, "COMPRESSION").None? ==> r == Success(Gzip)
    ensures r.Success? && r.value == Unset ==> explicit == Some(None)
  {
    match Layered(explicit, env, "COMPRESSION", text => Some(text), Some(GzipText))
    case None => Success(Unset)
    case Some(text) => ReadCompression(text)
  }

  // ---------------------------------------------------------------- certificate verification

  /** OpenSSL's VERIFY_PEER and VERIFY_NONE. */
  datatype VerifyMode = VerifyPeer | VerifyNone

  /** The mode the two switches select: the VERIFY_PEER switch wins over VERIFY_NONE, and neither gives PEER. */
  function EnvVerifyMode(env: Env): (m: VerifyMode)
    ensures m == VerifyNone <==> RubyVar("SSL_VERIFY_NONE") in env && RubyVar("SSL_VERIFY_PEER") !in env
  {
    if RubyVar("SSL_VERIFY_PEER") in env then VerifyPeer
    else if RubyVar("SSL_VERIFY_NONE") in env then VerifyNone
    else VerifyPeer
  }

  /** The `ssl_verify_mode:` argument overrides both switches. */
  function ResolveVerifyMode(explicit: Option<VerifyMode>, env: Env): (m: VerifyMode)
    ensures explicit.Some? ==> m == explicit.value
    ensures explicit.None? ==>
      (m == VerifyNone <==> RubyVar("SSL_VERIFY_NONE") in env && RubyVar("SSL_VERIFY_PEER") !in env)
  {
    match explicit
    case Some(mode) => mode
    case None => EnvVerifyMode(env)
  }

  // ---------------------------------------------------------------- timeout

  /** The longest prefix of decimal digits. */
  function DigitPrefix(s: Bytes): (r: Bytes)
    ensures AllDigits(r) && |r| <= |s| && r == s[..|r|]
    ensures |r| < |s| ==> !IsDigit(s[|r|])
  {
    if s != [] && IsDigit(s[0]) then [s[0]] + DigitPrefix(s[1..]) else []
  }

  lemma {:induction false} DigitPrefixOfDigits(s: Bytes)
    requires AllDigits(s)
    ensures DigitPrefix(s) == s
  {
    if s != [] {
      DigitPrefixOfDigits(s[1..]);
      assert s == [s[0]] + s[1..];
    }
  }

  /** Up to three decimals as milliseconds; missing digits read as zeros, further ones are dropped. */
  function FractionMillis(f: Bytes): (ms: nat)
    requires AllDigits(f)
    ensures ms < 1000
    ensures f == [] ==> ms == 0
  {
    var d := f + [0x30, 0x30, 0x30];
    assert IsDigit(d[0]) && IsDigit(d[1]) && IsDigit(d[2]);
    100 * (d[0] as int - 0x30) + 10 * (d[1] as int - 0x30) + (d[2] as int - 0x30)
  }

  const Dot: byte := 0x2E

  /**
   * String#to_f on a number of seconds, in milliseconds: leading whitespace
   * is skipped, then whole seconds and decimals are read up to the first
   * byte that cannot continue the number; text without a number is zero.
   */
  function SecondsToMillis(text: Bytes): (ms: nat) {
    var t := TrimLeft(text);
    var whole := DigitPrefix(t);
    var rest := t[|whole|..];
    var fraction := if rest != [] && rest[0] == Dot then DigitPrefix(rest[1..]) else [];
    1000 * DecimalValue(whole) + FractionMillis(fraction)
  }

  /** A whole number of seconds written in decimal reads back as that many seconds. */
  lemma WholeSecondsRoundTrip(n: nat)
    ensures SecondsToMillis(Digits(n)) == 1000 * n
  {
    var d := Digits(n);
    assert TrimLeft(d) == d by {
      assert !IsSpace(d[0]);
    }
    DigitPrefixOfDigits(d);
    DecimalDigits(n);
    assert d[|d|..] == [];
  }

  const DefaultTimeoutMillis: nat := 10_000

  /** The `timeout:` argument (milliseconds), else the TIMEOUT variables read as seconds, else 10 seconds. */
  function ResolveTimeout(explicitMillis: Option<nat>, env: Env): (ms: nat)
    ensures explicitMillis.Some? ==> ms == explicitMillis.value
    ensures explicitMillis.None? && ConfigOpt(env, "TIMEOUT").Some? ==> ms == SecondsToMillis(ConfigOpt(env, "TIMEOUT").value)
    ensures explicitMillis.None? && ConfigOpt(env, "TIMEOUT").None? ==> ms == DefaultTimeoutMillis
  {
    Layered(explicitMillis, env, "TIMEOUT", SecondsToMillis, DefaultTimeoutMillis)
  }

  // ---------------------------------------------------------------- TLS files

  /** A file setting: the argument (Some(None) is an explicit nil), else the variables, else none. */
  function ResolveFile(explicit: Option<Option<Bytes>>, env: Env, field: string): (r: Option<Bytes>)
    ensures explicit.Some? ==> r == explicit.value
    ensures explicit.None? ==> r == ConfigOpt(env, field)
  {
    Layered(explicit, env, field, path => Some(path), None)
  }

  // ---------------------------------------------------------------- the whole configuration

  /** The constructor's keyword arguments; None is an argument left out. */
  datatype Params = Params(
    endpoint: Option<Bytes>,
    certificateFile: Option<Option<Bytes>>,
    clientCertificateFile: Option<Option<Bytes>>,
    clientKeyFile: Option<Option<Bytes>>,
    sslVerifyMode: Option<VerifyMode>,
    headers: Option<HeadersArg>,
    compression: Option<Option<Bytes>>,
    timeoutMillis: Option<nat>)

  const NoParams: Params := Params(None, None, None, None, None, None, None, None)

  /** What the exporter keeps: the HTTP connection's settings, the path, the headers, compression and timeout. */
  datatype TransportConfig = TransportConfig(
    address: Bytes,
    port: nat,
    useSsl: bool,
    path: Bytes,
    headers: HeaderMap,
    compression: Compression,
    timeoutMillis: nat,
    caFile: Option<Bytes>,
    certFile: Option<Bytes>,
    keyFile: Option<Bytes>,
    verifyMode: VerifyMode)

  /** The settings once the endpoint, compression and headers are known to be valid. */
  function Assemble(url: Url, compression: Compression, headers: HeaderMap, p: Params, env: Env): (c: TransportConfig)
    ensures c.useSsl <==> url.scheme == Https
    ensures c.address == url.host && c.path == url.path
  {
    TransportConfig(
      url.host, Port(url), UseSsl(url), url.path, headers, compression,
      ResolveTimeout(p.timeoutMillis, env),
      ResolveFile(p.certificateFile, env, "CERTIFICATE"),
      ResolveFile(p.clientCertificateFile, env, "CLIENT_CERTIFICATE"),
      ResolveFile(p.clientKeyFile, env, "CLIENT_KEY"),
      ResolveVerifyMode(p.sslVerifyMode, env))
  }

  /**
   * The constructor's configuration, or the ArgumentError it raises.  The
   * endpoint is checked first, then compression, then the headers.
   */
  function Configure(p: Params, env: Env, agent: Bytes): (r: Result<TransportConfig, ConfigError>)
    ensures r.Success? <==>
      ResolveEndpoint(p.endpoint, env).Success? && ResolveCompression(p.compression, env).Success?
      && ResolveHeaders(p.headers, env, agent).Success?
    ensures ResolveEndpoint(p.endpoint, env).Failure? ==> r == Failure(ResolveEndpoint(p.endpoint, env).error)
    ensures ResolveEndpoint(p.endpoint, env).Success? && ResolveCompression(p.compression, env).Failure? ==>
      r == Failure(ResolveCompression(p.compression, env).error)
    ensures r.Failure? && r.error == InvalidHeaders ==> ResolveHeaders(p.headers, env, agent).Failure?
    ensures r.Success? ==> UserAgent in r.value.headers && EndsWith(r.value.headers[UserAgent], agent)
    ensures r.Success? ==> (r.value.useSsl <==> ResolveEndpoint(p.endpoint, env).value.scheme == Https)
  {
    match ResolveEndpoint(p.endpoint, env)
    case Failure(e) => Failure(e)
    case Success(url) =>
      match ResolveCompression(p.compression, env)
      case Failure(e) => Failure(e)
      case Success(compression) =>
        match ResolveHeaders(p.headers, env, agent)
        case Failure(e) => Failure(e)
        case Success(headers) => Success(Assemble(url, compression, headers, p, env))
  }

  /**
   * Explicit arguments hide the environment: with every argument given, the
   * configuration is the same in any two environments, whatever invalid
   * values either of them holds.
   */
  lemma ExplicitArgumentsHideEnvironment(p: Params, env1: Env, env2: Env, agent: Bytes)
    requires p.endpoint.Some? && p.certificateFile.Some? && p.clientCertificateFile.Some?
    requires p.clientKeyFile.Some? && p.sslVerifyMode.Some? && p.headers.Some?
    requires p.compression.Some? && p.timeoutMillis.Some?
    ensures Configure(p, env1, agent) == Configure(p, env2, agent)
  {
  }
}
