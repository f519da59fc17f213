/**
 * The collector endpoint: an absolute http or https URL, and the request
 * path the exporter posts to.  An endpoint given explicitly or in the
 * metrics-specific variable is used as written; the generic OTLP endpoint
 * and the default one get the metrics path joined under them.
 */
module Endpoint {
  import opened Wrappers
  import opened Bytes
  import opened Environment
  import opened ConfigErrors

  datatype Scheme = Http | Https

  /** A parsed URL: the port as written (None when omitted) and the path, possibly empty. */
  datatype Url = Url(scheme: Scheme, host: Bytes, explicitPort: Option<nat>, path: Bytes)

  const HttpPrefix: Bytes := Ascii("http://")
  const HttpsPrefix: Bytes := Ascii("https://")

  function SchemePrefix(s: Scheme): Bytes {
    match s
    case Http => HttpPrefix
    case Https => HttpsPrefix
  }

  function DefaultPort(s: Scheme): nat {
    match s
    case Http => 80
    case Https => 443
  }

  /** The port connected to: the one written in the URL, else the scheme's default. */
  function Port(u: Url): (p: nat)
    ensures u.explicitPort.None? ==> p == (if u.scheme == Http then 80 else 443)
    ensures u.explicitPort.Some? ==> p == u.explicitPort.value
  {
    match u.explicitPort
    case Some(p) => p
    case None => DefaultPort(u.scheme)
  }

  /** The connection uses TLS exactly when the scheme is https. */
  predicate UseSsl(u: Url) {
    u.scheme == Https
  }

  // ---------------------------------------------------------------- decimal ports

  predicate IsDigit(b: byte) {
    0x30 <= b <= 0x39
  }

  predicate AllDigits(s: Bytes) {
    forall i :: 0 <= i < |s| ==> IsDigit(s[i])
  }

  /** The number a string of decimal digits spells. */
  function DecimalValue(ds: Bytes): nat
    requires AllDigits(ds)
  {
    if ds == [] then 0 else 10 * DecimalValue(ds[..|ds| - 1]) + (ds[|ds| - 1] - 0x30)
  }

  /** The decimal digits of `n`, without leading zeros. */
  function Digits(n: nat): (r: Bytes)
    ensures r != [] && AllDigits(r)
    ensures n >= 10 ==> |r| >= 2
  {
    if n < 10 then [0x30 + n] else Digits(n / 10) + [0x30 + n % 10]
  }

  lemma {:induction false} DecimalDigits(n: nat)
    ensures DecimalValue(Digits(n)) == n
  {
    var d := Digits(n);
    if n >= 10 {
      DecimalDigits(n / 10);
      assert d[..|d| - 1] == Digits(n / 10);
    }
  }

  /** A four-digit port number written out. */
  lemma FourDigits(n: nat)
    requires 1000 <= n < 10000
    ensures Digits(n) == [0x30 + n / 1000, 0x30 + n / 100 % 10, 0x30 + n / 10 % 10, 0x30 + n % 10]
  {
    assert n / 10 / 10 == n / 100 && n / 100 / 10 == n / 1000;
    assert Digits(n / 1000) == [0x30 + n / 1000];
    assert Digits(n / 100) == [0x30 + n / 1000] + [0x30 + n / 100 % 10];
    assert Digits(n / 10) == [0x30 + n / 1000, 0x30 + n / 100 % 10] + [0x30 + n / 10 % 10];
  }

  // ---------------------------------------------------------------- parsing

  /** A byte allowed in a host: visible ASCII other than `/`, `:`, `?`, `#`, `@`, `[` and `]`. */
  predicate HostByte(b: byte) {
    0x21 <= b <= 0x7E && b != Slash && b != Colon && b != 0x3F && b != 0x23 && b != 0x40 && b != 0x5B && b != 0x5D
  }

  predicate ValidHost(h: Bytes) {
    h != [] && forall i :: 0 <= i < |h| ==> HostByte(h[i])
  }

  /** Visible ASCII: no spaces and no control bytes. */
  predicate Visible(s: Bytes) {
    forall i :: 0 <= i < |s| ==> 0x21 <= s[i] <= 0x7E
  }

  /** The host and optional port before the path. */
  function ParseAuthority(scheme: Scheme, authority: Bytes, path: Bytes): (r: Option<Url>)
    ensures r.Some? ==> r.value.scheme == scheme && r.value.path == path && ValidHost(r.value.host)
  {
    match SplitFirst(authority, Colon)
    case None =>
      if ValidHost(authority) then Some(Url(scheme, authority, None, path)) else None
    case Some((host, port)) =>
      if ValidHost(host) && AllDigits(port) then
        Some(Url(scheme, host, if port == [] then None else Some(DecimalValue(port)), path))
      else None
  }

  /** What follows `scheme://`: the authority up to the first `/`, and the path from it on. */
  function ParseRest(scheme: Scheme, rest: Bytes): (r: Option<Url>)
    ensures r.Some? ==> r.value.scheme == scheme && WellFormed(r.value)
  {
    var (authority, path) :=
      match SplitFirst(rest, Slash)
      case Some((a, p)) => (a, [Slash] + p)
      case None => (rest, []);
    if Visible(path) then ParseAuthority(scheme, authority, path) else None
  }

  /** An absolute http or https URL; anything else, `not a url` included, is None. */
  function ParseUrl(text: Bytes): (r: Option<Url>)
    ensures r.Some? ==> WellFormed(r.value)
    ensures r.Some? ==> |SchemePrefix(r.value.scheme)| <= |text| && text[..|SchemePrefix(r.value.scheme)|] == SchemePrefix(r.value.scheme)
  {
    if |HttpsPrefix| <= |text| && text[..|HttpsPrefix|] == HttpsPrefix then ParseRest(Https, text[|HttpsPrefix|..])
    else if |HttpPrefix| <= |text| && text[..|HttpPrefix|] == HttpPrefix then ParseRest(Http, text[|HttpPrefix|..])
    else None
  }

  // ---------------------------------------------------------------- round trip

  /** A URL this model can write out and read back. */
  predicate WellFormed(u: Url) {
    ValidHost(u.host) && Visible(u.path) && (u.path == [] || u.path[0] == Slash)
  }

  function PortText(p: Option<nat>): Bytes {
    match p
    case None => []
    case Some(n) => [Colon] + Digits(n)
  }

  /** The URL written out: scheme, host, `:port` when one was given, path. */
  function FormatUrl(u: Url): Bytes {
    SchemePrefix(u.scheme) + u.host + PortText(u.explicitPort) + u.path
  }

  lemma AuthorityRoundTrip(u: Url)
    requires WellFormed(u)
    ensures ParseAuthority(u.scheme, u.host + PortText(u.explicitPort), u.path) == Some(u)
  {
    assert Colon !in u.host by {
      forall i | 0 <= i < |u.host| ensures u.host[i] != Colon {
        assert HostByte(u.host[i]);
      }
    }
    match u.explicitPort
    case None =>
      assert u.host + [] == u.host;
    case Some(n) =>
      SplitFirstAfter(u.host, Colon, Digits(n));
      assert u.host + PortText(u.explicitPort) == u.host + [Colon] + Digits(n);
      DecimalDigits(n);
  }

  lemma RestRoundTrip(u: Url)
    requires WellFormed(u)
    ensures ParseRest(u.scheme, u.host + PortText(u.explicitPort) + u.path) == Some(u)
  {
    var authority := u.host + PortText(u.explicitPort);
    assert Slash !in authority by {
      forall i | 0 <= i < |authority| ensures authority[i] != Slash {
        if i < |u.host| {
          assert HostByte(u.host[i]);
        } else {
          var d := Digits(u.explicitPort.value);
          assert authority[i] == ([Colon] + d)[i - |u.host|];
          if i > |u.host| { assert authority[i] == d[i - |u.host| - 1]; }
        }
      }
    }
    if u.path == [] {
      assert authority + u.path == authority;
    } else {
      assert u.path == [Slash] + u.path[1..];
      assert authority + u.path == authority + [Slash] + u.path[1..];
      SplitFirstAfter(authority, Slash, u.path[1..]);
    }
    AuthorityRoundTrip(u);
  }

  /** Parsing undoes writing: every well-formed URL is read back as itself. */
  lemma ParseFormat(u: Url)
    requires WellFormed(u)
    ensures ParseUrl(FormatUrl(u)) == Some(u)
  {
    var prefix := SchemePrefix(u.scheme);
    var rest := u.host + PortText(u.explicitPort) + u.path;
    var text := FormatUrl(u);
    assert text == prefix + rest;
    assert text[..|prefix|] == prefix && text[|prefix|..] == rest;
    if u.scheme == Http && |HttpsPrefix| <= |text| {
      assert text[4] == Colon != HttpsPrefix[4];
      assert text[..|HttpsPrefix|] != HttpsPrefix;
    }
    RestRoundTrip(u);
  }

  // ---------------------------------------------------------------- resolution

  const DefaultEndpoint: Bytes := Ascii("http://localhost:4318")
  const MetricsSuffix: Bytes := Ascii("v1/metrics")

  /**
   * The endpoint with a trailing slash ensured, joined with `v1/metrics`:
   * the metrics path directly under the endpoint's own path.
   */
  function MetricsPath(base: Bytes): (r: Bytes)
    ensures |base| + |MetricsSuffix| <= |r| <= |base| + 1 + |MetricsSuffix|
    ensures r[..|base|] == base
    ensures EndsWith(r, [Slash] + MetricsSuffix)
    ensures Visible(base) ==> Visible(r)
    ensures (base == [] || base[0] == Slash) ==> r[0] == Slash
  {
    var withSlash := if base != [] && base[|base| - 1] == Slash then base else base + [Slash];
    assert Visible(MetricsSuffix);
    assert Visible(base) ==> Visible(withSlash);
    withSlash + MetricsSuffix
  }

  /** A trailing slash on the endpoint makes no difference to the metrics path. */
  lemma MetricsPathIgnoresTrailingSlash(base: Bytes)
    requires base == [] || base[|base| - 1] != Slash
    ensures MetricsPath(base + [Slash]) == MetricsPath(base)
  {
  }

  /** An endpoint string read as a URL, or the ArgumentError naming it. */
  function ParseEndpoint(text: Bytes): (r: Result<Url, ConfigError>)
    ensures r.Success? <==> ParseUrl(text).Some?
    ensures r.Success? ==> r.value == ParseUrl(text).value
    ensures r.Failure? ==> r.error == InvalidEndpoint(text)
  {
    match ParseUrl(text)
    case Some(u) => Success(u)
    case None => Failure(InvalidEndpoint(text))
  }

  /**
   * The URL posted to.  The `endpoint:` argument, else the metrics endpoint
   * variable, is taken as written, its path verbatim (empty when it has
   * none).  Otherwise the generic endpoint variable, else the default,
   * gets the metrics path joined under it.
   */
  function ResolveEndpoint(explicit: Option<Bytes>, env: Env): (r: Result<Url, ConfigError>)
    ensures r.Failure? ==> r.error.InvalidEndpoint?
    ensures r.Success? ==> WellFormed(r.value)
    ensures explicit.Some? ==> r == ParseEndpoint(explicit.value)
    ensures explicit.None? && MetricsVar("ENDPOINT") in env ==> r == ParseEndpoint(env[MetricsVar("ENDPOINT")])
    ensures explicit.None? && MetricsVar("ENDPOINT") !in env && r.Success? ==>
      EndsWith(r.value.path, [Slash] + MetricsSuffix)
  {
    match explicit
    case Some(text) => ParseEndpoint(text)
    case None =>
      if MetricsVar("ENDPOINT") in env then ParseEndpoint(env[MetricsVar("ENDPOINT")])
      else
        var base := if GenericVar("ENDPOINT") in env then env[GenericVar("ENDPOINT")] else DefaultEndpoint;
        WithMetricsPath(ParseEndpoint(base))
  }

  /** The parsed endpoint with the metrics path joined under its own path. */
  function WithMetricsPath(parsed: Result<Url, ConfigError>): (r: Result<Url, ConfigError>)
    requires parsed.Success? ==> WellFormed(parsed.value)
    ensures parsed.Failure? ==> r == parsed
    ensures parsed.Success? ==> r == Success(parsed.value.(path := MetricsPath(parsed.value.path)))
    ensures r.Success? ==> WellFormed(r.value) && EndsWith(r.value.path, [Slash] + MetricsSuffix)
  {
    match parsed
    case Failure(e) => Failure(e)
    case Success(u) => Success(u.(path := MetricsPath(u.path)))
  }

  /**
   * The generic endpoint variable with or without a trailing slash resolves
   * to the same URL.
   */
  lemma GenericEndpointTrailingSlash(u: Url, env: Env)
    requires WellFormed(u) && (u.path == [] || u.path[|u.path| - 1] != Slash)
    requires MetricsVar("ENDPOINT") !in env
    ensures ResolveEndpoint(None, env[GenericVar("ENDPOINT") := FormatUrl(u) + [Slash]])
         == ResolveEndpoint(None, env[GenericVar("ENDPOINT") := FormatUrl(u)])
  {
    var v := u.(path := u.path + [Slash]);
    assert FormatUrl(v) == FormatUrl(u) + [Slash];
    assert WellFormed(v);
    ParseFormat(u);
    ParseFormat(v);
    assert |MetricsVar("ENDPOINT")| != |GenericVar("ENDPOINT")|;
    assert MetricsPath(v.path) == MetricsPath(u.path);
  }
}
