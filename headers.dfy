/**
 * The exporter's HTTP headers: the `headers` argument or the HEADERS
 * environment variables, parsed from their string form when needed, with the
 * library's User-Agent appended.
 */
module Headers {
  import opened Wrappers
  import opened Bytes
  import opened Environment
  import opened ConfigErrors

  /** Header names to values; a Ruby Hash compared with ==, so order does not matter. */
  type HeaderMap = map<Bytes, Bytes>

  /** The `headers:` argument: a Hash, a String, or any other object. */
  datatype HeadersArg = HashArg(hash: HeaderMap) | StringArg(text: Bytes) | OtherArg

  // ---------------------------------------------------------------- the string form

  /**
   * One `key=value` entry: split on the first `=`, key and value trimmed,
   * then percent-decoded; a missing `=`, an empty key or value, or bytes
   * that are not UTF-8 after decoding make the whole headers setting invalid.
   */
  function ParseEntry(entry: Bytes): (r: Result<(Bytes, Bytes), ConfigError>)
    ensures Equals !in entry ==> r == Failure(InvalidHeaders)
    ensures r.Failure? ==> r.error == InvalidHeaders
    ensures r.Success? ==>
      && r.value.0 != [] && r.value.1 != []
      && ValidUtf8(r.value.0) && ValidUtf8(r.value.1)
  {
    match SplitFirst(entry, Equals)
    case None => Failure(InvalidHeaders)
    case Some((rawKey, rawValue)) =>
      var key, value := Trim(rawKey), Trim(rawValue);
      if key == [] || value == [] then Failure(InvalidHeaders)
      else
        var k, v := PercentDecode(key), PercentDecode(value);
        if !ValidUtf8(k) || !ValidUtf8(v) then Failure(InvalidHeaders)
        else Success((k, v))
  }

  /** The entries added one by one to `acc`; a later entry for the same key wins. */
  function ParseEntries(entries: seq<Bytes>, acc: HeaderMap): (r: Result<HeaderMap, ConfigError>)
    ensures r.Failure? ==> r.error == InvalidHeaders
    ensures r.Success? ==> acc.Keys <= r.value.Keys
  {
    if entries == [] then Success(acc)
    else
      match ParseEntry(entries[0])
      case Failure(e) => Failure(e)
      case Success((k, v)) => ParseEntries(entries[1..], acc[k := v])
  }

  /** The string form: comma-separated entries. */
  function ParseHeaders(text: Bytes): (r: Result<HeaderMap, ConfigError>)
    ensures r.Failure? ==> r.error == InvalidHeaders
  {
    ParseEntries(Split(text, Comma), map[])
  }

  /** A successfully parsed string yields only non-empty, UTF-8 names and values. */
  lemma {:induction false} ParsedHeadersWellFormed(entries: seq<Bytes>, acc: HeaderMap)
    requires forall k :: k in acc ==> k != [] && acc[k] != [] && ValidUtf8(k) && ValidUtf8(acc[k])
    requires ParseEntries(entries, acc).Success?
    ensures var m := ParseEntries(entries, acc).value;
            forall k :: k in m ==> k != [] && m[k] != [] && ValidUtf8(k) && ValidUtf8(m[k])
  {
    if entries != [] {
      var e := ParseEntry(entries[0]);
      assert e.Success?;
      var (k, v) := e.value;
      var next := acc[k := v];
      assert ParseEntries(entries, acc) == ParseEntries(entries[1..], next);
      assert forall k' :: k' in next ==> k' != [] && next[k'] != [] && ValidUtf8(k') && ValidUtf8(next[k']);
      ParsedHeadersWellFormed(entries[1..], next);
    }
  }

  /** An entry is split on its first `=` only: every later `=` belongs to the value. */
  lemma EntrySplitsOnFirstEquals(key: Bytes, value: Bytes)
    requires Equals !in key
    requires Trim(key) != [] && Trim(value) != []
    requires ValidUtf8(PercentDecode(Trim(key))) && ValidUtf8(PercentDecode(Trim(value)))
    ensures ParseEntry(key + [Equals] + value) == Success((PercentDecode(Trim(key)), PercentDecode(Trim(value))))
  {
    SplitFirstAfter(key, Equals, value);
  }

  // ---------------------------------------------------------------- round trip

  /** A header written in the string form with every byte percent-encoded. */
  function FormatEntry(kv: (Bytes, Bytes)): Bytes {
    PercentEncode(kv.0) + [Equals] + PercentEncode(kv.1)
  }

  function FormatEntries(pairs: seq<(Bytes, Bytes)>): (r: seq<Bytes>)
    ensures |r| == |pairs|
    ensures forall i :: 0 <= i < |pairs| ==> r[i] == FormatEntry(pairs[i])
  {
    if pairs == [] then [] else [FormatEntry(pairs[0])] + FormatEntries(pairs[1..])
  }

  /** The pairs stored one by one into `acc`, as a Hash literal does. */
  function StorePairs(pairs: seq<(Bytes, Bytes)>, acc: HeaderMap): HeaderMap {
    if pairs == [] then acc else StorePairs(pairs[1..], acc[pairs[0].0 := pairs[0].1])
  }

  predicate WellFormedPair(kv: (Bytes, Bytes)) {
    kv.0 != [] && kv.1 != [] && ValidUtf8(kv.0) && ValidUtf8(kv.1)
  }

  lemma EntryRoundTrip(kv: (Bytes, Bytes))
    requires WellFormedPair(kv)
    ensures ParseEntry(FormatEntry(kv)) == Success(kv)
  {
    var ek, ev := PercentEncode(kv.0), PercentEncode(kv.1);
    SplitFirstAfter(ek, Equals, ev);
    TrimUnchanged(ek);
    TrimUnchanged(ev);
    DecodeEncode(kv.0);
    DecodeEncode(kv.1);
  }

  lemma {:induction false} EntriesRoundTrip(pairs: seq<(Bytes, Bytes)>, acc: HeaderMap)
    requires forall i :: 0 <= i < |pairs| ==> WellFormedPair(pairs[i])
    ensures ParseEntries(FormatEntries(pairs), acc) == Success(StorePairs(pairs, acc))
  {
    if pairs != [] {
      EntryRoundTrip(pairs[0]);
      assert FormatEntries(pairs)[1..] == FormatEntries(pairs[1..]);
      EntriesRoundTrip(pairs[1..], acc[pairs[0].0 := pairs[0].1]);
    }
  }

  /**
   * The string form and the Hash form agree: writing well-formed pairs as
   * `k=v` entries joined by commas, and parsing the result, gives the Hash
   * that holds the same pairs.
   */
  lemma FormatThenParse(pairs: seq<(Bytes, Bytes)>)
    requires |pairs| >= 1
    requires forall i :: 0 <= i < |pairs| ==> WellFormedPair(pairs[i])
    ensures ParseHeaders(Join(FormatEntries(pairs), Comma)) == Success(StorePairs(pairs, map[]))
  {
    var entries := FormatEntries(pairs);
    forall i | 0 <= i < |entries| ensures Comma !in entries[i] {
      assert entries[i] == PercentEncode(pairs[i].0) + [Equals] + PercentEncode(pairs[i].1);
    }
    SplitJoin(entries, Comma);
    EntriesRoundTrip(pairs, map[]);
  }

  // ---------------------------------------------------------------- User-Agent

  const UserAgent: Bytes := Ascii("User-Agent")

  /** The exporter's product token and the Ruby token of the User-Agent. */
  const AgentName: Bytes := Ascii("OTel-OTLP-MetricsExporter-Ruby/")
  const RubyName: Bytes := Ascii("Ruby/")

  /** The pieces of the library's own User-Agent, in order. */
  function UserAgentPieces(version: Bytes, rubyVersion: Bytes, platform: Bytes, engine: Bytes, engineVersion: Bytes): seq<Bytes> {
    [AgentName + version, [Space], RubyName + rubyVersion, [Space, OpenParen], platform,
     [Semicolon, Space], engine + [Slash] + engineVersion, [CloseParen]]
  }

  /**
   * The library's own User-Agent: the exporter and its version, the Ruby
   * version, and in parentheses the platform and the Ruby engine with its
   * version.
   */
  function DefaultUserAgent(version: Bytes, rubyVersion: Bytes, platform: Bytes, engine: Bytes, engineVersion: Bytes): Bytes {
    Concat(UserAgentPieces(version, rubyVersion, platform, engine, engineVersion))
  }

  /** The default User-Agent names the exporter version, the Ruby version, the platform and the engine. */
  lemma DefaultUserAgentNamesRuntime(version: Bytes, rubyVersion: Bytes, platform: Bytes, engine: Bytes, engineVersion: Bytes)
    ensures var ua := DefaultUserAgent(version, rubyVersion, platform, engine, engineVersion);
      && Contains(ua, AgentName + version)
      && Contains(ua, RubyName + rubyVersion)
      && Contains(ua, platform)
      && Contains(ua, engine + [Slash] + engineVersion)
  {
    var pieces := UserAgentPieces(version, rubyVersion, platform, engine, engineVersion);
    assert DefaultUserAgent(version, rubyVersion, platform, engine, engineVersion) == Concat(pieces);
    assert pieces[0] == AgentName + version && pieces[2] == RubyName + rubyVersion;
    assert pieces[4] == platform && pieces[6] == engine + [Slash] + engineVersion;
    ConcatContainsPiece(pieces, 0);
    ConcatContainsPiece(pieces, 2);
    ConcatContainsPiece(pieces, 4);
    ConcatContainsPiece(pieces, 6);
  }

  /**
   * The default User-Agent is appended to one already given, after a space,
   * or stands alone; no other header changes.
   */
  function WithUserAgent(h: HeaderMap, agent: Bytes): (r: HeaderMap)
    ensures UserAgent in r && EndsWith(r[UserAgent], agent)
    ensures UserAgent in h ==> r[UserAgent] == h[UserAgent] + [Space] + agent
    ensures UserAgent !in h ==> r[UserAgent] == agent
    ensures r.Keys == h.Keys + {UserAgent}
    ensures forall k :: k in h && k != UserAgent ==> r[k] == h[k]
  {
    var ua := if UserAgent in h then h[UserAgent] + [Space] + agent else agent;
    assert ua[|ua| - |agent|..] == agent;
    h[UserAgent := ua]
  }

  // ---------------------------------------------------------------- resolution

  /** A headers string parsed, then given the User-Agent. */
  function ParsedWithAgent(text: Bytes, agent: Bytes): Result<HeaderMap, ConfigError> {
    match ParseHeaders(text)
    case Success(h) => Success(WithUserAgent(h, agent))
    case Failure(e) => Failure(e)
  }

  /**
   * The exporter's headers: the argument if given, else the HEADERS
   * variables (metrics-specific first) in string form, else none; then the
   * User-Agent.  Anything but a Hash or a String is rejected.
   */
  function ResolveHeaders(explicit: Option<HeadersArg>, env: Env, agent: Bytes): (r: Result<HeaderMap, ConfigError>)
    ensures r.Failure? ==> r.error == InvalidHeaders
    ensures r.Success? ==> UserAgent in r.value && EndsWith(r.value[UserAgent], agent)
    ensures explicit == Some(OtherArg) ==> r.Failure?
    ensures explicit.Some? && explicit.value.HashArg? ==> r == Success(WithUserAgent(explicit.value.hash, agent))
    ensures explicit.Some? && explicit.value.StringArg? ==> r == ParsedWithAgent(explicit.value.text, agent)
    ensures explicit.None? && ConfigOpt(env, "HEADERS").Some? ==> r == ParsedWithAgent(ConfigOpt(env, "HEADERS").value, agent)
    ensures explicit.None? && ConfigOpt(env, "HEADERS").None? ==> r == Success(map[UserAgent := agent])
  {
    var arg := Layered(explicit, env, "HEADERS", text => StringArg(text), HashArg(map[]));
    match arg
    case HashArg(h) => Success(WithUserAgent(h, agent))
    case StringArg(text) => ParsedWithAgent(text, agent)
    case OtherArg => Failure(InvalidHeaders)
  }
}
