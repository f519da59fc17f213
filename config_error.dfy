/** The ArgumentError a misconfigured exporter raises from its constructor. */
module ConfigErrors {
  import opened Bytes

  datatype ConfigError =
    | InvalidEndpoint(endpoint: Bytes)
    | UnsupportedCompression(compression: Bytes)
    | InvalidHeaders

  const MustBe: Bytes :=
    Ascii(" must be a String") + Ascii(" with comma-separated") + Ascii(" URL Encoded UTF-8")
    + Ascii(" k=v pairs or a Hash")

  function Message(e: ConfigError): Bytes {
    match e
    case InvalidEndpoint(u) => Ascii("invalid url for OTLP::MetricsExporter ") + u
    case UnsupportedCompression(c) => Ascii("unsupported compression key ") + c
    case InvalidHeaders =>
      Ascii("headers") + MustBe
  }

  /** Every malformed-headers error says so in its message. */
  lemma InvalidHeadersMessageNamesHeaders()
    ensures Contains(Message(InvalidHeaders), Ascii("headers"))
  {
    var word := Ascii("headers");
    var m := Message(InvalidHeaders);
    assert m == word + MustBe;
    assert m[..|word|] == word;
  }
}
