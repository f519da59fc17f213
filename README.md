# OpenTelemetry Ruby: SDK log records and the OTLP metrics exporter

This project models two parts of the OpenTelemetry Ruby repository in Dafny.

**SDK log records.** `OpenTelemetry::SDK::Logs::LogRecord` is built from keyword arguments. Its constructor:
- copies the caller's attribute Hash into a fresh one;
- counts the attributes;
- picks the observed timestamp (`observed_timestamp || timestamp || Time.now`);
- trims the copy in place.

Trimming has three passes:
1. The oldest entries are shifted out until at most `attribute_count_limit` remain.
2. Every value is shortened to `attribute_length_limit`, when there is one.
3. The entries are validated. As written, the first entry with an invalid key or value is reported and validation stops there, so no entry is removed (see Findings). A corrected variant, which drops and reports every invalid entry, is modelled beside it.

`to_log_record_data` turns the timestamps into integer nanoseconds and hands the rest over unchanged.
- Module `LogAttributes` states the passes as functions on values: `TrimmedAsWritten`/`TrimReportsAsWritten` for the code as written, and `Trimmed`/`TrimReports` for the corrected validation.
- Module `Logs` holds the classes: `AttributeHash` for a mutable Ruby Hash, and `LogRecord`. Their methods change the hash in place and are proved equal to those functions. The record's constructor and `TrimAttributes` follow the code as written; `TrimAttributesCorrected` and `ValidateAttributes` are the corrected variant.

**The OTLP/HTTP metrics exporter.** The constructor resolves each setting from a keyword argument, else `OTEL_EXPORTER_OTLP_METRICS_*`, else `OTEL_EXPORTER_OTLP_*`, else a default. The settings are:
- the endpoint and its `/v1/metrics` path;
- the headers, taken from a Hash or from a comma-separated, URL-encoded `k=v` string, with the library's User-Agent appended;
- compression, either `gzip` or `none`;
- the timeout;
- the CA, client certificate and key files;
- the certificate verification mode.

The constructor raises an ArgumentError for a bad endpoint, an unsupported compression or malformed headers (modules `Environment`, `Headers`, `Endpoint`, `ExporterConfig`).

An export call:
- fails at once after `shutdown`, or when the request cannot be serialised;
- otherwise groups the batch per resource and per instrumentation scope (module `Batching`);
- then runs the send loop, which retries timeouts and retryable statuses under the call's time budget and folds every outcome into METRICS_SUCCESS or METRICS_FAILURE (module `MetricsExport`).

Byte strings are `seq<byte>`. Time is an abstract millisecond clock: the transport reports how long each POST took, and the backoff policy gives the delay before the next attempt. Both are parameters. Modules `HeaderExamples`, `EndpointExamples` and `ConfigExamples` work the exporter's known configurations through the model.

The exporter's implementation file is not part of this model. Its behaviour is taken from its test suite and from the exporter's documented retry rules: 2xx is success; 408, 429, 5xx and transient errors are retried; anything else fails at once. The test suite itself pins only 200, 400 and 404.

## Model

| member | source | states |
|---|---|---|
| Logs.TruncDiv | logs_sdk/lib/opentelemetry/sdk/logs/log_record.rb:114 | the quotient is rounded toward zero, as `to_i` on a Rational does, for both signs |
| Logs.ToIntegerNanoseconds | logs_sdk/lib/opentelemetry/sdk/logs/log_record.rb:111-115 | nil exactly for a stamp that is not a Time; otherwise the number of nanoseconds, truncated toward zero (bounded from both sides by the exact rational value) |
| Logs.PickObserved | logs_sdk/lib/opentelemetry/sdk/logs/log_record.rb:76 | the observed timestamp is the argument when given, else the event timestamp, else the clock reading |
| Logs.AttributeHash.Copy | logs_sdk/lib/opentelemetry/sdk/logs/log_record.rb:80 | `Hash[attributes]` is a fresh hash with the same entries; the caller's hash is only read |
| Logs.AttributeHash.Shift | logs_sdk/lib/opentelemetry/sdk/logs/log_record.rb:134 | removes and returns the oldest entry, or returns nil and changes nothing on an empty hash; keys stay unique |
| Logs.AttributeHash.TransformValues | logs_sdk/lib/opentelemetry/sdk/logs/log_record.rb:159 | replaces every value by its image in place; keys and their order are kept |
| Logs.LogRecord.constructor | logs_sdk/lib/opentelemetry/sdk/logs/log_record.rb:61-90 | every field is stored as given; the observed timestamp is chosen; the limits default when nil; the total is the caller's attribute count before trimming; a nil hash stays nil; otherwise the record holds a fresh copy trimmed as written (the newest entries, truncated, invalid ones included) and the as-written reports (at most the first invalid entry) |
| Logs.LogRecord.ToLogRecordData | logs_sdk/lib/opentelemetry/sdk/logs/log_record.rb:92-107 | both timestamps become integer nanoseconds; every other field, including the total attribute count, is passed on unchanged |
| Logs.LogRecord.TrimAttributes | logs_sdk/lib/opentelemetry/sdk/logs/log_record.rb:117-130 | as written: count truncation, then value truncation, then validation that removes nothing; the hash ends as `TrimmedAsWritten` of its old entries and the reports are `TrimReportsAsWritten` (at most the first invalid entry) |
| Logs.LogRecord.TrimAttributesCorrected | logs_sdk/lib/opentelemetry/sdk/logs/log_record.rb:117-130 | corrected: the same truncation passes, then every invalid entry is dropped in place and reported; the hash ends as `Trimmed` of its old entries and the reports are `TrimReports` |
| Logs.LogRecord.TruncateAttributes | logs_sdk/lib/opentelemetry/sdk/logs/log_record.rb:132-135 | shifting the excess leaves exactly the newest `attribute_limit` entries, and nothing changes when there is no excess |
| Logs.LogRecord.TruncateAttributeValues | logs_sdk/lib/opentelemetry/sdk/logs/log_record.rb:155-162 | without a length limit the hash is untouched; otherwise every value is truncated in place |
| Logs.LogRecord.ValidateAttributes | logs_sdk/lib/opentelemetry/sdk/logs/log_record.rb:137-153 | with validation corrected (see Findings): every invalid entry is dropped in place and reported, and valid entries keep their order |
| Logs.LogRecord.ValidateAttributesAsWritten | logs_sdk/lib/opentelemetry/sdk/logs/log_record.rb:137-153 | as written: reports only the first invalid entry (key checked before value) and removes nothing |
| LogAttributes.DropOldest | logs_sdk/lib/opentelemetry/sdk/logs/log_record.rb:132-135 | the result is a suffix of the table (the newest entries) of length min(size, limit); a table within the limit is unchanged |
| LogAttributes.DropOldestKeepsUniqueKeys | logs_sdk/lib/opentelemetry/sdk/logs/log_record.rb:132-135 | dropping the oldest entries keeps keys unique |
| LogAttributes.MapValues | logs_sdk/lib/opentelemetry/sdk/logs/log_record.rb:159 | same length; each entry keeps its key and gets the image of its value |
| LogAttributes.TruncateValues | logs_sdk/lib/opentelemetry/sdk/logs/log_record.rb:155-162 | keys and their order are kept; a nil limit changes nothing; otherwise each value is the truncation of the old one |
| LogAttributes.TruncateValuesKeepsUniqueKeys | logs_sdk/lib/opentelemetry/sdk/logs/log_record.rb:155-162 | value truncation keeps keys unique |
| LogAttributes.ReportFor | logs_sdk/lib/opentelemetry/sdk/logs/log_record.rb:141-148 | an invalid key is reported as such, and only otherwise the invalid value; the report names the entry's key |
| LogAttributes.FirstInvalid | logs_sdk/lib/opentelemetry/sdk/logs/log_record.rb:140-149 | the index of the first invalid entry, with every earlier one valid; none exactly when all are valid |
| LogAttributes.ValidationReports | logs_sdk/lib/opentelemetry/sdk/logs/log_record.rb:137-153 | as written: at most one report; none exactly when every entry is valid; otherwise exactly the report of the first invalid entry |
| LogAttributes.LimitedKeepsNewest | logs_sdk/lib/opentelemetry/sdk/logs/log_record.rb:117-125 | the two truncation passes keep min(size, count limit) entries whose keys are the newest keys, in order; without a length limit they are the newest entries unchanged |
| LogAttributes.TrimmedKeepsValidNewest | logs_sdk/lib/opentelemetry/sdk/logs/log_record.rb:117-130 | with validation corrected: the trimmed table has at most count-limit entries, exactly the valid entries of the truncated table, in order |
| LogAttributes.TrimmedKeepsUniqueKeys | logs_sdk/lib/opentelemetry/sdk/logs/log_record.rb:117-130 | with validation corrected, trimming keeps keys unique, so the hash is still a Hash |
| LogAttributes.TrimmedAsWrittenKeepsNewest | logs_sdk/lib/opentelemetry/sdk/logs/log_record.rb:117-135 | as written, the trimmed table holds min(size, count limit) entries whose keys are the newest keys in order, invalid entries included |
| LogAttributes.TrimReportsAsWrittenFirstInvalid | logs_sdk/lib/opentelemetry/sdk/logs/log_record.rb:117-153 | as written, trimming makes at most one report: none exactly when every kept entry is valid, otherwise the report of the first invalid kept entry |
| LogAttributes.AsWrittenReportsFirstInvalid | logs_sdk/lib/opentelemetry/sdk/logs/log_record.rb:137-153 | validation as written reports at most one entry: the first invalid one (every earlier entry valid), and none when all are valid |
| LogAttributes.TrimmedAsWrittenKeepsUniqueKeys | logs_sdk/lib/opentelemetry/sdk/logs/log_record.rb:117-135 | as written, trimming keeps keys unique, so the record still holds a Hash |
| LogAttributes.InvalidEntryIsKept | logs_sdk/lib/opentelemetry/sdk/logs/log_record.rb:140-152 | as written, a Symbol-keyed attribute stays in the trimmed table and is reported |
| LogAttributes.InvalidEntryIsDropped | logs_sdk/lib/opentelemetry/sdk/logs/log_record.rb:140-152 | with validation corrected, the same attribute is dropped and reported |
| LogAttributes.DropInvalid | logs_sdk/lib/opentelemetry/sdk/logs/log_record.rb:140-152 | every surviving entry is valid, and none is added |
| LogAttributes.DropReports | logs_sdk/lib/opentelemetry/sdk/logs/log_record.rb:141-148 | one report per dropped entry: reports and survivors together number the entries |
| LogAttributes.DropInvalidKeepsExactlyValid | logs_sdk/lib/opentelemetry/sdk/logs/log_record.rb:140-152 | an entry survives if and only if it was in the table and is valid |
| LogAttributes.DropInvalidIsSubsequence | logs_sdk/lib/opentelemetry/sdk/logs/log_record.rb:140-152 | the survivors keep their relative order |
| LogAttributes.DropInvalidKeepsUniqueKeys | logs_sdk/lib/opentelemetry/sdk/logs/log_record.rb:140-152 | dropping entries keeps keys unique |
| Bytes.SplitFirst | exporter/otlp-metrics/test/opentelemetry/exporter/otlp/metrics/metrics_exporter_test.rb:184-194 | none exactly when the separator is absent; otherwise a prefix without it and the rest, which glue back to the input |
| Bytes.Split | exporter/otlp-metrics/test/opentelemetry/exporter/otlp/metrics/metrics_exporter_test.rb:260-274 | at least one piece; no piece holds the separator; joining the pieces gives the input back |
| Bytes.SplitJoin | exporter/otlp-metrics/test/opentelemetry/exporter/otlp/metrics/metrics_exporter_test.rb:184-194 | splitting undoes joining pieces that hold no separator |
| Bytes.Trim | exporter/otlp-metrics/test/opentelemetry/exporter/otlp/metrics/metrics_exporter_test.rb:196-206 | the result neither starts nor ends with whitespace, and it is empty exactly when the input is all whitespace |
| Bytes.TrimPadded | exporter/otlp-metrics/test/opentelemetry/exporter/otlp/metrics/metrics_exporter_test.rb:196-206 | trimming removes exactly the whitespace padding around text with non-whitespace ends |
| Bytes.TrimUnchanged | exporter/otlp-metrics/test/opentelemetry/exporter/otlp/metrics/metrics_exporter_test.rb:196-206 | text with non-whitespace ends is left as it is |
| Bytes.PercentDecode | exporter/otlp-metrics/test/opentelemetry/exporter/otlp/metrics/metrics_exporter_test.rb:208-228 | decoding never lengthens its input; the result is empty exactly when the input is; text without `%` is unchanged |
| Bytes.DecodeEscape | exporter/otlp-metrics/test/opentelemetry/exporter/otlp/metrics/metrics_exporter_test.rb:208-228 | `%` and two hex digits decode to the byte they spell, and decoding goes on after them |
| Bytes.DecodeEncode | exporter/otlp-metrics/test/opentelemetry/exporter/otlp/metrics/metrics_exporter_test.rb:208-228 | URL decoding undoes URL encoding of any byte string |
| Bytes.PercentEncode | exporter/otlp-metrics/test/opentelemetry/exporter/otlp/metrics/metrics_exporter_test.rb:208-228 | three bytes per byte; the encoded text holds no whitespace, comma or `=`, so it survives header splitting and trimming |
| Bytes.Utf8IsValid | exporter/otlp-metrics/test/opentelemetry/exporter/otlp/metrics/metrics_exporter_test.rb:159-164 | the UTF-8 encoding of any string is well-formed UTF-8 (section 4 of RFC 3629) |
| Bytes.EncodeChar | exporter/otlp-metrics/test/opentelemetry/exporter/otlp/metrics/metrics_exporter_test.rb:159-164 | one to four bytes, forming well-formed UTF-8 |
| Bytes.AsciiIsUtf8 | exporter/otlp-metrics/test/opentelemetry/exporter/otlp/metrics/metrics_exporter_test.rb:159-164 | for ASCII text the byte-per-character form is the UTF-8 encoding |
| Bytes.ValidUtf8Append | exporter/otlp-metrics/test/opentelemetry/exporter/otlp/metrics/metrics_exporter_test.rb:208-228 | well-formed UTF-8 followed by well-formed UTF-8 is well-formed |
| Environment.ConfigOpt | exporter/otlp-metrics/test/opentelemetry/exporter/otlp/metrics/metrics_exporter_test.rb:237-242 | the metrics-specific variable wins over the generic one; none exactly when neither is set |
| Environment.Layered | exporter/otlp-metrics/test/opentelemetry/exporter/otlp/metrics/metrics_exporter_test.rb:109-139 | an explicit argument wins, then the metrics variable, then the generic one, then the default |
| Environment.LowerLayersHidden | exporter/otlp-metrics/test/opentelemetry/exporter/otlp/metrics/metrics_exporter_test.rb:109-139 | once an argument or the metrics variable is set, changing the generic variable changes nothing |
| ConfigErrors.InvalidHeadersMessageNamesHeaders | exporter/otlp-metrics/test/opentelemetry/exporter/otlp/metrics/metrics_exporter_test.rb:166-170 | the malformed-headers ArgumentError message mentions headers |
| Headers.ParseEntry | exporter/otlp-metrics/test/opentelemetry/exporter/otlp/metrics/metrics_exporter_test.rb:244-306 | an entry without `=` is rejected; a successful entry has a non-empty, valid UTF-8 key and value |
| Headers.ParseEntries | exporter/otlp-metrics/test/opentelemetry/exporter/otlp/metrics/metrics_exporter_test.rb:184-194 | failure is always InvalidHeaders; success keeps every header already stored |
| Headers.ParseHeaders | exporter/otlp-metrics/test/opentelemetry/exporter/otlp/metrics/metrics_exporter_test.rb:184-306 | a header string either parses or fails with InvalidHeaders |
| Headers.ParsedHeadersWellFormed | exporter/otlp-metrics/test/opentelemetry/exporter/otlp/metrics/metrics_exporter_test.rb:184-306 | every parsed name and value is non-empty, valid UTF-8 |
| Headers.EntrySplitsOnFirstEquals | exporter/otlp-metrics/test/opentelemetry/exporter/otlp/metrics/metrics_exporter_test.rb:184-194 | the key ends at the first `=`; every later `=` belongs to the value |
| Headers.FormatEntries | exporter/otlp-metrics/test/opentelemetry/exporter/otlp/metrics/metrics_exporter_test.rb:208-228 | one percent-encoded `k=v` entry per pair, in order |
| Headers.EntryRoundTrip | exporter/otlp-metrics/test/opentelemetry/exporter/otlp/metrics/metrics_exporter_test.rb:208-228 | an encoded entry parses back to its pair |
| Headers.EntriesRoundTrip | exporter/otlp-metrics/test/opentelemetry/exporter/otlp/metrics/metrics_exporter_test.rb:208-228 | encoded entries parse back to the map built from the pairs, a later key winning |
| Headers.FormatThenParse | exporter/otlp-metrics/test/opentelemetry/exporter/otlp/metrics/metrics_exporter_test.rb:159-164 | any well-formed map, written as an encoded string, parses back to the same headers: the String and Hash forms agree |
| HeaderExamples.SingleEntryHeaders | exporter/otlp-metrics/test/opentelemetry/exporter/otlp/metrics/metrics_exporter_test.rb:208-228 | a header string with one comma-free entry gives the map of that entry alone |
| HeaderExamples.CleanEntry | exporter/otlp-metrics/test/opentelemetry/exporter/otlp/metrics/metrics_exporter_test.rb:208-228 | an entry whose key and value have no surrounding whitespace parses to their decoded forms |
| Headers.DefaultUserAgentNamesRuntime | exporter/otlp-metrics/test/opentelemetry/exporter/otlp/metrics/metrics_exporter_test.rb:41-46 | the default User-Agent contains the exporter name and version, the Ruby version, the platform and the engine with its version |
| Headers.WithUserAgent | exporter/otlp-metrics/test/opentelemetry/exporter/otlp/metrics/metrics_exporter_test.rb:230-235 | the library's agent is appended after a space to a User-Agent already present, or set otherwise; other headers are unchanged and none is added |
| Headers.ResolveHeaders | exporter/otlp-metrics/test/opentelemetry/exporter/otlp/metrics/metrics_exporter_test.rb:159-171 | a Hash is kept; a String is parsed; any other object fails; without an argument the variables are parsed, else only the User-Agent remains; success always ends with the library's agent |
| Endpoint.Port | exporter/otlp-metrics/test/opentelemetry/exporter/otlp/metrics/metrics_exporter_test.rb:24-39 | the written port, else 80 for http and 443 for https |
| Endpoint.DecimalDigits | exporter/otlp-metrics/test/opentelemetry/exporter/otlp/metrics/metrics_exporter_test.rb:84-107 | reading the decimal digits of a number gives the number back |
| Endpoint.ParseUrl | exporter/otlp-metrics/test/opentelemetry/exporter/otlp/metrics/metrics_exporter_test.rb:48-57 | a parsed URL is well-formed, and the text begins with its scheme's `http://` or `https://` prefix |
| Endpoint.ParseFormat | exporter/otlp-metrics/test/opentelemetry/exporter/otlp/metrics/metrics_exporter_test.rb:48-57 | parsing undoes writing out: every well-formed URL reads back as itself |
| Endpoint.AuthorityRoundTrip | exporter/otlp-metrics/test/opentelemetry/exporter/otlp/metrics/metrics_exporter_test.rb:24-57 | host and port written out read back as the URL |
| Endpoint.RestRoundTrip | exporter/otlp-metrics/test/opentelemetry/exporter/otlp/metrics/metrics_exporter_test.rb:24-57 | host, port and path written out read back as the URL |
| Endpoint.Digits | exporter/otlp-metrics/test/opentelemetry/exporter/otlp/metrics/metrics_exporter_test.rb:84-107 | a number's decimal digits: at least one, and two or more from 10 on |
| Endpoint.MetricsPath | exporter/otlp-metrics/test/opentelemetry/exporter/otlp/metrics/metrics_exporter_test.rb:141-157 | the result begins with the endpoint's own path and ends with `/v1/metrics`, adding at most one slash between them |
| Endpoint.MetricsPathIgnoresTrailingSlash | exporter/otlp-metrics/test/opentelemetry/exporter/otlp/metrics/metrics_exporter_test.rb:141-148 | a trailing slash on the endpoint path makes no difference |
| Endpoint.ParseEndpoint | exporter/otlp-metrics/test/opentelemetry/exporter/otlp/metrics/metrics_exporter_test.rb:48-52 | succeeds exactly when `ParseUrl` accepts the text (lower-case http or https, a host, an optional port and a path), with that URL; otherwise the ArgumentError names the text |
| Endpoint.ResolveEndpoint | exporter/otlp-metrics/test/opentelemetry/exporter/otlp/metrics/metrics_exporter_test.rb:24-157 | an explicit endpoint, else the metrics variable, is parsed as is; otherwise (generic variable or default) the path ends with `/v1/metrics`; any error is InvalidEndpoint |
| Endpoint.WithMetricsPath | exporter/otlp-metrics/test/opentelemetry/exporter/otlp/metrics/metrics_exporter_test.rb:84-107 | a parsed endpoint keeps scheme, host and port, and its path ends with `/v1/metrics` |
| Endpoint.GenericEndpointTrailingSlash | exporter/otlp-metrics/test/opentelemetry/exporter/otlp/metrics/metrics_exporter_test.rb:141-157 | the generic variable with or without a trailing slash resolves to the same endpoint |
| EndpointExamples.DefaultEndpointResolves | exporter/otlp-metrics/test/opentelemetry/exporter/otlp/metrics/metrics_exporter_test.rb:24-39 | with nothing set: http://localhost:4318/v1/metrics, without TLS |
| EndpointExamples.NotAUrl | exporter/otlp-metrics/test/opentelemetry/exporter/otlp/metrics/metrics_exporter_test.rb:48-52 | `not a url` is refused with an error naming it |
| EndpointExamples.CustomPathKept | exporter/otlp-metrics/test/opentelemetry/exporter/otlp/metrics/metrics_exporter_test.rb:54-57 | an explicit endpoint keeps `/custom/path` |
| EndpointExamples.ExplicitEndpointVerbatim | exporter/otlp-metrics/test/opentelemetry/exporter/otlp/metrics/metrics_exporter_test.rb:118-138 | an explicit endpoint without a path gets the empty path and its own port, in any environment |
| EndpointExamples.GenericEndpointGetsMetricsPath | exporter/otlp-metrics/test/opentelemetry/exporter/otlp/metrics/metrics_exporter_test.rb:141-157 | `https://localhost:1234`, with or without a trailing slash, gives `/v1/metrics` on port 1234 with TLS |
| HeaderExamples.ParseTwo | exporter/otlp-metrics/test/opentelemetry/exporter/otlp/metrics/metrics_exporter_test.rb:84-107 | two well-formed entries separated by a comma give the map of both pairs |
| HeaderExamples.ParseThree | exporter/otlp-metrics/test/opentelemetry/exporter/otlp/metrics/metrics_exporter_test.rb:184-206 | three well-formed entries give the map of their three pairs |
| HeaderExamples.ThreeEntries | exporter/otlp-metrics/test/opentelemetry/exporter/otlp/metrics/metrics_exporter_test.rb:184-206 | three entries parse to the map of their pairs, a later key winning |
| HeaderExamples.EqualsSignsInValues | exporter/otlp-metrics/test/opentelemetry/exporter/otlp/metrics/metrics_exporter_test.rb:184-194 | `a=b,c=d==,e=f` gives a→b, c→d==, e→f |
| HeaderExamples.PaddedEntry | exporter/otlp-metrics/test/opentelemetry/exporter/otlp/metrics/metrics_exporter_test.rb:196-206 | whitespace around a key or a value is dropped before decoding |
| HeaderExamples.SpacesTrimmed | exporter/otlp-metrics/test/opentelemetry/exporter/otlp/metrics/metrics_exporter_test.rb:196-206 | `a =  b  ,c=d , e=f` gives a→b, c→d, e→f |
| HeaderExamples.ParseOne | exporter/otlp-metrics/test/opentelemetry/exporter/otlp/metrics/metrics_exporter_test.rb:208-228 | one well-formed entry gives the map of its decoded key and value |
| HeaderExamples.TokenUber | exporter/otlp-metrics/test/opentelemetry/exporter/otlp/metrics/metrics_exporter_test.rb:208-212 | `token=%C3%BCber` gives token→über, encoded in UTF-8 |
| HeaderExamples.UmlautEntry | exporter/otlp-metrics/test/opentelemetry/exporter/otlp/metrics/metrics_exporter_test.rb:208-212 | a value starting with the escaped `ü` decodes to the two UTF-8 bytes of `ü`, followed by the rest of the value |
| HeaderExamples.UberToken | exporter/otlp-metrics/test/opentelemetry/exporter/otlp/metrics/metrics_exporter_test.rb:213-217 | `%C3%BCber=token` gives über→token: keys are decoded too |
| HeaderExamples.HashAndStringAgree | exporter/otlp-metrics/test/opentelemetry/exporter/otlp/metrics/metrics_exporter_test.rb:159-164 | the Hash `{token => über}` and the String `token=%C3%BCber` resolve to the same headers with the User-Agent |
| HeaderExamples.MetricsHeadersPreferred | exporter/otlp-metrics/test/opentelemetry/exporter/otlp/metrics/metrics_exporter_test.rb:237-242 | with both HEADERS variables set, only the metrics-specific one is read |
| HeaderExamples.UserAgentFromEnvironmentIsExtended | exporter/otlp-metrics/test/opentelemetry/exporter/otlp/metrics/metrics_exporter_test.rb:230-235 | a configured User-Agent `über/3.2.1` is kept, with the library's agent after a space |
| HeaderExamples.AgentHeaderParses | exporter/otlp-metrics/test/opentelemetry/exporter/otlp/metrics/metrics_exporter_test.rb:230-235 | `User-Agent=%C3%BCber/3.2.1` parses to the one User-Agent header `über/3.2.1` |
| HeaderExamples.AgentAppended | exporter/otlp-metrics/test/opentelemetry/exporter/otlp/metrics/metrics_exporter_test.rb:230-235 | an existing User-Agent gets a space and the library's agent appended, and nothing else is added |
| HeaderExamples.NotAHeader | exporter/otlp-metrics/test/opentelemetry/exporter/otlp/metrics/metrics_exporter_test.rb:292-306 | `this is not a header` is rejected |
| HeaderExamples.LoneComma | exporter/otlp-metrics/test/opentelemetry/exporter/otlp/metrics/metrics_exporter_test.rb:260-274 | `,` is rejected |
| HeaderExamples.MissingValue | exporter/otlp-metrics/test/opentelemetry/exporter/otlp/metrics/metrics_exporter_test.rb:244-258 | `a = ` is rejected: the value is empty after trimming |
| HeaderExamples.BadEscape | exporter/otlp-metrics/test/opentelemetry/exporter/otlp/metrics/metrics_exporter_test.rb:276-290 | `c=hi%F3` is rejected: the decoded value is not valid UTF-8 |
| HeaderExamples.BadValueEntry | exporter/otlp-metrics/test/opentelemetry/exporter/otlp/metrics/metrics_exporter_test.rb:276-290 | any entry whose decoded value is not UTF-8 makes the whole setting invalid |
| ExporterConfig.ReadCompression | exporter/otlp-metrics/test/opentelemetry/exporter/otlp/metrics/metrics_exporter_test.rb:59-82 | accepted exactly for `gzip` and `none`, which are kept as written; any other name fails with an error naming it |
| ExporterConfig.CompressionRoundTrip | exporter/otlp-metrics/test/opentelemetry/exporter/otlp/metrics/metrics_exporter_test.rb:66-69 | reading back a setting's name gives the setting |
| ExporterConfig.ResolveCompression | exporter/otlp-metrics/test/opentelemetry/exporter/otlp/metrics/metrics_exporter_test.rb:59-82 | an explicit nil stays nil, and only it does; an explicit name, else a variable, is read; the default is gzip |
| ExporterConfig.EnvVerifyMode | exporter/otlp-metrics/test/opentelemetry/exporter/otlp/metrics/metrics_exporter_test.rb:310-335 | VERIFY_NONE exactly when its switch is set and the VERIFY_PEER switch is not |
| ExporterConfig.ResolveVerifyMode | exporter/otlp-metrics/test/opentelemetry/exporter/otlp/metrics/metrics_exporter_test.rb:109-139 | the `ssl_verify_mode:` argument overrides both switches |
| ExporterConfig.DigitPrefix | exporter/otlp-metrics/test/opentelemetry/exporter/otlp/metrics/metrics_exporter_test.rb:84-107 | the longest run of leading digits |
| ExporterConfig.WholeSecondsRoundTrip | exporter/otlp-metrics/test/opentelemetry/exporter/otlp/metrics/metrics_exporter_test.rb:84-107 | a whole number of seconds in decimal reads back as 1000 times that many milliseconds |
| ExporterConfig.FractionMillis | exporter/otlp-metrics/test/opentelemetry/exporter/otlp/metrics/metrics_exporter_test.rb:84-107 | up to three decimals read as fewer than 1000 milliseconds; no decimals read as 0 |
| ExporterConfig.ResolveTimeout | exporter/otlp-metrics/test/opentelemetry/exporter/otlp/metrics/metrics_exporter_test.rb:24-139 | the argument, else the TIMEOUT variables read as seconds, else 10 seconds |
| ExporterConfig.ResolveFile | exporter/otlp-metrics/test/opentelemetry/exporter/otlp/metrics/metrics_exporter_test.rb:84-139 | a TLS file argument, an explicit nil included, wins; otherwise the variables are read |
| ExporterConfig.Configure | exporter/otlp-metrics/test/opentelemetry/exporter/otlp/metrics/metrics_exporter_test.rb:23-182 | construction succeeds exactly when endpoint, compression and headers all resolve; a bad endpoint is reported first, then a bad compression; a success always carries the library's User-Agent and uses TLS exactly for https |
| ExporterConfig.Assemble | exporter/otlp-metrics/test/opentelemetry/exporter/otlp/metrics/metrics_exporter_test.rb:24-139 | the connection uses TLS exactly for an https endpoint, and keeps the endpoint's host and path |
| ExporterConfig.ExplicitArgumentsHideEnvironment | exporter/otlp-metrics/test/opentelemetry/exporter/otlp/metrics/metrics_exporter_test.rb:109-139 | with every argument given, the configuration is the same in every environment, including one with malformed values |
| ConfigExamples.Defaults | exporter/otlp-metrics/test/opentelemetry/exporter/otlp/metrics/metrics_exporter_test.rb:24-39 | with nothing set: localhost:4318, no TLS, `/v1/metrics`, only the User-Agent, gzip, 10 s, no TLS files, VERIFY_PEER |
| ConfigExamples.CompressionArguments | exporter/otlp-metrics/test/opentelemetry/exporter/otlp/metrics/metrics_exporter_test.rb:59-69 | `gzip` and `none` are kept, an explicit nil stays nil, `flate` is refused |
| ConfigExamples.FlateRefused | exporter/otlp-metrics/test/opentelemetry/exporter/otlp/metrics/metrics_exporter_test.rb:60-62 | construction with `flate` fails with the unsupported-compression error |
| ConfigExamples.CompressionFromEnvironment | exporter/otlp-metrics/test/opentelemetry/exporter/otlp/metrics/metrics_exporter_test.rb:71-81 | either COMPRESSION variable set to `gzip` or `none` gives that setting |
| ConfigExamples.HeadersABParses | exporter/otlp-metrics/test/opentelemetry/exporter/otlp/metrics/metrics_exporter_test.rb:84-107 | `a=b,c=d` parses to a→b, c→d |
| ConfigExamples.ElevenSeconds | exporter/otlp-metrics/test/opentelemetry/exporter/otlp/metrics/metrics_exporter_test.rb:84-107 | a TIMEOUT of `11` reads as 11000 milliseconds |
| ConfigExamples.FromEnvironment | exporter/otlp-metrics/test/opentelemetry/exporter/otlp/metrics/metrics_exporter_test.rb:84-107 | every setting from the generic variables: https on port 1234, `/v1/metrics`, headers a→b and c→d with the agent, gzip, 11 s, the CA, certificate and key files, VERIFY_NONE |
| ConfigExamples.ExplicitOverEnvironment | exporter/otlp-metrics/test/opentelemetry/exporter/otlp/metrics/metrics_exporter_test.rb:109-139 | explicit arguments win over every variable, even malformed ones: port 4321, empty path, x→y with the agent, gzip, 12 s, VERIFY_NONE |
| ConfigExamples.VerifyModeSwitches | exporter/otlp-metrics/test/opentelemetry/exporter/otlp/metrics/metrics_exporter_test.rb:310-335 | the NONE switch alone gives NONE; the PEER switch gives PEER with or without the other |
| Batching.Filter | exporter/otlp-metrics/test/opentelemetry/exporter/otlp/metrics/metrics_exporter_test.rb:577-593 | only elements of the input with the given key, never more than the input |
| Batching.GroupKeysAreInputKeys | exporter/otlp-metrics/test/opentelemetry/exporter/otlp/metrics/metrics_exporter_test.rb:577-593 | the groups' keys are exactly the keys occurring in the input |
| Batching.GroupKeysDistinct | exporter/otlp-metrics/test/opentelemetry/exporter/otlp/metrics/metrics_exporter_test.rb:577-593 | no key has two groups |
| Batching.GroupIsFilter | exporter/otlp-metrics/test/opentelemetry/exporter/otlp/metrics/metrics_exporter_test.rb:577-593 | each group holds exactly the input elements with its key, in input order |
| Batching.GroupByPermutes | exporter/otlp-metrics/test/opentelemetry/exporter/otlp/metrics/metrics_exporter_test.rb:577-593 | the groups together are a permutation of the input: nothing lost, nothing duplicated |
| Batching.GroupsNonEmpty | exporter/otlp-metrics/test/opentelemetry/exporter/otlp/metrics/metrics_exporter_test.rb:577-593 | no group is empty |
| Batching.OneKeyOneGroup | exporter/otlp-metrics/test/opentelemetry/exporter/otlp/metrics/metrics_exporter_test.rb:595-765 | elements sharing one key form a single group holding all of them in order |
| Batching.Translate | exporter/otlp-metrics/test/opentelemetry/exporter/otlp/metrics/metrics_exporter_test.rb:577-593 | the request has one entry per group of the batch by resource, in the same order, each holding the scope groups of that group's snapshots |
| Batching.ScopeGroups | exporter/otlp-metrics/test/opentelemetry/exporter/otlp/metrics/metrics_exporter_test.rb:595-765 | one entry per group of the snapshots by scope, in the same order, each holding that group's metrics |
| Batching.Metrics | exporter/otlp-metrics/test/opentelemetry/exporter/otlp/metrics/metrics_exporter_test.rb:595-765 | the metrics of the snapshots, one for one and in order |
| Batching.TranslateResources | exporter/otlp-metrics/test/opentelemetry/exporter/otlp/metrics/metrics_exporter_test.rb:577-593 | the request has one resource group per distinct resource of the batch and no other; each holds the scope groups of that resource's snapshots |
| Batching.TranslateGroups | exporter/otlp-metrics/test/opentelemetry/exporter/otlp/metrics/metrics_exporter_test.rb:595-765 | within a resource group, one scope group per scope, holding that resource's and scope's metrics in batch order |
| Batching.TwoResourcesTwoGroups | exporter/otlp-metrics/test/opentelemetry/exporter/otlp/metrics/metrics_exporter_test.rb:577-593 | two snapshots from different resources give two resource groups, in batch order |
| Batching.SharedResourceOneGroup | exporter/otlp-metrics/test/opentelemetry/exporter/otlp/metrics/metrics_exporter_test.rb:595-765 | snapshots sharing one resource give one resource group |
| Batching.OneScopeKeepsOrder | exporter/otlp-metrics/test/opentelemetry/exporter/otlp/metrics/metrics_exporter_test.rb:595-765 | snapshots from one resource and one scope give one resource group with one scope group, whose metrics are the batch's in recorded order |
| MetricsExport.Classify | exporter/otlp-metrics/test/opentelemetry/exporter/otlp/metrics/metrics_exporter_test.rb:433-549 | delivered exactly for 2xx; retried exactly for 408, 429, 5xx and transient errors; anything else ends the call |
| MetricsExport.SuccessNeedsDelivery | exporter/otlp-metrics/test/opentelemetry/exporter/otlp/metrics/metrics_exporter_test.rb:350-438 | SUCCESS only if some attempt got a 2xx answer within the budget |
| MetricsExport.MoreBudgetNeverHurts | exporter/otlp-metrics/test/opentelemetry/exporter/otlp/metrics/metrics_exporter_test.rb:357-416 | a larger budget never turns SUCCESS into FAILURE |
| MetricsExport.NoBudgetFails | exporter/otlp-metrics/test/opentelemetry/exporter/otlp/metrics/metrics_exporter_test.rb:357-362 | a timeout of 0 is FAILURE, whatever the collector would answer |
| MetricsExport.FirstAnswerDecides | exporter/otlp-metrics/test/opentelemetry/exporter/otlp/metrics/metrics_exporter_test.rb:433-541 | a first answer within the budget gives SUCCESS when delivered and FAILURE when not retryable |
| MetricsExport.AnsweredStatuses | exporter/otlp-metrics/test/opentelemetry/exporter/otlp/metrics/metrics_exporter_test.rb:433-541 | a 200 is SUCCESS; a 400 or a 404 is FAILURE, whatever the retry policy |
| MetricsExport.UnexpectedErrorFails | exporter/otlp-metrics/test/opentelemetry/exporter/otlp/metrics/metrics_exporter_test.rb:364-380 | an unexpected error while sending is FAILURE without a retry |
| MetricsExport.RetryAfterTimeout | exporter/otlp-metrics/test/opentelemetry/exporter/otlp/metrics/metrics_exporter_test.rb:350-355 | a timeout, a wait the budget allows, then a 200: SUCCESS |
| MetricsExport.BudgetSpentWhileWaiting | exporter/otlp-metrics/test/opentelemetry/exporter/otlp/metrics/metrics_exporter_test.rb:400-416 | a timeout followed by a wait that uses up the budget is FAILURE, and the second attempt decides nothing |
| MetricsExport.NoRetryFails | exporter/otlp-metrics/test/opentelemetry/exporter/otlp/metrics/metrics_exporter_test.rb:424-431 | a TLS or compression failure that the policy will not retry is FAILURE |
| MetricsExport.Send | exporter/otlp-metrics/test/opentelemetry/exporter/otlp/metrics/metrics_exporter_test.rb:350-438 | the send loop's result is that of the recursive send semantics; it makes no more POSTs than the budget has milliseconds, and at least one on SUCCESS |
| MetricsExport.ExportOutcome | exporter/otlp-metrics/test/opentelemetry/exporter/otlp/metrics/metrics_exporter_test.rb:381-422 | after shutdown, or when the request cannot be serialised, the result is FAILURE; for a live exporter and a serialisable request it is the send's result |
| MetricsExport.Budget | exporter/otlp-metrics/test/opentelemetry/exporter/otlp/metrics/metrics_exporter_test.rb:357-416 | the call's own timeout, else the configured one |
| MetricsExport.MetricsExporter.constructor | exporter/otlp-metrics/test/opentelemetry/exporter/otlp/metrics/metrics_exporter_test.rb:337-338 | a new exporter keeps its configuration and is not shut down |
| MetricsExport.MetricsExporter.Shutdown | exporter/otlp-metrics/test/opentelemetry/exporter/otlp/metrics/metrics_exporter_test.rb:418-422 | after shutdown the exporter is shut down for good |
| MetricsExport.MetricsExporter.Export | exporter/otlp-metrics/test/opentelemetry/exporter/otlp/metrics/metrics_exporter_test.rb:350-593 | the result is the export outcome; no POST after shutdown or on a serialisation failure; no more POSTs than the budget; every POST carries the batch grouped per resource and scope |
| MetricsExport.ShutdownTwiceThenExport | exporter/otlp-metrics/test/opentelemetry/exporter/otlp/metrics/metrics_exporter_test.rb:418-422 | an exporter shut down (twice) answers an export with FAILURE and makes no POST |

## Left out

- HTTP, TLS, gzip and protobuf are left out. A POST is an abstract transport function returning a response and a duration; the request is the grouped structure, not its wire encoding.
- Real time, sleeping and jitter are left out. The clock is abstract and the backoff policy (its retry count and exponential delays) is a parameter returning the next delay or none.
- Concurrency is left out: the exporter's mutex and exports running alongside `shutdown`.
- Log and error-handler output is left out: the log lines of the export tests, the rpc.Status decoding of error bodies (metrics_exporter_test.rb lines 483-522), and the text of the log record's error messages. The log record keeps its reports as data.
- Per-attribute encoding errors and int/float values (metrics_exporter_test.rb lines 440-481) are left out, as is the content of "translates all the things" beyond its grouping. Metric bodies are opaque.
- The exporter's `export(nil)` on a live exporter is not modelled. `Export` takes a sequence; nil is only exercised after shutdown, where the batch is never read.
- The integration test against a running collector (metrics_exporter_test.rb lines 341-348) and the metric-reader pull (metrics_exporter_test.rb lines 551-561) are left out: they need a collector or an SDK meter provider.
- Headers Hash mutation after construction (metrics_exporter_test.rb lines 173-181) is not modelled as a separate step: a Hash argument is a value here, so later mutation cannot reach the exporter's copy.
- URL parsing covers `http`/`https`, host, optional port and path. Query strings, user info, IPv6 literals and upper-case schemes are not modelled. `+` is not decoded as a space in headers.
- ExporterConfig.SecondsToMillis: reads leading whitespace, whole seconds and up to three decimals. It does not model signs, exponents or the rounding of further decimals that String#to_f and float arithmetic give.
- ExporterConfig.EnvVerifyMode: the switches are read by presence. The Ruby code's handling of their value text is not modelled.
- ExporterConfig.Configure: the order of the checks (endpoint, then compression, then headers) is this model's choice; the tests never combine two errors.
- Client certificate and key files are kept as paths; reading and parsing them is left out.
- Logs.LogRecord.ToLogRecordData: the record data shares the attribute hash with the record in Ruby; the model copies its entries, so later aliasing is not captured.
- The key and value validity checks and attribute value truncation of the API's internal helpers are not part of this model. They are parameters (`AttributeRules`).

## Findings

| source | as written | input that shows it | evidently intended | confidence | as-written member | corrected member |
|---|---|---|---|---|---|---|
| logs_sdk/lib/opentelemetry/sdk/logs/log_record.rb:137-153 | `return false` inside the `keep_if` block leaves `validate_attributes` itself: the first invalid entry is reported and nothing is removed, so invalid attributes stay on the record and later ones are never checked | attributes `{:level => 'warn'}` (a Symbol key) with default limits: the trimmed table still holds the entry | each invalid entry is dropped ("Dropping attribute." in the message) and reported, and validation goes on with the next entry | not executed | LogAttributes.InvalidEntryIsKept | LogAttributes.DropInvalid |
