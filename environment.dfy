/**
 * The process environment as the exporter reads it, and the layering of a
 * setting: explicit parameter, then the metrics-specific variable, then the
 * generic OTLP variable, then the built-in default.
 */
module Environment {
  import opened Wrappers
  import opened Bytes

  /** Environment variables by name; a name absent from the map is unset. */
  type Env = map<string, Bytes>

  /** `OTEL_EXPORTER_OTLP_<field>`, shared by every OTLP exporter. */
  function GenericVar(field: string): string {
    "OTEL_EXPORTER_OTLP_" + field
  }

  /** `OTEL_EXPORTER_OTLP_METRICS_<field>`, read by the metrics exporter only. */
  function MetricsVar(field: string): string {
    "OTEL_EXPORTER_OTLP_METRICS_" + field
  }

  /** `OTEL_RUBY_EXPORTER_OTLP_<field>`, switches read by the Ruby OTLP exporters only. */
  function RubyVar(field: string): string {
    "OTEL_RUBY_EXPORTER_OTLP_" + field
  }

  /** The value of the first variable that is set, the metrics-specific one first. */
  function ConfigOpt(env: Env, field: string): (r: Option<Bytes>)
    ensures MetricsVar(field) in env ==> r == Some(env[MetricsVar(field)])
    ensures MetricsVar(field) !in env && GenericVar(field) in env ==> r == Some(env[GenericVar(field)])
    ensures r.None? <==> MetricsVar(field) !in env && GenericVar(field) !in env
  {
    if MetricsVar(field) in env then Some(env[MetricsVar(field)])
    else if GenericVar(field) in env then Some(env[GenericVar(field)])
    else None
  }

  /** A setting resolved over the four layers; `fromText` reads an environment value. */
  function Layered<T>(explicit: Option<T>, env: Env, field: string, fromText: Bytes -> T, default: T): (r: T)
    ensures explicit.Some? ==> r == explicit.value
    ensures explicit.None? && MetricsVar(field) in env ==> r == fromText(env[MetricsVar(field)])
    ensures explicit.None? && MetricsVar(field) !in env && GenericVar(field) in env ==>
      r == fromText(env[GenericVar(field)])
    ensures explicit.None? && MetricsVar(field) !in env && GenericVar(field) !in env ==> r == default
  {
    match explicit
    case Some(v) => v
    case None =>
      match ConfigOpt(env, field)
      case Some(text) => fromText(text)
      case None => default
  }

  /** A higher layer hides every lower one: the generic variable is read only when nothing above it is set. */
  lemma LowerLayersHidden<T>(explicit: Option<T>, env: Env, field: string, fromText: Bytes -> T, default: T, generic: Bytes)
    requires explicit.Some? || MetricsVar(field) in env
    ensures Layered(explicit, env[GenericVar(field) := generic], field, fromText, default)
         == Layered(explicit, env, field, fromText, default)
  {
    assert |MetricsVar(field)| != |GenericVar(field)|;
  }
}
