/**
 * packages/logging/src/format.ts: which output format the logger uses, whether
 * the logfmt transport flattens nested objects, and the pino transport each
 * format is given. The environment variables `LOG_FORMAT` and
 * `LOG_FLATTEN_NESTED` are parameters (`None` when unset); the module paths
 * `require.resolve` produces are the constructors of `Target`.
 */
module Format {
  import opened Wrappers
  import opened Text
  import opened LogObjects
  import LogfmtFlatten
  import LogfmtTransport

  /** `LogFormat`. */
  datatype LogFormat = Json | Logfmt | Pretty

  /** The name of each format, as `LOG_FORMAT` spells it. */
  function Name(f: LogFormat): string {
    match f
    case Json => "json"
    case Logfmt => "logfmt"
    case Pretty => "pretty"
  }

  /** The `override` argument: absent, the legacy boolean `json` option, or a format. */
  datatype FormatOverride = NoOverride | Legacy(json: bool) | Explicit(format: LogFormat)

  /**
   * `resolveLogFormat`: the legacy boolean picks `json` or `pretty`, an
   * explicit format wins, and otherwise `LOG_FORMAT`, lower-cased, selects a
   * format by name, with `pretty` for anything else.
   */
  function ResolveLogFormat(override: FormatOverride, logFormat: Option<string>): (f: LogFormat)
    ensures override.Legacy? ==> (f == Json <==> override.json)
    ensures override.Legacy? ==> f != Logfmt
    ensures override.Explicit? ==> f == override.format
  {
    match override
    case Legacy(json) => if json then Json else Pretty
    case Explicit(format) => format
    case NoOverride =>
      if logFormat.None? then Pretty
      else
        var envFormat := ToLower(logFormat.value);
        if envFormat == "json" then Json
        else if envFormat == "logfmt" then Logfmt
        else if envFormat == "pretty" then Pretty
        else Pretty
  }

  /** `resolveFlattenNestedObjects`: off only when `LOG_FLATTEN_NESTED` lower-cases to `false` or `0`. */
  function ResolveFlattenNestedObjects(env: Option<string>): (flatten: bool)
    ensures env.None? ==> flatten
  {
    if env.None? then true
    else
      var value := ToLower(env.value);
      !(value == "false" || value == "0")
  }

  /** The module a transport runs: this package's logfmt transport or `pino-pretty`. */
  datatype Target = LogfmtTarget | PinoPretty

  /** The options handed to the transport's target. */
  datatype TransportOptions = LogfmtOptions(flattenNestedObjects: bool) | PrettyOptions(singleLine: bool)

  /** `TransportSingleOptions`: a target and its options. */
  datatype TransportConfig = TransportConfig(target: Target, options: TransportOptions)

  /**
   * `resolveTransport`: no transport for `json` (pino writes JSON itself), the
   * logfmt transport with the resolved flatten flag, or `pino-pretty` on a
   * single line.
   */
  function ResolveTransport(format: LogFormat, flattenEnv: Option<string>): (t: Option<TransportConfig>)
    ensures t.None? <==> format == Json
    ensures t.Some? ==> (t.value.target == LogfmtTarget <==> format == Logfmt)
    ensures t.Some? ==> (t.value.target == LogfmtTarget <==> t.value.options.LogfmtOptions?)
    ensures format == Pretty ==> t == Some(TransportConfig(PinoPretty, PrettyOptions(true)))
  {
    match format
    case Json => None
    case Logfmt => Some(TransportConfig(LogfmtTarget, LogfmtOptions(ResolveFlattenNestedObjects(flattenEnv))))
    case Pretty => Some(TransportConfig(PinoPretty, PrettyOptions(true)))
  }

  /** The options object the logfmt transport receives: the flag is passed, the separator is not. */
  function TransportSettings(options: TransportOptions): LogfmtTransport.Options
    requires options.LogfmtOptions?
  {
    LogfmtTransport.Options(Some(options.flattenNestedObjects), None)
  }

  // ---------------------------------------------------------------------------
  // Properties.

  /** Each format's name selects that format when nothing overrides it. */
  lemma NameRoundTrip(f: LogFormat)
    ensures ResolveLogFormat(NoOverride, Some(Name(f))) == f
  {
    LowerKeeps(Name(f));
  }

  /** `LOG_FORMAT` is matched ignoring case: any spelling that lower-cases to a name selects that format. */
  lemma AnyCaseSelects(s: string, f: LogFormat)
    requires ToLower(s) == Name(f)
    ensures ResolveLogFormat(NoOverride, Some(s)) == f
  {
  }

  /** Lower-casing the variable first changes nothing. */
  lemma FormatIgnoresCase(s: string)
    ensures ResolveLogFormat(NoOverride, Some(s)) == ResolveLogFormat(NoOverride, Some(ToLower(s)))
  {
    LowerIdempotent(s);
  }

  /**
   * Without an override, `json` and `logfmt` are chosen exactly when the
   * variable names them, and `pretty` otherwise: when it is unset, names
   * `pretty`, or is not a format name at all.
   */
  lemma FormatFromEnvironment(logFormat: Option<string>, f: LogFormat)
    ensures ResolveLogFormat(NoOverride, logFormat) == f
            <==> if f == Pretty then logFormat.None? || (ToLower(logFormat.value) != "json" && ToLower(logFormat.value) != "logfmt")
                 else logFormat.Some? && ToLower(logFormat.value) == Name(f)
  {
  }

  /** An explicit format or the legacy boolean is used whatever `LOG_FORMAT` says. */
  lemma OverrideIgnoresEnvironment(override: FormatOverride, a: Option<string>, b: Option<string>)
    requires !override.NoOverride?
    ensures ResolveLogFormat(override, a) == ResolveLogFormat(override, b)
  {
  }

  /**
   * Flattening is switched off exactly by `0` or by `false` in any mix of
   * cases; `0` has no other spelling, and everything else, including an
   * empty value, leaves it on.
   */
  lemma FlattenOffExactly(env: Option<string>)
    ensures !ResolveFlattenNestedObjects(env)
            <==> env == Some("0") || (env.Some? && ToLower(env.value) == "false")
  {
    if env.Some? && ToLower(env.value) == "0" {
      var c := env.value[0];
      assert LowerChar(c) == '0';
      assert env.value == [c];
    }
  }

  /**
   * The logfmt transport that `resolveTransport` configures flattens a record,
   * with the default separator `_`, exactly when `LOG_FLATTEN_NESTED` does not
   * switch flattening off; an unset variable flattens.
   */
  lemma LogfmtTransportFlattens(flattenEnv: Option<string>, obj: Record)
    ensures var t := ResolveTransport(Logfmt, flattenEnv);
            t.Some? && t.value.target == LogfmtTarget &&
            LogfmtTransport.Prepared(TransportSettings(t.value.options), obj)
            == if ResolveFlattenNestedObjects(flattenEnv) then LogfmtFlatten.Flattened(obj, "_") else obj
  {
  }
}
