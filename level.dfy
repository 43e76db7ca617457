/**
 * `resolveLogLevel` of packages/logging/src/level.ts. The two environment
 * variables it reads, `LOG_LEVEL` and `NODE_ENV`, are parameters; an unset
 * variable is `None`.
 */
module Level {
  import opened Wrappers

  /** `PINO_LEVELS`: the values of `LOG_LEVEL` that are honoured. */
  const PinoLevels: set<string> := {"trace", "debug", "info", "warn", "error", "verbose"}

  /** The levels a logger can end up with when nothing overrides the environment. */
  const Resolved: set<string> := {"trace", "debug", "info", "warn", "error"}

  /** JavaScript truthiness of an optional string: set and non-empty. */
  predicate Truthy(o: Option<string>) {
    o.Some? && o.value != ""
  }

  /**
   * The level the logger uses: a non-empty override as given; else a known
   * `LOG_LEVEL` (with `verbose` read as `trace`); else `debug` in development
   * when `LOG_LEVEL` is unset or empty; else `info`.
   */
  function ResolveLogLevel(override: Option<string>, logLevel: Option<string>, nodeEnv: Option<string>): (level: string)
    ensures Truthy(override) ==> level == override.value
    ensures !Truthy(override) ==> level in Resolved
  {
    if Truthy(override) then override.value
    else if Truthy(logLevel) && logLevel.value in PinoLevels then
      (if logLevel.value == "verbose" then "trace" else logLevel.value)
    else if !Truthy(logLevel) && nodeEnv == Some("development") then "debug"
    else "info"
  }

  /** An override that is unset or empty leaves the decision to the environment, whatever it says. */
  lemma EmptyOverrideFallsThrough(logLevel: Option<string>, nodeEnv: Option<string>)
    ensures ResolveLogLevel(Some(""), logLevel, nodeEnv) == ResolveLogLevel(None, logLevel, nodeEnv)
  {
  }

  /** Without an override, each honoured `LOG_LEVEL` other than `verbose` is used as it is. */
  lemma KnownLevelKept(logLevel: string, nodeEnv: Option<string>)
    requires logLevel in Resolved
    ensures ResolveLogLevel(None, Some(logLevel), nodeEnv) == logLevel
  {
  }

  /** Without an override the level is `trace` exactly when `LOG_LEVEL` is `trace` or `verbose`. */
  lemma TraceExactly(logLevel: Option<string>, nodeEnv: Option<string>)
    ensures ResolveLogLevel(None, logLevel, nodeEnv) == "trace"
            <==> logLevel == Some("trace") || logLevel == Some("verbose")
  {
  }

  /**
   * Without an override the level is `debug` exactly when `LOG_LEVEL` says so,
   * or when it is unset or empty in development.
   */
  lemma DebugExactly(logLevel: Option<string>, nodeEnv: Option<string>)
    ensures ResolveLogLevel(None, logLevel, nodeEnv) == "debug"
            <==> logLevel == Some("debug") || (!Truthy(logLevel) && nodeEnv == Some("development"))
  {
  }

  /**
   * Without an override the level is `info` exactly when `LOG_LEVEL` is `info`,
   * or is not an honoured level and development does not apply; an unknown
   * `LOG_LEVEL` gives `info` even in development.
   */
  lemma InfoExactly(logLevel: Option<string>, nodeEnv: Option<string>)
    ensures ResolveLogLevel(None, logLevel, nodeEnv) == "info"
            <==> logLevel == Some("info")
                 || (Truthy(logLevel) && logLevel.value !in PinoLevels)
                 || (!Truthy(logLevel) && nodeEnv != Some("development"))
  {
  }
}
