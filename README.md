# logging-common: the logfmt transport and the option resolvers

This project models, in Dafny, the core of the `@x1-labs/logging` package. That package configures pino loggers for Node services. The model covers four parts:

- **The logfmt transport** (`packages/logging/src/logfmt-transport.ts`). For every log record pino hands it, the transport:
  - optionally flattens nested objects into one level (`flattenObject`);
  - moves `time`, `level`, `name` and `msg` to the front (`reorderKeys`);
  - writes the record as one `key=value` line (`stringify`).

  Values containing spaces, `=`, quotes, backslashes or line breaks are quoted and escaped. `null` and `undefined` render as an empty value, and the empty string renders as `""`.
- **`resolveLogLevel`** (`level.ts`): an explicit override, otherwise `LOG_LEVEL` when it names a pino level (`verbose` means `trace`), otherwise `debug` when `LOG_LEVEL` is unset or empty and `NODE_ENV` is `development`, and `info` in every other case.
- **`resolveBase`** (`base.ts`): turns the comma-separated `LOG_OMIT_FIELDS` (default `pid,hostname`, sentinel `none`) into pino's `base` option.
- **`resolveLogFormat`, `resolveFlattenNestedObjects` and `resolveTransport`** (`format.ts`): choose `json`, `logfmt` or `pretty`, and the transport each format runs.

## How the model is built

A JavaScript object is a `LogObjects.Record`: a sequence of fields in property-enumeration order. Property assignment (`LogObjects.Assign`) keeps an existing key where it stands and appends a new key. `Object.assign` (`LogObjects.AssignAll`) is a sequence of such assignments.

Each part takes the form of its source code:
- Code that loops and updates variables is a `method` with a `for` loop, proved against a specification function:
  - `stringify` → `LogfmtStringify.Stringify` against `Line`;
  - `flattenObject` → `LogfmtFlatten.FlattenObject` against `AssignAll([], Writes(..))`;
  - the loop of `resolveBase` → `Base.OmitEach` against `Omitted`;
  - the transport's `for await` loop → `LogfmtTransport.Transport` against `Output`.
- The reassignments of `value` inside `stringify` → the straight-line method `LogfmtStringify.RenderValue`, against `Encoded`.
- `resolveBase` → the method `Base.ResolveBase` around the loop `OmitEach`, against `BaseFor`.
- `reorderKeys`, `resolveLogLevel` and the format resolvers are pure expressions, so they are functions.
- Environment variables are parameters. `None` stands for an unset variable.
- The async stream and standard output are sequences: the records read, and the strings written.

Properties proved about the specification functions include:
- the logfmt encoding of a value decodes back to its text (`CR LF` becomes `LF`);
- an output line contains no line break when no key contains one;
- in flattening, every leaf path becomes a key, joined with the separator, and each key holds the last leaf written under it; keys are distinct, and when two joined paths collide the earlier leaf is lost;
- `reorderKeys` is idempotent, orders the priority keys, keeps every other property in order, and is a permutation when no priority key is `undefined`;
- the level, base and format resolvers choose each outcome under exactly the stated conditions.

### Where the comments and tests differ from the code
The model follows the code in both cases:
- The comments of `reorderKeys` and of the transport say the order is `time, level, msg, ...rest`. The code also moves `name`, between `level` and `msg`. `LogfmtReorder.ReorderAllFour` and `LogfmtTransport.WritesPriorityOrder` state the code's order. The integration test at `packages/logging/src/logfmt-transport.test.ts:191-196` expects `msg` before `name`, which the code does not produce.
- The test file keeps its own copies of `stringify`, `flattenObject` and `reorderKeys`. Its `stringify` copy predates line-break escaping. The model follows `logfmt-transport.ts`.

### Behaviour the code has that its comments do not announce
- Keys are written unescaped. A key containing a line break therefore still splits the output line, despite the comment "keep log on single line" (`LogfmtStringify.KeyLineBreakReachesLine`). `LogfmtTransport.OneLinePerRecord` accordingly requires keys free of line breaks.
- The final `trimEnd` also trims trailing whitespace from the last value when that value is not quoted. A last value of a lone tab is then indistinguishable from `null` (`LogfmtStringify.TrailingTabTrimmed`, `LogfmtStringify.LoneTabReadsAsNull`).
- `LOG_OMIT_FIELDS` compares with the sentinel `none` before lower-casing. `NONE` therefore omits a field called `none` (`Base.SentinelIsCaseSensitive`).

## Model

| member | source | states |
|---|---|---|
| Text.TrimEnd | packages/logging/src/logfmt-transport.ts:42 | the result is the longest prefix not ending in whitespace: every removed character is whitespace |
| Text.Trim | packages/logging/src/base.ts:22 | neither end of the result is whitespace |
| Text.TrimRemovesEnds | packages/logging/src/base.ts:22 | `trim` removes only whitespace, and only at the two ends: the input is a blank run, then the result, then a blank run |
| Text.ToLower | packages/logging/src/base.ts:22 | same length, the result holds no upper-case letter, and every character that is not an upper-case letter is kept |
| Text.Split | packages/logging/src/base.ts:22 | at least one part, no part contains the separator, and joining the parts with the separator gives the input back |
| Text.LowerIdempotent | packages/logging/src/format.ts:17 | lower-casing twice equals lower-casing once |
| LogObjects.Assign | packages/logging/src/logfmt-transport.ts:64 | `r[k] = v`: keys unchanged when `k` is present, `k` appended otherwise; no field other than `k: v` enters |
| LogObjects.AssignLookup | packages/logging/src/logfmt-transport.ts:64 | after `r[k] = v`, `k` reads `v` and every other key reads as before |
| LogObjects.AssignAll | packages/logging/src/logfmt-transport.ts:59-62 | `Object.assign` keeps the target's keys and appends each new key in order of first write |
| LogObjects.AssignAllLookup | packages/logging/src/logfmt-transport.ts:59-62 | after `Object.assign(r, src)` a key holds its last value written by `src`, or else its value in `r` |
| LogObjects.AssignAllDistinct | packages/logging/src/logfmt-transport.ts:59-62 | `Object.assign` into an object with distinct keys yields distinct keys |
| LogObjects.AssignAllAppend | packages/logging/src/logfmt-transport.ts:55-66 | assigning `a + b` equals assigning `a` and then `b` |
| LogObjects.AssignAllCollapsed | packages/logging/src/logfmt-transport.ts:59-62 | copying in an object built from writes `xs` has the same effect as performing the writes `xs` directly |
| LogObjects.SameFieldsPermutation | packages/logging/src/logfmt-transport.ts:74-83 | two records with distinct keys and the same fields are permutations of each other |
| LogfmtStringify.EscapeChar | packages/logging/src/logfmt-transport.ts:30-35 | the escape of one character contains no line break |
| LogfmtStringify.Encoded | packages/logging/src/logfmt-transport.ts:20-37 | a value renders empty exactly when it is `null` or `undefined`, and never contains a line break |
| LogfmtStringify.RenderValue | packages/logging/src/logfmt-transport.ts:17-37 | the flag-driven escaping and quoting steps produce `Encoded(raw)` |
| LogfmtStringify.Stringify | packages/logging/src/logfmt-transport.ts:13-43 | the loop over the keys followed by `trimEnd` produces `Line(data)` |
| LogfmtStringify.ChainIsEscapeBody | packages/logging/src/logfmt-transport.ts:30-35 | escaping quotes and backslashes and then the three line-break replacements equals escaping each character in one pass (`CR LF` as one `\n`) |
| LogfmtStringify.BodyAfterFlags | packages/logging/src/logfmt-transport.ts:26-35 | skipping a replacement when its flag is off changes nothing |
| LogfmtStringify.QuoteFlags | packages/logging/src/logfmt-transport.ts:26-36 | the three flags together say exactly when a value needs quotes |
| LogfmtStringify.UnescapeEscapeBody | packages/logging/src/logfmt-transport.ts:30-35 | undoing the escapes gives the text back, with `CR LF` read as `LF` |
| LogfmtStringify.EncodedRoundTrip | packages/logging/src/logfmt-transport.ts:20-37 | decoding a rendered value gives `None` for `null`/`undefined` and otherwise `String(raw)` with `CR LF` as `LF`; the empty string survives as `""` |
| LogfmtStringify.LineShape | packages/logging/src/logfmt-transport.ts:39-42 | a line is the tokens joined by spaces, then `trimEnd`; an empty record gives the empty line |
| LogfmtStringify.LineIsJoinedTokens | packages/logging/src/logfmt-transport.ts:39-42 | when the last value does not end in whitespace, the line is exactly the `key=value` tokens joined by single spaces |
| LogfmtStringify.LineWithoutLineBreaks | packages/logging/src/logfmt-transport.ts:32-35 | when no key contains a line break, neither does the line |
| LogfmtStringify.KeyLineBreakReachesLine | packages/logging/src/logfmt-transport.ts:39 | keys are not escaped: a key `a\nb` with a `null` value gives the line `a\nb=` |
| LogfmtStringify.TrailingTabTrimmed | packages/logging/src/logfmt-transport.ts:42 | an unquoted last value loses its trailing whitespace: `{k: "v\t"}` gives `k=v` |
| LogfmtStringify.LoneTabReadsAsNull | packages/logging/src/logfmt-transport.ts:37-42 | a last value of a lone tab gives the same line `k=` as `null` |
| LogfmtStringify.NullLine | packages/logging/src/logfmt-transport.ts:20-21 | a `null` value gives `k=` |
| LogfmtStringify.EscapeBodyPlain | packages/logging/src/logfmt-transport.ts:30-35 | text without quotes, backslashes or line breaks is not changed by escaping |
| LogfmtStringify.BareToken | packages/logging/src/logfmt-transport.ts:36-39 | a non-empty value without special characters is written as `key=value` unquoted |
| LogfmtStringify.QuotedToken | packages/logging/src/logfmt-transport.ts:27-39 | a value with a space or `=` and nothing to escape is written as `key="value"` |
| LogfmtFlatten.Leaves | packages/logging/src/logfmt-transport.ts:55-66 | no leaf is a plain object |
| LogfmtFlatten.Writes | packages/logging/src/logfmt-transport.ts:64 | each write puts a leaf under its path joined by the separator |
| LogfmtFlatten.FlattenObject | packages/logging/src/logfmt-transport.ts:48-69 | the loop, with its recursive calls and `Object.assign`, yields the writes applied in order to `{}` |
| LogfmtFlatten.FlattenedShape | packages/logging/src/logfmt-transport.ts:48-69 | the flattened record has distinct keys and no nested objects |
| LogfmtFlatten.FlattenedContents | packages/logging/src/logfmt-transport.ts:48-69 | its keys are the written paths in order of first write, and each holds the value written last |
| LogfmtFlatten.FlattenIdentity | packages/logging/src/logfmt-transport.ts:48-69 | a record that is already flat, with distinct keys, is unchanged |
| LogfmtFlatten.ReachedIsLeaf | packages/logging/src/logfmt-transport.ts:58-64 | every non-object value reachable by a path of keys is a leaf under that path |
| LogfmtFlatten.LeafIsReached | packages/logging/src/logfmt-transport.ts:58-64 | every leaf extends the prefixes and is reachable in the source by the rest of its path |
| LogfmtFlatten.EmptyObjectVanishes | packages/logging/src/logfmt-transport.ts:58-62 | an empty nested object contributes no key |
| LogfmtFlatten.FlattenErrorObject | packages/logging/src/logfmt-transport.ts:58-64 | `{error: {type, message}}` becomes `error<sep>type`, `error<sep>message`, in that order |
| LogfmtReorder.Pick | packages/logging/src/logfmt-transport.ts:77-80 | the spread contributes the property exactly when the key is present with a value other than `undefined` |
| LogfmtReorder.Rest | packages/logging/src/logfmt-transport.ts:75 | `...rest` holds exactly the fields whose key is not a priority key |
| LogfmtReorder.RestAppend | packages/logging/src/logfmt-transport.ts:75 | `rest` keeps the original order |
| LogfmtReorder.FrontOrdered | packages/logging/src/logfmt-transport.ts:76-80 | the front holds defined priority fields with their values, in priority order |
| LogfmtReorder.ReorderOrdered | packages/logging/src/logfmt-transport.ts:74-83 | every priority key comes before every other key, and the priority keys appear as `time`, `level`, `name`, `msg` |
| LogfmtReorder.ReorderLookup | packages/logging/src/logfmt-transport.ts:74-83 | every key reads as before, except that a priority key holding `undefined` disappears |
| LogfmtReorder.ReorderRest | packages/logging/src/logfmt-transport.ts:81 | the non-priority fields keep their relative order |
| LogfmtReorder.ReorderIdempotent | packages/logging/src/logfmt-transport.ts:74-83 | reordering twice equals reordering once |
| LogfmtReorder.ReorderFields | packages/logging/src/logfmt-transport.ts:74-83 | a field is kept exactly when it is not a priority key holding `undefined` |
| LogfmtReorder.ReorderDistinct | packages/logging/src/logfmt-transport.ts:74-83 | distinct keys stay distinct |
| LogfmtReorder.ReorderPermutation | packages/logging/src/logfmt-transport.ts:74-83 | when no priority key holds `undefined`, the result is a permutation of the input |
| LogfmtReorder.PriorityOnly | packages/logging/src/logfmt-transport.ts:74-83 | a record of the four priority keys, in any order, becomes `time, level, name, msg` |
| LogfmtReorder.ReorderAllFour | packages/logging/src/logfmt-transport.ts:74-83 | `{name, msg, level, time}` becomes `{time, level, name, msg}` |
| LogfmtTransport.MapRecords | packages/logging/src/logfmt-transport.ts:92-100 | one output per record, in stream order |
| LogfmtTransport.Transport | packages/logging/src/logfmt-transport.ts:88-102 | the transport writes one string per record, in order, each being that record's `Output` |
| LogfmtTransport.WriteRecord | packages/logging/src/logfmt-transport.ts:93-99 | flatten only when `flattenNestedObjects` is `true`, then reorder, stringify and add a newline |
| LogfmtTransport.FlattenedClean | packages/logging/src/logfmt-transport.ts:64 | flattening with a separator free of line breaks introduces no line break into keys |
| LogfmtTransport.OneLinePerRecord | packages/logging/src/logfmt-transport.ts:32-35 | when no key contains a line break (nor the separator, if flattening is on), each record's output is one line ended by its single newline, with no carriage return |
| LogfmtTransport.LineOfFour | packages/logging/src/logfmt-transport.ts:13-43 | `time`, `level`, `name` plain and `msg` with a space render as `time=.. level=.. name=.. msg=".."` |
| LogfmtTransport.WritesPriorityOrder | packages/logging/src/logfmt-transport.ts:92-99 | without flattening, a record given as `{name, msg, level, time}` is written `time=.. level=.. name=.. msg=".."` followed by a newline |
| Level.ResolveLogLevel | packages/logging/src/level.ts:10-25 | a non-empty override is returned as given; otherwise the result is one of `trace`, `debug`, `info`, `warn`, `error` |
| Level.EmptyOverrideFallsThrough | packages/logging/src/level.ts:11 | an empty override counts as no override |
| Level.KnownLevelKept | packages/logging/src/level.ts:16-18 | `LOG_LEVEL` naming a pino level other than `verbose` is used as is |
| Level.TraceExactly | packages/logging/src/level.ts:16-17 | without an override the level is `trace` exactly when `LOG_LEVEL` is `trace` or `verbose` |
| Level.DebugExactly | packages/logging/src/level.ts:16-22 | `debug` exactly when `LOG_LEVEL` is `debug`, or it is unset or empty and `NODE_ENV` is `development` |
| Level.InfoExactly | packages/logging/src/level.ts:16-24 | `info` exactly when `LOG_LEVEL` is `info`, is set to an unknown level, or is unset or empty outside development |
| Base.Entries | packages/logging/src/base.ts:22 | one entry per comma-separated piece of the list; every entry is lower-case and has no whitespace at either end |
| Base.AllUndefined | packages/logging/src/base.ts:23-29 | the base object has exactly the given keys, in order; looking up one of them gives `undefined`, and any other key is absent |
| Base.NonEmpty | packages/logging/src/base.ts:26 | empty entries are skipped and every other entry is kept |
| Base.NonEmptyAppend | packages/logging/src/base.ts:25-26 | the filter keeps order: the kept entries of `a + b` are those of `a` followed by those of `b` |
| Base.ResolveBase | packages/logging/src/base.ts:15-32 | the function returns `BaseFor` of `LOG_OMIT_FIELDS`, or of `pid,hostname` when it is unset |
| Base.OmitEach | packages/logging/src/base.ts:23-29 | the loop builds the object of the non-empty entries, each once, in order of first appearance |
| Base.OmittedStep | packages/logging/src/base.ts:25-29 | one more entry assigns `undefined` to it when it is non-empty, and changes nothing otherwise |
| Base.AssignUndefined | packages/logging/src/base.ts:27 | writing `undefined` to a key already present changes nothing; a new key is appended |
| Base.DefaultOmitsPidAndHostname | packages/logging/src/base.ts:3 | with the variable unset, `pid` and `hostname` are omitted, in that order |
| Base.TwoNames | packages/logging/src/base.ts:22-31 | `a,b` with two distinct clean names omits `a` and `b` |
| Base.OneName | packages/logging/src/base.ts:22-31 | a single name without commas or surrounding whitespace omits its lower-cased form |
| Base.BaseShape | packages/logging/src/base.ts:23-31 | a defined base has at least one key, distinct keys, and every value `undefined` |
| Base.OmittedKeyShape | packages/logging/src/base.ts:22-27 | every omitted key is non-empty, trimmed and lower-case |
| Base.BaseKeys | packages/logging/src/base.ts:22-31 | outside the sentinel values, a key is omitted exactly when it is a non-empty entry |
| Base.SentinelIsCaseSensitive | packages/logging/src/base.ts:18-22 | `none` disables omission but `NONE` omits a field named `none` |
| Base.BlankList | packages/logging/src/base.ts:22-31 | a list of only commas and whitespace gives `undefined` |
| Format.ResolveLogFormat | packages/logging/src/format.ts:11-23 | `true` gives `json` and `false` gives `pretty`, never `logfmt`; an explicit format is returned as given |
| Format.NameRoundTrip | packages/logging/src/format.ts:17-22 | without an override, `LOG_FORMAT` set to a format's name selects that format |
| Format.AnyCaseSelects | packages/logging/src/format.ts:17-22 | any spelling that lower-cases to a format's name selects that format |
| Format.FormatIgnoresCase | packages/logging/src/format.ts:17 | lower-casing `LOG_FORMAT` beforehand changes nothing |
| Format.FormatFromEnvironment | packages/logging/src/format.ts:17-22 | `json`/`logfmt` exactly when the variable names them in any case, `pretty` otherwise, including when unset |
| Format.OverrideIgnoresEnvironment | packages/logging/src/format.ts:13-15 | with an override, `LOG_FORMAT` does not matter |
| Format.ResolveFlattenNestedObjects | packages/logging/src/format.ts:29-32 | flattening is on when `LOG_FLATTEN_NESTED` is unset |
| Format.FlattenOffExactly | packages/logging/src/format.ts:29-32 | flattening is off exactly for `0` or for `false` in any case |
| Format.ResolveTransport | packages/logging/src/format.ts:38-55 | no transport exactly for `json`; the logfmt target exactly for `logfmt`, with logfmt options; `pino-pretty` with `singleLine: true` for `pretty` |
| Format.LogfmtTransportFlattens | packages/logging/src/format.ts:44-48 | the configured logfmt transport flattens with `_` exactly when `resolveFlattenNestedObjects` is true |

## Left out

- The async machinery of the transport is not modelled: `pino-abstract-transport`'s `build`, `for await` over the stream, back-pressure and a failing `process.stdout.write`. The stream is a finite sequence of records and standard output the sequence of strings written.
- `process.env` is not read. Each variable is a parameter of the function that reads it.
- `require.resolve` is not modelled. The two module paths are the constructors of `Format.Target`.
- `String(raw)` is modelled only for the values a record holds: numbers appear as their decimal text, already rendered; arrays are joined with commas; plain objects render as `[object Object]`. An object with an own `toString` property that is not a function makes `String(raw)` throw a `TypeError`, which rejects the transport's async function; the model renders it as `[object Object]` and does not capture this error. Number formatting, `Date`, class instances, symbols and bigints are not modelled.
- `flattenObject` treats every value whose `typeof` is `object` as a nested record. The model enters only plain objects (`Obj`). Class instances such as `Date` would be entered by the source but are not values of the model.
- `for ... in` enumeration is taken as insertion order. JavaScript lists integer-like keys first. Inherited enumerable properties, `__proto__` keys and cyclic records are not modelled.
- `toLowerCase` is modelled on ASCII letters only. Other characters are kept as they are.
- The whitespace set of `trim`/`trimEnd` is the fixed list in `Text.IsWhitespace`.
- The pino `LoggerOptions` and `TransportSingleOptions` types are reduced to the fields these functions set.
- `logger.ts`, `logger.browser.ts`, `index.ts`, `express.ts` and `nest.ts` are not part of this model. They only pass the resolved values on to pino.
- The copies of `stringify`, `flattenObject` and `reorderKeys` in `logfmt-transport.test.ts` are not modelled. They differ from the transport's own code.
- Level.ResolveLogLevel: an override is any non-empty string and is not checked against the pino levels, as in the source; the lemmas describe only the environment branches.
- LogfmtReorder.ReorderPermutation: a priority key holding `undefined` is dropped, so the permutation is stated only for records without one. `LogfmtReorder.ReorderFields` covers the general case.
- LogfmtTransport.OneLinePerRecord: stated only for keys (and, when flattening, a separator) without line breaks, because the source does not escape keys (`LogfmtStringify.KeyLineBreakReachesLine`).
