/**
 * The default export of packages/logging/src/logfmt-transport.ts: for every
 * record the stream delivers, optionally flatten it, move the priority keys
 * to the front, and write its logfmt line followed by a newline to standard
 * output. The stream is a sequence of records and standard output the
 * sequence of strings written to it.
 */
module LogfmtTransport {
  import opened Wrappers
  import opened Text
  import opened LogObjects
  import opened LogfmtStringify
  import opened LogfmtFlatten
  import opened LogfmtReorder

  /** `LogfmtTransportOptions`; an omitted option is `None`. */
  datatype Options = Options(flattenNestedObjects: Option<bool>, flattenSeparator: Option<string>)

  /** The separator in force: `flattenSeparator`, defaulting to `_` when omitted. */
  function Separator(opts: Options): string {
    opts.flattenSeparator.GetOr("_")
  }

  /** The record after the optional flattening step. */
  function Prepared(opts: Options, obj: Record): Record {
    if opts.flattenNestedObjects == Some(true) then Flattened(obj, Separator(opts)) else obj
  }

  /** What the transport writes for one record. */
  function Output(opts: Options, obj: Record): string {
    Line(ReorderKeys(Prepared(opts, obj))) + "\n"
  }

  /** `f` applied to every record of a stream, in order. */
  function MapRecords(f: Record -> string, source: seq<Record>): (ws: seq<string>)
    ensures |ws| == |source|
    ensures forall i :: 0 <= i < |source| ==> ws[i] == f(source[i])
  {
    if source == [] then [] else MapRecords(f, source[..|source| - 1]) + [f(source[|source| - 1])]
  }

  /** The loop over the stream: each record's line is written before the next record is read. */
  method Transport(opts: Options, source: seq<Record>) returns (written: seq<string>)
    ensures |written| == |source|
    ensures forall i :: 0 <= i < |source| ==> written[i] == Output(opts, source[i])
  {
    ghost var output := (r: Record) => Output(opts, r);
    written := [];
    for n := 0 to |source|
      invariant written == MapRecords(output, source[..n])
    {
      var text := WriteRecord(opts, source[n]);
      MapRecordsSnoc(output, source, n);
      written := written + [text];
    }
    assert source[..|source|] == source;
  }

  lemma MapRecordsSnoc(f: Record -> string, source: seq<Record>, n: nat)
    requires n < |source|
    ensures MapRecords(f, source[..n + 1]) == MapRecords(f, source[..n]) + [f(source[n])]
  {
    assert source[..n + 1][..n] == source[..n];
  }

  /** The body of the loop: flatten when asked, reorder, stringify, and end the line. */
  method WriteRecord(opts: Options, source: Record) returns (text: string)
    ensures text == Output(opts, source)
  {
    var obj := source;
    if opts.flattenNestedObjects == Some(true) {
      var separator := opts.flattenSeparator.GetOr("_");
      obj := FlattenObject(obj, separator, []);
    }
    obj := ReorderKeys(obj);
    var line := Stringify(obj);
    text := line + "\n";
  }

  // ---------------------------------------------------------------------------
  // Every record is written as exactly one line.

  predicate NoLineBreak(s: string) {
    '\n' !in s && '\r' !in s
  }

  /** No key, at any depth of nesting, holds a line feed or a carriage return. */
  predicate CleanKeys(r: Record) {
    forall i :: 0 <= i < |r| ==>
      NoLineBreak(r[i].key) && (r[i].value.Obj? ==> CleanKeys(r[i].value.fields))
  }

  lemma {:induction false} LeafPathsClean(source: Record, prefixes: seq<string>)
    requires CleanKeys(source)
    requires forall i :: 0 <= i < |prefixes| ==> NoLineBreak(prefixes[i])
    ensures forall l, i :: l in Leaves(source, prefixes) && 0 <= i < |l.path| ==> NoLineBreak(l.path[i])
  {
    if source != [] {
      var f := source[|source| - 1];
      LeafPathsClean(source[..|source| - 1], prefixes);
      if f.value.Obj? {
        LeafPathsClean(f.value.fields, prefixes + [f.key]);
      }
    }
  }

  /** Flattening clean keys with a separator free of line breaks gives clean keys. */
  lemma FlattenedClean(source: Record, sep: string)
    requires CleanKeys(source) && NoLineBreak(sep)
    ensures forall f :: f in Flattened(source, sep) ==> NoLineBreak(f.key)
  {
    var ws := Writes(source, sep, []);
    var ls := Leaves(source, []);
    LeafPathsClean(source, []);
    forall f | f in Flattened(source, sep) ensures NoLineBreak(f.key) {
      AssignAllFrom([], ws, f);
      var i :| 0 <= i < |ws| && ws[i] == f;
      assert ls[i] in ls;
      JoinExcludes(ls[i].path, sep, '\n');
      JoinExcludes(ls[i].path, sep, '\r');
    }
  }

  /** Every field of the reordered record is a field of the original. */
  lemma ReorderFrom(obj: Record, f: Field)
    requires f in ReorderKeys(obj)
    ensures f in obj
  {
    FrontOrdered(obj, PriorityKeys);
  }

  /**
   * When no key holds a line break (nor the separator, if flattening is on), each
   * write is one line: it ends in a line feed and holds no other line feed
   * and no carriage return.
   */
  lemma OneLinePerRecord(opts: Options, obj: Record)
    requires CleanKeys(obj)
    requires opts.flattenNestedObjects == Some(true) ==> NoLineBreak(Separator(opts))
    ensures var out := Output(opts, obj);
            out != [] && out[|out| - 1] == '\n' && NoLineBreak(out[..|out| - 1]) && '\r' !in out
  {
    var p := Prepared(opts, obj);
    var r := ReorderKeys(p);
    if opts.flattenNestedObjects == Some(true) {
      FlattenedClean(obj, Separator(opts));
    }
    forall i | 0 <= i < |r| ensures '\n' !in r[i].key && '\r' !in r[i].key {
      assert r[i] in r;
      ReorderFrom(p, r[i]);
    }
    LineWithoutLineBreaks(r);
    var out := Output(opts, obj);
    assert out[..|out| - 1] == Line(r);
  }

  /** The four priority fields, each bare except a quoted `msg`, written in the order time, level, name, msg. */
  lemma {:induction false} LineOfFour(time: Value, level: Value, name: Value, msg: Value)
    requires !IsNullish(time) && Bare(ToText(time))
    requires !IsNullish(level) && Bare(ToText(level))
    requires !IsNullish(name) && Bare(ToText(name))
    requires !IsNullish(msg) && NeedsQuotes(ToText(msg))
    requires forall i :: 0 <= i < |ToText(msg)| ==>
               ToText(msg)[i] != '"' && ToText(msg)[i] != '\\' && ToText(msg)[i] != '\n' && ToText(msg)[i] != '\r'
    ensures Line([Field("time", time), Field("level", level), Field("name", name), Field("msg", msg)])
         == Join(["time" + "=" + ToText(time), "level" + "=" + ToText(level), "name" + "=" + ToText(name),
                  "msg" + "=" + "\"" + ToText(msg) + "\""], " ")
  {
    var r := [Field("time", time), Field("level", level), Field("name", name), Field("msg", msg)];
    FourTokens(time, level, name, msg);
    QuotedEnd(msg);
    LineIsJoinedTokens(r);
  }

  lemma FourTokens(time: Value, level: Value, name: Value, msg: Value)
    requires !IsNullish(time) && Bare(ToText(time))
    requires !IsNullish(level) && Bare(ToText(level))
    requires !IsNullish(name) && Bare(ToText(name))
    requires !IsNullish(msg) && NeedsQuotes(ToText(msg))
    requires forall i :: 0 <= i < |ToText(msg)| ==>
               ToText(msg)[i] != '"' && ToText(msg)[i] != '\\' && ToText(msg)[i] != '\n' && ToText(msg)[i] != '\r'
    ensures TokenList([Field("time", time), Field("level", level), Field("name", name), Field("msg", msg)])
         == ["time" + "=" + ToText(time), "level" + "=" + ToText(level), "name" + "=" + ToText(name),
             "msg" + "=" + "\"" + ToText(msg) + "\""]
  {
    var r := [Field("time", time), Field("level", level), Field("name", name), Field("msg", msg)];
    BareToken("time", time);
    BareToken("level", level);
    BareToken("name", name);
    QuotedToken("msg", msg);
    TokenListFour(r);
  }

  lemma TokenListFour(r: Record)
    requires |r| == 4
    ensures TokenList(r) == [Token(r[0]), Token(r[1]), Token(r[2]), Token(r[3])]
  {
  }

  /** A value written in quotes ends with a quote, which `trimEnd` keeps. */
  lemma QuotedEnd(msg: Value)
    requires !IsNullish(msg) && NeedsQuotes(ToText(msg))
    requires forall i :: 0 <= i < |ToText(msg)| ==>
               ToText(msg)[i] != '"' && ToText(msg)[i] != '\\' && ToText(msg)[i] != '\n' && ToText(msg)[i] != '\r'
    ensures var e := Encoded(msg); e != "" && !IsWhitespace(e[|e| - 1])
  {
    QuotedToken("msg", msg);
  }

  /**
   * `{ name: 'app', msg: 'hello world', level: 'INFO', time: 123 }` is written
   * `time=123 level=INFO name=app msg="hello world"`: the priority keys in the
   * order time, level, name, msg whatever their order in the record.
   */
  lemma {:induction false} WritesPriorityOrder(opts: Options, time: Value, level: Value, name: Value, msg: Value)
    requires opts.flattenNestedObjects != Some(true)
    requires !IsNullish(time) && Bare(ToText(time))
    requires !IsNullish(level) && Bare(ToText(level))
    requires !IsNullish(name) && Bare(ToText(name))
    requires !IsNullish(msg) && NeedsQuotes(ToText(msg))
    requires forall i :: 0 <= i < |ToText(msg)| ==>
               ToText(msg)[i] != '"' && ToText(msg)[i] != '\\' && ToText(msg)[i] != '\n' && ToText(msg)[i] != '\r'
    ensures Output(opts, [Field("name", name), Field("msg", msg), Field("level", level), Field("time", time)])
         == Join(["time" + "=" + ToText(time), "level" + "=" + ToText(level), "name" + "=" + ToText(name),
                  "msg" + "=" + "\"" + ToText(msg) + "\""], " ") + "\n"
  {
    ReorderAllFour(name, msg, level, time);
    LineOfFour(time, level, name, msg);
  }
}
