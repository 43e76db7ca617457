/**
 * `resolveBase` of packages/logging/src/base.ts: the comma-separated list in
 * `LOG_OMIT_FIELDS` (a parameter; `None` when unset) names the default fields
 * to leave out of every record, and becomes pino's `base` option, an object
 * mapping each name to `undefined`. `None` stands for `undefined`, which
 * leaves pino's defaults in place.
 */
module Base {
  import opened Wrappers
  import opened Text
  import opened LogObjects

  /** `DEFAULT_OMIT_FIELDS`: the list in force when the variable is unset. */
  const DefaultOmitFields: string := "pid,hostname"

  /** The value of `LOG_OMIT_FIELDS` that is used (`??` applies only when it is unset). */
  function OmitFields(env: Option<string>): string {
    env.GetOr(DefaultOmitFields)
  }

  /** Whether the list switches omission off: exactly `none` or the empty string. */
  predicate Disabled(omit: string) {
    omit == "none" || omit == ""
  }

  /** The entries of the list: `omit.split(',').map((f) => f.trim().toLowerCase())`. */
  function Entries(omit: string): (es: seq<string>)
    ensures |es| == |Split(omit, ',')|
    ensures forall i :: 0 <= i < |es| ==> es[i] == CleanEntryText(Split(omit, ',')[i])
    ensures forall i :: 0 <= i < |es| ==> IsLowerCase(es[i]) && IsTrimmed(es[i])
  {
    var parts := Split(omit, ',');
    var es := seq(|parts|, i requires 0 <= i < |parts| => CleanEntryText(parts[i]));
    assert forall i :: 0 <= i < |es| ==> es[i] == CleanEntryText(parts[i]);
    es
  }

  /** `f.trim().toLowerCase()`: lower-case, and neither end is whitespace. */
  function CleanEntryText(f: string): (e: string)
    ensures e == ToLower(Trim(f))
    ensures IsLowerCase(e) && IsTrimmed(e)
  {
    ToLower(Trim(f))
  }

  /** A record whose keys are `ks`, each mapped to `undefined`. */
  function AllUndefined(ks: seq<string>): (r: Record)
    ensures Keys(r) == ks
    ensures forall i :: 0 <= i < |r| ==> r[i].value == Undefined
    ensures forall k :: Lookup(r, k) == if k in ks then Some(Undefined) else None
  {
    seq(|ks|, i requires 0 <= i < |ks| => Field(ks[i], Undefined))
  }

  /** The object the loop builds from `fields`: each non-empty entry written once, in order of first appearance. */
  function Omitted(fields: seq<string>): Record {
    AllUndefined(AddKeys([], NonEmpty(fields)))
  }

  /** The entries that are not empty, in order. */
  function NonEmpty(fields: seq<string>): (ks: seq<string>)
    ensures forall k :: k in ks <==> k in fields && k != ""
  {
    if fields == [] then []
    else
      var rest := NonEmpty(fields[..|fields| - 1]);
      var f := fields[|fields| - 1];
      assert fields == fields[..|fields| - 1] + [f];
      if f == "" then rest else rest + [f]
  }

  /** Filtering keeps order: the kept entries of `a + b` are those of `a` followed by those of `b`. */
  lemma {:induction false} NonEmptyAppend(a: seq<string>, b: seq<string>)
    ensures NonEmpty(a + b) == NonEmpty(a) + NonEmpty(b)
  {
    if b == [] {
      assert a + b == a;
    } else {
      var init := b[..|b| - 1];
      assert (a + b)[..|a + b| - 1] == a + init;
      NonEmptyAppend(a, init);
    }
  }

  /** The `base` option for the list `omit`. */
  function BaseFor(omit: string): Option<Record> {
    if Disabled(omit) then None
    else
      var base := Omitted(Entries(omit));
      if |base| > 0 then Some(base) else None
  }

  /**
   * `resolveBase`: after the sentinel check, a loop writes `base[field] =
   * undefined` for every non-empty entry, then an empty object becomes
   * `undefined`.
   */
  method ResolveBase(env: Option<string>) returns (base: Option<Record>)
    ensures base == BaseFor(OmitFields(env))
  {
    var omitFields := env.GetOr(DefaultOmitFields);
    if omitFields == "none" || omitFields == "" {
      return None;
    }
    var fields := Entries(omitFields);
    var acc := OmitEach(fields);
    BaseFromEntries(omitFields, fields);
    if |acc| > 0 {
      base := Some(acc);
    } else {
      base := None;
    }
  }

  /** The loop of `resolveBase`: `base[field] = undefined` for each non-empty entry, in order. */
  method OmitEach(fields: seq<string>) returns (acc: Record)
    ensures acc == Omitted(fields)
  {
    acc := [];
    for i := 0 to |fields|
      invariant acc == Omitted(fields[..i])
    {
      var field := fields[i];
      OmittedStep(fields, i);
      if field != "" {
        acc := Assign(acc, field, Undefined);
      }
    }
    assert fields[..|fields|] == fields;
  }

  /** One more entry: an empty one is skipped, any other is written as `undefined`. */
  lemma OmittedStep(fields: seq<string>, i: nat)
    requires i < |fields|
    ensures Omitted(fields[..i + 1])
            == if fields[i] == "" then Omitted(fields[..i]) else Assign(Omitted(fields[..i]), fields[i], Undefined)
  {
    assert fields[..i + 1][..i] == fields[..i];
    if fields[i] != "" {
      AssignUndefined(AddKeys([], NonEmpty(fields[..i])), fields[i]);
    }
  }

  /** Writing `undefined` under a key of an all-undefined record adds the key if it is new and changes nothing else. */
  lemma {:induction false} AssignUndefined(ks: seq<string>, k: string)
    requires Distinct(ks)
    ensures Assign(AllUndefined(ks), k, Undefined) == AllUndefined(if k in ks then ks else ks + [k])
  {
    var r := AllUndefined(ks);
    var r' := Assign(r, k, Undefined);
    var ks' := if k in ks then ks else ks + [k];
    forall f | f in r' ensures f.value == Undefined {
    }
    forall i | 0 <= i < |r'| ensures r'[i] == AllUndefined(ks')[i] {
      assert r'[i].key == Keys(r')[i];
      assert r'[i] in r';
    }
  }

  // ---------------------------------------------------------------------------
  // Properties.

  /** A name as it should appear in the list: non-empty, no comma, trimmed and lower-case. */
  predicate CleanName(a: string) {
    a != [] && ',' !in a && !IsWhitespace(a[0]) && !IsWhitespace(a[|a| - 1]) && IsLowerCase(a)
  }

  /** A list without a comma is a single entry: the whole text, trimmed and lower-cased. */
  lemma EntriesOne(a: string)
    requires ',' !in a
    ensures Entries(a) == [ToLower(Trim(a))]
  {
    SplitNone(a, ',');
  }

  /** The entry before the first comma comes first; the rest of the list gives the remaining entries. */
  lemma EntriesCons(a: string, rest: string)
    requires ',' !in a
    ensures Entries(a + [','] + rest) == [ToLower(Trim(a))] + Entries(rest)
  {
    SplitFirst(a, ',', rest);
    var es := Entries(a + [','] + rest);
    var es' := [ToLower(Trim(a))] + Entries(rest);
    assert |es| == |es'|;
    forall i | 0 <= i < |es| ensures es[i] == es'[i] {
      if i > 0 {
        assert Split(a + [','] + rest, ',')[i] == Split(rest, ',')[i - 1];
      }
    }
  }

  /** One non-empty entry omits that one field. */
  lemma OmittedOne(e: string)
    requires e != ""
    ensures Omitted([e]) == [Field(e, Undefined)]
  {
    assert [e][..0] == [];
    assert NonEmpty([e]) == [e];
    assert AddKeys([], [e]) == [e];
  }

  /** Two different non-empty entries omit those two fields, in order. */
  lemma OmittedTwo(a: string, b: string)
    requires a != "" && b != "" && a != b
    ensures Omitted([a, b]) == [Field(a, Undefined), Field(b, Undefined)]
  {
    var es := [a, b];
    assert es[..1] == [a] && [a][..0] == [];
    assert NonEmpty([a]) == [a];
    assert NonEmpty(es) == [a, b];
    assert AddKeys([], [a]) == [a];
    assert AddKeys([], es) == [a, b];
  }

  /** A clean name is its own entry. */
  lemma CleanEntry(a: string)
    requires CleanName(a)
    ensures ToLower(Trim(a)) == a
  {
    TrimKeeps(a);
    LowerKeeps(a);
  }

  /** A list holding a comma does not switch omission off. */
  lemma CommaNotSentinel(omit: string)
    requires ',' in omit
    ensures !Disabled(omit)
  {
  }

  /** The `base` option is read off the entries of a list that does not switch omission off. */
  lemma BaseFromEntries(omit: string, es: seq<string>)
    requires !Disabled(omit) && Entries(omit) == es
    ensures BaseFor(omit) == if |Omitted(es)| > 0 then Some(Omitted(es)) else None
  {
  }

  /** Two clean names separated by a comma are the two entries of the list. */
  lemma TwoEntries(a: string, b: string)
    requires CleanName(a) && CleanName(b)
    ensures Entries(a + [','] + b) == [a, b]
  {
    EntriesCons(a, b);
    EntriesOne(b);
    CleanEntry(a);
    CleanEntry(b);
  }

  /** Two different clean names, comma-separated, omit exactly those two fields in that order. */
  lemma TwoNames(a: string, b: string)
    requires CleanName(a) && CleanName(b) && a != b
    ensures BaseFor(a + [','] + b) == Some([Field(a, Undefined), Field(b, Undefined)])
  {
    var omit := a + [','] + b;
    assert omit[|a|] == ',';
    CommaNotSentinel(omit);
    TwoEntries(a, b);
    OmittedTwo(a, b);
    BaseFromEntries(omit, [a, b]);
  }

  /** An unset variable omits `pid` and `hostname`. */
  lemma DefaultOmitsPidAndHostname()
    ensures BaseFor(OmitFields(None)) == Some([Field("pid", Undefined), Field("hostname", Undefined)])
  {
    assert OmitFields(None) == "pid" + [','] + "hostname";
    TwoNames("pid", "hostname");
  }

  /** A `base` object that is produced is non-empty, holds each key once and maps every key to `undefined`. */
  lemma BaseShape(omit: string)
    ensures BaseFor(omit).Some? ==>
              var r := BaseFor(omit).value;
              |r| > 0 && DistinctKeys(r) && forall i :: 0 <= i < |r| ==> r[i].value == Undefined
  {
    if BaseFor(omit).Some? {
      var ks := AddKeys([], NonEmpty(Entries(omit)));
      assert Keys(BaseFor(omit).value) == ks;
    }
  }

  /** Every omitted key is non-empty, trimmed at both ends and lower-case. */
  lemma OmittedKeyShape(omit: string, k: string)
    requires BaseFor(omit).Some? && k in Keys(BaseFor(omit).value)
    ensures k != "" && !IsWhitespace(k[0]) && !IsWhitespace(k[|k| - 1]) && IsLowerCase(k)
  {
    BaseKeys(omit, k);
    var es := Entries(omit);
    var j :| 0 <= j < |es| && es[j] == k;
  }

  /** A name is omitted exactly when it is a non-empty entry of the list; duplicates collapse to one key. */
  lemma BaseKeys(omit: string, k: string)
    requires !Disabled(omit)
    ensures (BaseFor(omit).Some? && k in Keys(BaseFor(omit).value)) <==> k != "" && k in Entries(omit)
  {
    var es := Entries(omit);
    OmittedKeys(es, k);
    BaseFromEntries(omit, es);
  }

  /** A key of the object built from `es` is a non-empty entry, and every non-empty entry is a key. */
  lemma OmittedKeys(es: seq<string>, k: string)
    ensures k in Keys(Omitted(es)) <==> k != "" && k in es
  {
    assert Keys(Omitted(es)) == AddKeys([], NonEmpty(es));
  }

  /** A single name without a comma omits that one field, lower-cased, unless it is the sentinel itself. */
  lemma OneName(a: string)
    requires a != [] && ',' !in a && !IsWhitespace(a[0]) && !IsWhitespace(a[|a| - 1]) && a != "none"
    ensures BaseFor(a) == Some([Field(ToLower(a), Undefined)])
  {
    EntriesOne(a);
    TrimKeeps(a);
    var e := ToLower(a);
    assert |e| == |a|;
    OmittedOne(e);
  }

  /** `none` switches omission off, but only in lower case: `NONE` omits a field called `none`. */
  lemma SentinelIsCaseSensitive()
    ensures BaseFor("none") == None
    ensures BaseFor("NONE") == Some([Field("none", Undefined)])
  {
    OneName("NONE");
    SentinelLowered();
  }

  /** `"NONE".toLowerCase()` is the sentinel. */
  lemma SentinelLowered()
    ensures ToLower("NONE") == "none"
  {
    var l := ToLower("NONE");
    assert l[0] == 'n' && l[1] == 'o' && l[2] == 'n' && l[3] == 'e';
  }

  /** A list made only of whitespace and commas, such as `" , ,"`, has no non-empty entry and leaves pino's defaults in place. */
  lemma BlankList(omit: string)
    requires forall i :: 0 <= i < |omit| ==> IsWhitespace(omit[i]) || omit[i] == ','
    ensures BaseFor(omit) == None
  {
    if !Disabled(omit) {
      var es := Entries(omit);
      forall j | 0 <= j < |es| ensures es[j] == "" {
        BlankEntry(omit, j);
      }
      NonEmptyOfBlanks(es);
      BaseFromEntries(omit, es);
    }
  }

  /** In a list of only whitespace and commas, every entry is empty. */
  lemma BlankEntry(omit: string, j: nat)
    requires forall i :: 0 <= i < |omit| ==> IsWhitespace(omit[i]) || omit[i] == ','
    requires j < |Entries(omit)|
    ensures Entries(omit)[j] == ""
  {
    var parts := Split(omit, ',');
    forall c | c in parts[j] ensures IsWhitespace(c) {
      JoinHolds(parts, [','], j, c);
    }
    TrimBlank(parts[j]);
  }

  /** Only empty entries: nothing is left to omit. */
  lemma {:induction false} NonEmptyOfBlanks(es: seq<string>)
    requires forall j :: 0 <= j < |es| ==> es[j] == ""
    ensures NonEmpty(es) == []
  {
    if es != [] {
      NonEmptyOfBlanks(es[..|es| - 1]);
    }
  }
}
