/**
 * `flattenObject` of packages/logging/src/logfmt-transport.ts: nested plain
 * objects are collapsed into one level, a leaf reached through keys
 * k1 .. kn landing under `k1 <sep> .. <sep> kn`. Arrays, `null` and every
 * other non-object value are leaves; an empty nested object leaves nothing.
 *
 * The specification is the sequence of writes the traversal performs
 * (`Writes`): flattening is those writes applied in order to an empty
 * object, so a later write to the same key wins and keeps the key's first
 * position.
 */
module LogfmtFlatten {
  import opened Wrappers
  import opened Text
  import opened LogObjects

  /** A leaf of a nested record: the keys leading to it and the value found there. */
  datatype Leaf = Leaf(path: seq<string>, value: Value)

  /** The leaves below `prefixes`, in traversal order: plain objects are entered, every other value is a leaf. */
  function Leaves(source: Record, prefixes: seq<string>): (ls: seq<Leaf>)
    ensures forall l :: l in ls ==> !l.value.Obj?
  {
    if source == [] then []
    else
      var f := source[|source| - 1];
      Leaves(source[..|source| - 1], prefixes)
      + (if f.value.Obj? then Leaves(f.value.fields, prefixes + [f.key])
         else [Leaf(prefixes + [f.key], f.value)])
  }

  /** The writes the traversal performs: each leaf under its path joined by `sep`. */
  function Writes(source: Record, sep: string, prefixes: seq<string>): (ws: Record)
    ensures |ws| == |Leaves(source, prefixes)|
    ensures forall i :: 0 <= i < |ws| ==>
              ws[i] == Field(Join(Leaves(source, prefixes)[i].path, sep), Leaves(source, prefixes)[i].value)
  {
    if source == [] then []
    else
      var f := source[|source| - 1];
      Writes(source[..|source| - 1], sep, prefixes)
      + (if f.value.Obj? then Writes(f.value.fields, sep, prefixes + [f.key])
         else [Field(Join(prefixes + [f.key], sep), f.value)])
  }

  /** `flattenObject(source, sep)`: the record the traversal leaves behind. */
  function Flattened(source: Record, sep: string): Record {
    AssignAll([], Writes(source, sep, []))
  }

  /**
   * `flattenObject(source, separator, prefixes)`: a loop over the fields that
   * recurses into plain objects and copies the result in with
   * `Object.assign`, and assigns every other value under its joined path.
   */
  method FlattenObject(source: Record, separator: string, prefixes: seq<string>) returns (output: Record)
    ensures output == AssignAll([], Writes(source, separator, prefixes))
  {
    output := [];
    for i := 0 to |source|
      invariant output == AssignAll([], Writes(source[..i], separator, prefixes))
    {
      var key := source[i].key;
      var value := source[i].value;
      WritesStep(source, i, separator, prefixes);
      if value.Obj? {
        var nested := FlattenObject(value.fields, separator, prefixes + [key]);
        CopyNested(Writes(source[..i], separator, prefixes), Writes(value.fields, separator, prefixes + [key]));
        output := AssignAll(output, nested);
      } else {
        AssignOne(Writes(source[..i], separator, prefixes), Field(Join(prefixes + [key], separator), value));
        output := Assign(output, Join(prefixes + [key], separator), value);
      }
    }
    assert source[..|source|] == source;
  }

  /** The writes of one more field: those of the fields before it, then its own. */
  lemma WritesStep(source: Record, i: nat, sep: string, prefixes: seq<string>)
    requires i < |source|
    ensures Writes(source[..i + 1], sep, prefixes)
            == Writes(source[..i], sep, prefixes)
               + (if source[i].value.Obj? then Writes(source[i].value.fields, sep, prefixes + [source[i].key])
                  else [Field(Join(prefixes + [source[i].key], sep), source[i].value)])
  {
    assert source[..i + 1][..i] == source[..i];
  }

  /** `Object.assign(output, flattenObject(..))` performs the nested writes themselves. */
  lemma CopyNested(done: Record, inner: Record)
    ensures AssignAll([], done + inner) == AssignAll(AssignAll([], done), AssignAll([], inner))
  {
    AssignAllDistinct([], done);
    AssignAllCollapsed(AssignAll([], done), inner);
    AssignAllAppend([], done, inner);
  }

  lemma AssignOne(done: Record, w: Field)
    ensures AssignAll([], done + [w]) == Assign(AssignAll([], done), w.key, w.value)
  {
    assert (done + [w])[..|done|] == done;
  }

  // ---------------------------------------------------------------------------
  // Properties.

  /** The flattened record has distinct keys and holds no plain object. */
  lemma FlattenedShape(source: Record, sep: string, prefixes: seq<string>)
    ensures DistinctKeys(AssignAll([], Writes(source, sep, prefixes)))
    ensures forall f :: f in AssignAll([], Writes(source, sep, prefixes)) ==> !f.value.Obj?
  {
    var ws := Writes(source, sep, prefixes);
    AssignAllDistinct([], ws);
    forall f | f in AssignAll([], ws) ensures !f.value.Obj? {
      AssignAllFrom([], ws, f);
      var i :| 0 <= i < |ws| && ws[i] == f;
      assert Leaves(source, prefixes)[i] in Leaves(source, prefixes);
    }
  }

  /**
   * Its keys are the joined leaf paths, each once, in the order first written;
   * each holds the value of the last leaf written under it.
   */
  lemma FlattenedContents(source: Record, sep: string, prefixes: seq<string>, k: string)
    ensures Keys(AssignAll([], Writes(source, sep, prefixes))) == AddKeys([], Keys(Writes(source, sep, prefixes)))
    ensures Lookup(AssignAll([], Writes(source, sep, prefixes)), k) == LastWrite(Writes(source, sep, prefixes), k)
  {
    AssignAllLookup([], Writes(source, sep, prefixes), k);
  }

  /** A record without plain-object values comes out unchanged. */
  lemma FlattenIdentity(source: Record, sep: string)
    requires DistinctKeys(source)
    requires forall i :: 0 <= i < |source| ==> !source[i].value.Obj?
    ensures Flattened(source, sep) == source
  {
    FlatWrites(source, sep);
    AssignAllDistinct([], source);
    AddKeysDistinct(Keys(source));
    forall k ensures Lookup(AssignAll([], source), k) == Lookup(source, k) {
      AssignAllLookup([], source, k);
      LastWriteIsLookup(source, k);
    }
    RecordExt(AssignAll([], source), source);
  }

  lemma {:induction false} FlatWrites(source: Record, sep: string)
    requires forall i :: 0 <= i < |source| ==> !source[i].value.Obj?
    ensures Writes(source, sep, []) == source
  {
    if source != [] {
      var init, f := source[..|source| - 1], source[|source| - 1];
      FlatWrites(init, sep);
      assert [] + [f.key] == [f.key];
      assert Join([f.key], sep) == f.key;
      assert Writes(source, sep, []) == init + [f];
      assert init + [f] == source;
    }
  }

  lemma {:induction false} AddKeysDistinct(ks: seq<string>)
    requires Distinct(ks)
    ensures AddKeys([], ks) == ks
  {
    if ks != [] {
      var init := ks[..|ks| - 1];
      AddKeysDistinct(init);
      assert ks[|ks| - 1] !in init;
      assert init + [ks[|ks| - 1]] == ks;
    }
  }

  /** `path` leads through nested plain objects of `source` to the non-object value `v`. */
  predicate Reaches(source: Record, path: seq<string>, v: Value) {
    path != [] &&
    exists i :: 0 <= i < |source| && source[i].key == path[0] &&
      if |path| == 1 then !source[i].value.Obj? && source[i].value == v
      else source[i].value.Obj? && Reaches(source[i].value.fields, path[1..], v)
  }

  /** Every value reached through a path of keys is a leaf, so it is written under that path joined. */
  lemma {:induction false} ReachedIsLeaf(source: Record, prefixes: seq<string>, path: seq<string>, v: Value)
    requires Reaches(source, path, v)
    ensures Leaf(prefixes + path, v) in Leaves(source, prefixes)
  {
    var i :| 0 <= i < |source| && source[i].key == path[0] &&
      if |path| == 1 then !source[i].value.Obj? && source[i].value == v
      else source[i].value.Obj? && Reaches(source[i].value.fields, path[1..], v);
    LeavesOfField(source, prefixes, i);
    var f := source[i];
    if |path| == 1 {
      assert path == [f.key];
    } else {
      ReachedIsLeaf(f.value.fields, prefixes + [f.key], path[1..], v);
      assert prefixes + [f.key] + path[1..] == prefixes + path;
    }
  }

  /** The leaves contributed by field `i` are among the leaves of the record. */
  lemma {:induction false} LeavesOfField(source: Record, prefixes: seq<string>, i: nat)
    requires i < |source|
    ensures var f := source[i];
            forall l :: l in (if f.value.Obj? then Leaves(f.value.fields, prefixes + [f.key])
                              else [Leaf(prefixes + [f.key], f.value)])
                        ==> l in Leaves(source, prefixes)
  {
    if i < |source| - 1 {
      LeavesOfField(source[..|source| - 1], prefixes, i);
    }
  }

  /** Conversely, every leaf lies under `prefixes`, reached through the rest of its path. */
  lemma {:induction false} LeafIsReached(source: Record, prefixes: seq<string>, l: Leaf)
    requires l in Leaves(source, prefixes)
    ensures |l.path| > |prefixes| && l.path[..|prefixes|] == prefixes
    ensures Reaches(source, l.path[|prefixes|..], l.value)
  {
    var init := source[..|source| - 1];
    var j := |source| - 1;
    var f := source[j];
    if l in Leaves(init, prefixes) {
      LeafIsReached(init, prefixes, l);
      ReachesExtend(init, source, l.path[|prefixes|..], l.value);
    } else if f.value.Obj? {
      var pre := prefixes + [f.key];
      LeafIsReached(f.value.fields, pre, l);
      Descend(l.path, prefixes, f.key);
      ReachesVia(source, j, l.path[|prefixes|..], l.value);
    } else {
      assert l == Leaf(prefixes + [f.key], f.value);
      assert l.path[..|prefixes|] == prefixes;
      assert l.path[|prefixes|..] == [f.key];
      ReachesVia(source, j, [f.key], l.value);
    }
  }

  /** A path one key longer than `prefixes` splits into `prefixes`, that key, and the rest. */
  lemma Descend(path: seq<string>, prefixes: seq<string>, k: string)
    requires |path| > |prefixes| + 1 && path[..|prefixes| + 1] == prefixes + [k]
    ensures path[..|prefixes|] == prefixes
    ensures var p := path[|prefixes|..]; |p| > 1 && p[0] == k && p[1..] == path[|prefixes| + 1..]
  {
    assert path[..|prefixes|] == path[..|prefixes| + 1][..|prefixes|];
    assert path[|prefixes|] == path[..|prefixes| + 1][|prefixes|];
  }

  /** Field `j` starts the path: the record reaches what the field reaches. */
  lemma ReachesVia(source: Record, j: nat, p: seq<string>, v: Value)
    requires j < |source| && p != [] && source[j].key == p[0]
    requires if |p| == 1 then !source[j].value.Obj? && source[j].value == v
             else source[j].value.Obj? && Reaches(source[j].value.fields, p[1..], v)
    ensures Reaches(source, p, v)
  {
  }

  /** What a prefix of the fields reaches, the whole record reaches. */
  lemma ReachesExtend(init: Record, source: Record, path: seq<string>, v: Value)
    requires init <= source
    requires Reaches(init, path, v)
    ensures Reaches(source, path, v)
  {
    var i :| 0 <= i < |init| && init[i].key == path[0] &&
      if |path| == 1 then !init[i].value.Obj? && init[i].value == v
      else init[i].value.Obj? && Reaches(init[i].value.fields, path[1..], v);
    assert source[i] == init[i];
  }

  /** `{ a: {} }` flattens to `{}`: an empty nested object leaves no key behind. */
  lemma EmptyObjectVanishes(sep: string)
    ensures Flattened([Field("a", Obj([]))], sep) == []
  {
    var r := [Field("a", Obj([]))];
    assert r[..0] == [];
    assert Writes(r, sep, []) == [];
  }

  /** `{ error: { type, message } }` flattens to `{ error<sep>type, error<sep>message }`. */
  lemma {:induction false} FlattenErrorObject(sep: string, a: Value, b: Value)
    requires !a.Obj? && !b.Obj?
    ensures Flattened([Field("error", Obj([Field("type", a), Field("message", b)]))], sep)
         == [Field("error" + sep + "type", a), Field("error" + sep + "message", b)]
  {
    var k1, k2 := "error" + sep + "type", "error" + sep + "message";
    ErrorWrites(sep, a, b);
    assert |k1| != |k2|;
    AssignTwo(Field(k1, a), Field(k2, b));
  }

  /** The traversal of `{ error: { type, message } }` writes the two joined paths, in order. */
  lemma ErrorWrites(sep: string, a: Value, b: Value)
    requires !a.Obj? && !b.Obj?
    ensures Writes([Field("error", Obj([Field("type", a), Field("message", b)]))], sep, [])
         == [Field("error" + sep + "type", a), Field("error" + sep + "message", b)]
  {
    var inner := [Field("type", a), Field("message", b)];
    var r := [Field("error", Obj(inner))];
    var k1, k2 := "error" + sep + "type", "error" + sep + "message";
    assert Join(["error", "type"], sep) == k1 by {
      assert ["error", "type"][1..] == ["type"];
    }
    assert Join(["error", "message"], sep) == k2 by {
      assert ["error", "message"][1..] == ["message"];
    }
    assert r[..0] == [] && inner[..1] == [inner[0]] && inner[..1][..0] == [];
    assert [] + ["error"] == ["error"];
    assert Writes(inner, sep, ["error"]) == [Field(k1, a), Field(k2, b)];
  }

  /** Two writes under different keys give those two fields, in order. */
  lemma AssignTwo(x: Field, y: Field)
    requires x.key != y.key
    ensures AssignAll([], [x, y]) == [x, y]
  {
    AssignOne([], x);
    AssignOne([x], y);
    assert [x, y][..1] == [x];
  }
}
