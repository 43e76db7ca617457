/**
 * A log record as the transport receives it: a JavaScript object whose own
 * enumerable properties are kept in insertion order. Property assignment and
 * `Object.assign` are modelled with their JavaScript meaning: writing to an
 * existing key replaces its value where it stands, writing to a new key
 * appends it.
 */
module LogObjects {
  import opened Wrappers
  import opened Text

  /** The values a record field can hold. Numbers are kept as their decimal rendering. */
  datatype Value =
    | Undefined
    | Null
    | Bool(b: bool)
    | Num(text: string)
    | Str(s: string)
    | Arr(items: seq<Value>)
    | Obj(fields: seq<Field>)

  datatype Field = Field(key: string, value: Value)

  /** An object's properties in enumeration order. */
  type Record = seq<Field>

  /** `raw == null` in JavaScript: true of both `null` and `undefined`. */
  predicate IsNullish(v: Value) {
    v.Undefined? || v.Null?
  }

  /** `String(raw)` for the values a record holds (plain objects only; arrays joined with commas). */
  function ToText(v: Value): string {
    match v
    case Undefined => "undefined"
    case Null => "null"
    case Bool(b) => if b then "true" else "false"
    case Num(text) => text
    case Str(s) => s
    case Arr(items) =>
      Join(seq(|items|, i requires 0 <= i < |items| =>
                 if IsNullish(items[i]) then "" else ToText(items[i])), ",")
    case Obj(_) => "[object Object]"
  }

  function Keys(r: Record): (ks: seq<string>)
    ensures |ks| == |r|
    ensures forall i :: 0 <= i < |r| ==> ks[i] == r[i].key
  {
    seq(|r|, i requires 0 <= i < |r| => r[i].key)
  }

  predicate DistinctKeys(r: Record) {
    forall i, j :: 0 <= i < j < |r| ==> r[i].key != r[j].key
  }

  predicate Distinct(ks: seq<string>) {
    forall i, j :: 0 <= i < j < |ks| ==> ks[i] != ks[j]
  }

  /** The position of the first occurrence of `k` in `ks`, or -1. */
  function FirstIndex(ks: seq<string>, k: string): (i: int)
    ensures -1 <= i < |ks|
    ensures 0 <= i ==> ks[i] == k && k !in ks[..i]
    ensures i < 0 <==> k !in ks
  {
    if ks == [] then -1
    else if ks[0] == k then 0
    else
      var j := FirstIndex(ks[1..], k);
      assert j >= 0 ==> ks[..j + 1] == [ks[0]] + ks[1..][..j];
      if j < 0 then -1 else j + 1
  }

  /** `r[k]`: the value of the first property named `k`, if there is one. */
  function Lookup(r: Record, k: string): (o: Option<Value>)
    ensures o.None? <==> k !in Keys(r)
    ensures o.Some? ==> Field(k, o.value) in r
  {
    var i := FirstIndex(Keys(r), k);
    if i < 0 then None else Some(r[i].value)
  }

  /** In a record with distinct keys, looking a key up finds the field that carries it. */
  lemma LookupAt(r: Record, i: nat)
    requires DistinctKeys(r) && i < |r|
    ensures Lookup(r, r[i].key) == Some(r[i].value)
  {
    var j := FirstIndex(Keys(r), r[i].key);
    assert r[j].key == r[i].key;
  }

  /** The first occurrence of `k` in `ks + js` is its first in `ks`, else its first in `js` shifted past `ks`. */
  lemma {:induction false} FirstIndexConcat(ks: seq<string>, js: seq<string>, k: string)
    ensures FirstIndex(ks + js, k)
            == if k in ks then FirstIndex(ks, k) else if k in js then |ks| + FirstIndex(js, k) else -1
  {
    if ks == [] {
      assert ks + js == js;
    } else {
      assert (ks + js)[0] == ks[0];
      assert (ks + js)[1..] == ks[1..] + js;
      if ks[0] != k {
        FirstIndexConcat(ks[1..], js, k);
      }
    }
  }

  /** Looking a key up in `a + b` finds it in `a` when `a` has it, and otherwise in `b`. */
  lemma LookupAppend(a: Record, b: Record, k: string)
    ensures Lookup(a + b, k) == if k in Keys(a) then Lookup(a, k) else Lookup(b, k)
  {
    assert Keys(a + b) == Keys(a) + Keys(b);
    FirstIndexConcat(Keys(a), Keys(b), k);
    if k !in Keys(a) && k in Keys(b) {
      var j := FirstIndex(Keys(b), k);
      assert (a + b)[|a| + j] == b[j];
    }
  }

  /** `r[k] = v`: an existing key keeps its position and takes the new value; a new key is appended. */
  function Assign(r: Record, k: string, v: Value): (r': Record)
    ensures Keys(r') == if k in Keys(r) then Keys(r) else Keys(r) + [k]
    ensures forall f :: f in r' ==> f in r || f == Field(k, v)
  {
    var i := FirstIndex(Keys(r), k);
    if i < 0 then
      assert Keys(r + [Field(k, v)]) == Keys(r) + [k];
      r + [Field(k, v)]
    else
      assert Keys(r[i := Field(k, v)]) == Keys(r);
      r[i := Field(k, v)]
  }

  lemma AssignLookup(r: Record, k: string, v: Value, j: string)
    ensures Lookup(Assign(r, k, v), j) == if j == k then Some(v) else Lookup(r, j)
  {
    var ks := Keys(r);
    if k !in ks {
      FirstIndexAppend(ks, k, j);
    }
  }

  lemma FirstIndexAppend(ks: seq<string>, x: string, k: string)
    requires x !in ks
    ensures FirstIndex(ks + [x], k) == if k == x then |ks| else FirstIndex(ks, k)
  {
    var i := FirstIndex(ks + [x], k);
    if k == x {
      assert (ks + [x])[|ks|] == k;
      assert (ks + [x])[..|ks|] == ks;
    } else if 0 <= i {
      assert (ks + [x])[..i] == ks[..i];
      var j := FirstIndex(ks, k);
      assert ks[j] == (ks + [x])[j];
    } else {
      assert forall t :: 0 <= t < |ks| ==> ks[t] == (ks + [x])[t];
    }
  }

  lemma AssignDistinct(r: Record, k: string, v: Value)
    requires DistinctKeys(r)
    ensures DistinctKeys(Assign(r, k, v))
  {
    var r' := Assign(r, k, v);
    forall i, j | 0 <= i < j < |r'| ensures r'[i].key != r'[j].key {
      assert r'[i].key == Keys(r')[i] && r'[j].key == Keys(r')[j];
      if k !in Keys(r) && j == |r| {
        assert r[i].key == Keys(r)[i];
      } else {
        assert r[i].key == Keys(r)[i] && r[j].key == Keys(r)[j];
      }
    }
  }

  /** The value of the last field named `k` in `src`: what a sequence of writes leaves behind. */
  function LastWrite(src: Record, k: string): (o: Option<Value>)
    ensures o.None? <==> k !in Keys(src)
  {
    if src == [] then None
    else if src[|src| - 1].key == k then Some(src[|src| - 1].value)
    else
      assert Keys(src) == Keys(src[..|src| - 1]) + [src[|src| - 1].key];
      LastWrite(src[..|src| - 1], k)
  }

  /** Appends to `ks`, in order, each element of `xs` not already present. */
  function AddKeys(ks: seq<string>, xs: seq<string>): (r: seq<string>)
    ensures ks <= r
    ensures forall x :: x in r <==> x in ks || x in xs
    ensures Distinct(ks) ==> Distinct(r)
  {
    if xs == [] then ks
    else
      var a := AddKeys(ks, xs[..|xs| - 1]);
      if xs[|xs| - 1] in a then a else a + [xs[|xs| - 1]]
  }

  /**
   * `Object.assign(r, src)`: the fields of `src` written into `r` one after another.
   * Keys new to `r` are appended in the order they were first written; nothing
   * else enters the record.
   */
  function AssignAll(r: Record, src: Record): (r': Record)
    ensures Keys(r') == AddKeys(Keys(r), Keys(src))
  {
    if src == [] then r
    else
      var init := src[..|src| - 1];
      var last := src[|src| - 1];
      assert Keys(src) == Keys(init) + [last.key];
      Assign(AssignAll(r, init), last.key, last.value)
  }

  /** After `Object.assign(r, src)` each key holds its last value written by `src`, or else its value in `r`. */
  lemma {:induction false} AssignAllLookup(r: Record, src: Record, k: string)
    ensures Lookup(AssignAll(r, src), k) == if k in Keys(src) then LastWrite(src, k) else Lookup(r, k)
  {
    if src != [] {
      var init := src[..|src| - 1];
      var last := src[|src| - 1];
      assert Keys(src) == Keys(init) + [last.key];
      AssignAllLookup(r, init, k);
      AssignLookup(AssignAll(r, init), last.key, last.value, k);
    }
  }

  /** Every field of `Object.assign(r, src)` comes from `r` or from `src`. */
  lemma {:induction false} AssignAllFrom(r: Record, src: Record, f: Field)
    requires f in AssignAll(r, src)
    ensures f in r || f in src
  {
    if src != [] {
      var init := src[..|src| - 1];
      if f in AssignAll(r, init) {
        AssignAllFrom(r, init, f);
      }
    }
  }

  lemma {:induction false} AssignAllDistinct(r: Record, src: Record)
    requires DistinctKeys(r)
    ensures DistinctKeys(AssignAll(r, src))
  {
    if src != [] {
      var init := src[..|src| - 1];
      AssignAllDistinct(r, init);
      AssignDistinct(AssignAll(r, init), src[|src| - 1].key, src[|src| - 1].value);
    }
  }

  lemma {:induction false} AssignAllAppend(r: Record, a: Record, b: Record)
    ensures AssignAll(r, a + b) == AssignAll(AssignAll(r, a), b)
  {
    if b == [] {
      assert a + b == a;
    } else {
      var b' := b[..|b| - 1];
      var last := b[|b| - 1];
      assert (a + b)[..|a + b| - 1] == a + b';
      assert (a + b)[|a + b| - 1] == last;
      AssignAllAppend(r, a, b');
      var x := AssignAll(r, a + b');
      assert AssignAll(r, a + b) == Assign(x, last.key, last.value);
    }
  }

  /** Adding the keys of a deduplicated list is adding the list itself. */
  lemma {:induction false} AddKeysAssoc(ks: seq<string>, js: seq<string>, xs: seq<string>)
    ensures AddKeys(ks, AddKeys(js, xs)) == AddKeys(AddKeys(ks, js), xs)
  {
    if xs != [] {
      var x := xs[|xs| - 1];
      var a := AddKeys(js, xs[..|xs| - 1]);
      AddKeysAssoc(ks, js, xs[..|xs| - 1]);
      if x !in a {
        assert (a + [x])[..|a + [x]| - 1] == a;
      }
    }
  }

  /** Two records with distinct keys, the same key order and the same lookups are equal. */
  lemma RecordExt(a: Record, b: Record)
    requires DistinctKeys(a) && DistinctKeys(b)
    requires Keys(a) == Keys(b)
    requires forall k :: Lookup(a, k) == Lookup(b, k)
    ensures a == b
  {
    forall i | 0 <= i < |a| ensures a[i] == b[i] {
      assert a[i].key == Keys(a)[i] == Keys(b)[i] == b[i].key;
      LookupAt(a, i);
      LookupAt(b, i);
    }
  }

  /** In a record with distinct keys, the last write to a key is its only write. */
  lemma {:induction false} LastWriteAt(r: Record, i: nat)
    requires DistinctKeys(r) && i < |r|
    ensures LastWrite(r, r[i].key) == Some(r[i].value)
  {
    if i < |r| - 1 {
      LastWriteAt(r[..|r| - 1], i);
    }
  }

  /** Copying an object built by `Object.assign({}, xs)` writes the same as copying `xs` itself. */
  lemma AssignAllCollapsed(r: Record, xs: Record)
    requires DistinctKeys(r)
    ensures AssignAll(r, AssignAll([], xs)) == AssignAll(r, xs)
  {
    var d := AssignAll([], xs);
    AssignAllDistinct([], xs);
    AssignAllDistinct(r, d);
    AssignAllDistinct(r, xs);
    AddKeysAssoc(Keys(r), [], Keys(xs));
    forall k ensures Lookup(AssignAll(r, d), k) == Lookup(AssignAll(r, xs), k) {
      CollapsedLookup(r, xs, k);
    }
    RecordExt(AssignAll(r, d), AssignAll(r, xs));
  }

  lemma CollapsedLookup(r: Record, xs: Record, k: string)
    ensures Lookup(AssignAll(r, AssignAll([], xs)), k) == Lookup(AssignAll(r, xs), k)
  {
    var d := AssignAll([], xs);
    AssignAllDistinct([], xs);
    AssignAllLookup(r, d, k);
    AssignAllLookup(r, xs, k);
    AssignAllLookup([], xs, k);
    LastWriteIsLookup(d, k);
  }

  /** With distinct keys, the last write to a key is the one lookup finds. */
  lemma LastWriteIsLookup(d: Record, k: string)
    requires DistinctKeys(d)
    ensures LastWrite(d, k) == Lookup(d, k)
  {
    if k in Keys(d) {
      var i :| 0 <= i < |d| && Keys(d)[i] == k;
      LastWriteAt(d, i);
      LookupAt(d, i);
    }
  }

  /** Removing the field at `k` from a record with distinct keys removes exactly that field. */
  lemma RemoveAt(b: Record, k: nat)
    requires DistinctKeys(b) && k < |b|
    ensures DistinctKeys(b[..k] + b[k + 1..])
    ensures forall f :: f in b[..k] + b[k + 1..] <==> f in b && f != b[k]
  {
    var b' := b[..k] + b[k + 1..];
    forall i, j | 0 <= i < j < |b'| ensures b'[i].key != b'[j].key {
      var i0 := if i < k then i else i + 1;
      var j0 := if j < k then j else j + 1;
      assert b'[i] == b[i0] && b'[j] == b[j0];
    }
    forall f ensures f in b' <==> f in b && f != b[k] {
      RemoveAtField(b, k, f);
    }
  }

  lemma RemoveAtField(b: Record, k: nat, f: Field)
    requires DistinctKeys(b) && k < |b|
    ensures f in b[..k] + b[k + 1..] <==> f in b && f != b[k]
  {
    var b' := b[..k] + b[k + 1..];
    if f in b' {
      var t :| 0 <= t < |b'| && b'[t] == f;
      var t0 := if t < k then t else t + 1;
      assert b[t0] == f;
    }
    if f in b && f != b[k] {
      var t :| 0 <= t < |b| && b[t] == f;
      if t < k {
        assert b'[t] == f;
      } else {
        assert b'[t - 1] == f;
      }
    }
  }

  lemma NoFieldsEmpty(b: Record)
    ensures (forall f :: f !in b) ==> b == []
  {
    if b != [] {
      assert b[0] in b;
    }
  }

  /** Two records with distinct keys that hold the same fields are permutations of each other. */
  lemma {:induction false} SameFieldsPermutation(a: Record, b: Record)
    requires DistinctKeys(a) && DistinctKeys(b)
    requires forall f :: f in a <==> f in b
    ensures multiset(a) == multiset(b)
  {
    if a == [] {
      NoFieldsEmpty(b);
    } else {
      var x := a[|a| - 1];
      var init := a[..|a| - 1];
      assert x in a;
      var k :| 0 <= k < |b| && b[k] == x;
      RemoveAt(b, k);
      RemoveAt(a, |a| - 1);
      assert a[..|a| - 1] + a[|a|..] == init;
      assert DistinctKeys(init);
      assert forall f :: f in init <==> f in a && f != x;
      SameFieldsPermutation(init, b[..k] + b[k + 1..]);
      MultisetRemove(a, |a| - 1);
      MultisetRemove(b, k);
    }
  }

  lemma MultisetRemove(b: Record, k: nat)
    requires k < |b|
    ensures multiset(b) == multiset(b[..k] + b[k + 1..]) + multiset{b[k]}
  {
    assert b == b[..k] + [b[k]] + b[k + 1..];
  }
}
