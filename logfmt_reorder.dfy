/**
 * `reorderKeys` of packages/logging/src/logfmt-transport.ts: `time`,
 * `level`, `name` and `msg` are moved to the front in that order, each only
 * when its value is not `undefined`, and every other property follows in its
 * original order.
 */
module LogfmtReorder {
  import opened Wrappers
  import opened LogObjects

  /** The keys moved to the front, in the order they are written. */
  const PriorityKeys: seq<string> := ["time", "level", "name", "msg"]

  /** `...(k !== undefined && { k })`: the property `k` alone, when `obj[k]` is defined. */
  function Pick(obj: Record, k: string): (r: Record)
    ensures |r| <= 1
    ensures forall f :: f in r <==> f.key == k && Lookup(obj, k) == Some(f.value) && !f.value.Undefined?
  {
    match Lookup(obj, k)
    case Some(v) => if v.Undefined? then [] else [Field(k, v)]
    case None => []
  }

  /** The picked properties for the keys `ks`, one spread after another. */
  function Front(obj: Record, ks: seq<string>): Record {
    if ks == [] then [] else Pick(obj, ks[0]) + Front(obj, ks[1..])
  }

  /** `...rest`: the properties left after destructuring out the priority keys, in their order. */
  function Rest(obj: Record): (r: Record)
    ensures forall f :: f in r <==> f in obj && f.key !in PriorityKeys
  {
    if obj == [] then []
    else
      var f := obj[|obj| - 1];
      if f.key in PriorityKeys then Rest(obj[..|obj| - 1]) else Rest(obj[..|obj| - 1]) + [f]
  }

  function ReorderKeys(obj: Record): Record {
    Front(obj, PriorityKeys) + Rest(obj)
  }

  /** Where a key stands among the priority keys. */
  function Rank(k: string): int {
    FirstIndex(PriorityKeys, k)
  }

  // ---------------------------------------------------------------------------
  // Properties.

  /** The picked properties carry keys of `ks`, in the order of `ks`, each looked up in `obj`. */
  lemma {:induction false} FrontOrdered(obj: Record, ks: seq<string>)
    requires Distinct(ks)
    ensures forall f :: f in Front(obj, ks) ==>
              f.key in ks && Lookup(obj, f.key) == Some(f.value) && !f.value.Undefined?
    ensures forall i, j :: 0 <= i < j < |Front(obj, ks)| ==>
              FirstIndex(ks, Front(obj, ks)[i].key) < FirstIndex(ks, Front(obj, ks)[j].key)
  {
    if ks != [] {
      var p := Pick(obj, ks[0]);
      var rest := Front(obj, ks[1..]);
      FrontOrdered(obj, ks[1..]);
      forall f | f in rest ensures FirstIndex(ks, f.key) == 1 + FirstIndex(ks[1..], f.key) {
        assert f.key != ks[0];
      }
      var fr := Front(obj, ks);
      forall i, j | 0 <= i < j < |fr| ensures FirstIndex(ks, fr[i].key) < FirstIndex(ks, fr[j].key) {
        assert fr[j] == rest[j - |p|];
        assert fr[j] in rest;
        if i < |p| {
          assert fr[i] in p;
        } else {
          assert fr[i] == rest[i - |p|];
          assert fr[i] in rest;
        }
      }
    }
  }

  /** The priority keys come first, in the order time, level, name, msg; the rest follow. */
  lemma ReorderOrdered(obj: Record)
    ensures forall i, j :: 0 <= i < j < |ReorderKeys(obj)| && ReorderKeys(obj)[j].key in PriorityKeys ==>
              ReorderKeys(obj)[i].key in PriorityKeys && Rank(ReorderKeys(obj)[i].key) < Rank(ReorderKeys(obj)[j].key)
  {
    var fr := Front(obj, PriorityKeys);
    var r := ReorderKeys(obj);
    FrontOrdered(obj, PriorityKeys);
    forall t | |fr| <= t < |r| ensures r[t].key !in PriorityKeys {
      assert r[t] == Rest(obj)[t - |fr|];
      assert r[t] in Rest(obj);
    }
    forall i, j | 0 <= i < j < |r| && r[j].key in PriorityKeys
      ensures r[i].key in PriorityKeys && Rank(r[i].key) < Rank(r[j].key)
    {
      assert r[i] == fr[i] && r[j] == fr[j];
      assert fr[i] in fr;
    }
  }

  /** Every picked property carries one of the keys asked for. */
  lemma {:induction false} FrontFrom(obj: Record, ks: seq<string>)
    ensures forall f :: f in Front(obj, ks) ==> f.key in ks
  {
    if ks != [] {
      FrontFrom(obj, ks[1..]);
    }
  }

  lemma FrontKeys(obj: Record, ks: seq<string>, k: string)
    requires k !in ks
    ensures k !in Keys(Front(obj, ks))
  {
    var fr := Front(obj, ks);
    FrontFrom(obj, ks);
    forall i | 0 <= i < |fr| ensures Keys(fr)[i] != k {
      assert fr[i] in fr;
    }
  }

  /** The picked value for a priority key is its value in `obj`, unless that is undefined. */
  lemma {:induction false} FrontLookup(obj: Record, ks: seq<string>, k: string)
    requires k in ks
    ensures Lookup(Front(obj, ks), k) == if Lookup(obj, k) == Some(Undefined) then None else Lookup(obj, k)
  {
    var p := Pick(obj, ks[0]);
    LookupAppend(p, Front(obj, ks[1..]), k);
    if ks[0] == k {
      if Lookup(obj, k).Some? && !Lookup(obj, k).value.Undefined? {
        assert Keys(p) == [k];
      } else {
        assert p == [];
        if k in ks[1..] {
          FrontLookup(obj, ks[1..], k);
        } else {
          FrontKeys(obj, ks[1..], k);
        }
      }
    } else {
      assert k !in Keys(p);
      FrontLookup(obj, ks[1..], k);
    }
  }

  /** A key outside the priority keys is looked up in `rest` exactly as in `obj`. */
  lemma {:induction false} RestLookup(obj: Record, k: string)
    requires k !in PriorityKeys
    ensures Lookup(Rest(obj), k) == Lookup(obj, k)
  {
    if obj != [] {
      var init := obj[..|obj| - 1];
      var f := obj[|obj| - 1];
      RestLookup(init, k);
      assert init + [f] == obj;
      LookupAppend(init, [f], k);
      if f.key !in PriorityKeys {
        LookupAppend(Rest(init), [f], k);
        assert Keys(Rest(init)) == Keys(Rest(init));
      }
    }
  }

  /**
   * Every key reads the same after reordering, except a priority key whose
   * value is `undefined`, which is dropped.
   */
  lemma ReorderLookup(obj: Record, k: string)
    ensures Lookup(ReorderKeys(obj), k)
            == if k in PriorityKeys && Lookup(obj, k) == Some(Undefined) then None else Lookup(obj, k)
  {
    var fr := Front(obj, PriorityKeys);
    LookupAppend(fr, Rest(obj), k);
    if k in PriorityKeys {
      FrontLookup(obj, PriorityKeys, k);
      if k !in Keys(fr) {
        assert forall f :: f in Rest(obj) ==> f.key != k;
      }
    } else {
      FrontKeys(obj, PriorityKeys, k);
      RestLookup(obj, k);
    }
  }

  /** The rest of a concatenation is the concatenation of the rests. */
  lemma {:induction false} RestAppend(a: Record, b: Record)
    ensures Rest(a + b) == Rest(a) + Rest(b)
  {
    if b == [] {
      assert a + b == a;
    } else {
      var b' := b[..|b| - 1];
      assert (a + b)[..|a + b| - 1] == a + b';
      assert (a + b)[|a + b| - 1] == b[|b| - 1];
      RestAppend(a, b');
    }
  }

  /** A record without priority keys is its own rest. */
  lemma {:induction false} RestUnchanged(r: Record)
    requires forall f :: f in r ==> f.key !in PriorityKeys
    ensures Rest(r) == r
  {
    if r != [] {
      var init, f := r[..|r| - 1], r[|r| - 1];
      assert f in r;
      forall g | g in init ensures g.key !in PriorityKeys {
        assert g in r;
      }
      RestUnchanged(init);
      assert r == init + [f];
    }
  }

  /** A record of priority keys only has no rest. */
  lemma {:induction false} RestEmpty(r: Record)
    requires forall f :: f in r ==> f.key in PriorityKeys
    ensures Rest(r) == []
  {
    if r != [] {
      var init, f := r[..|r| - 1], r[|r| - 1];
      assert f in r;
      forall g | g in init ensures g.key in PriorityKeys {
        assert g in r;
      }
      RestEmpty(init);
    }
  }

  /** The other properties keep their relative order: reordering leaves the rest as it was. */
  lemma ReorderRest(obj: Record)
    ensures Rest(ReorderKeys(obj)) == Rest(obj)
  {
    FrontOrdered(obj, PriorityKeys);
    RestAppend(Front(obj, PriorityKeys), Rest(obj));
    RestEmpty(Front(obj, PriorityKeys));
    RestUnchanged(Rest(obj));
  }

  lemma {:induction false} FrontSame(a: Record, b: Record, ks: seq<string>)
    requires forall k :: k in ks ==> Pick(a, k) == Pick(b, k)
    ensures Front(a, ks) == Front(b, ks)
  {
    if ks != [] {
      assert ks[0] in ks;
      FrontSame(a, b, ks[1..]);
    }
  }

  /** Reordering an already reordered record changes nothing. */
  lemma ReorderIdempotent(obj: Record)
    ensures ReorderKeys(ReorderKeys(obj)) == ReorderKeys(obj)
  {
    var r := ReorderKeys(obj);
    forall k | k in PriorityKeys ensures Pick(r, k) == Pick(obj, k) {
      ReorderLookup(obj, k);
    }
    FrontSame(r, obj, PriorityKeys);
    ReorderRest(obj);
  }

  /** The property picked for a key of `ks` is among the picked properties. */
  lemma {:induction false} PickInFront(obj: Record, ks: seq<string>, k: string)
    requires k in ks
    ensures forall f :: f in Pick(obj, k) ==> f in Front(obj, ks)
  {
    if ks[0] != k {
      PickInFront(obj, ks[1..], k);
    }
  }

  /**
   * With distinct keys, the reordered record holds exactly the fields of
   * `obj` except priority keys whose value is `undefined`.
   */
  lemma ReorderFields(obj: Record, f: Field)
    requires DistinctKeys(obj)
    ensures f in ReorderKeys(obj) <==> f in obj && !(f.key in PriorityKeys && f.value.Undefined?)
  {
    FrontOrdered(obj, PriorityKeys);
    if f in obj && f.key in PriorityKeys && !f.value.Undefined? {
      var i :| 0 <= i < |obj| && obj[i] == f;
      LookupAt(obj, i);
      PickInFront(obj, PriorityKeys, f.key);
    }
  }

  lemma {:induction false} RestDistinct(obj: Record)
    requires DistinctKeys(obj)
    ensures DistinctKeys(Rest(obj))
  {
    if obj != [] {
      var init := obj[..|obj| - 1];
      var f := obj[|obj| - 1];
      RestDistinct(init);
      forall g | g in Rest(init) ensures g.key != f.key {
        var i :| 0 <= i < |init| && init[i] == g;
      }
      var r := Rest(init);
      if f.key !in PriorityKeys {
        forall i, j | 0 <= i < j < |r + [f]| ensures (r + [f])[i].key != (r + [f])[j].key {
          if j == |r| {
            assert r[i] in r;
          }
        }
      }
    }
  }

  /** Reordering keeps keys distinct. */
  lemma ReorderDistinct(obj: Record)
    requires DistinctKeys(obj)
    ensures DistinctKeys(ReorderKeys(obj))
  {
    var fr := Front(obj, PriorityKeys);
    var rest := Rest(obj);
    var r := ReorderKeys(obj);
    FrontOrdered(obj, PriorityKeys);
    RestDistinct(obj);
    forall i, j | 0 <= i < j < |r| ensures r[i].key != r[j].key {
      if j < |fr| {
        assert r[i] == fr[i] && r[j] == fr[j];
      } else if i < |fr| {
        assert r[i] == fr[i] && fr[i] in fr;
        assert r[j] == rest[j - |fr|] && rest[j - |fr|] in rest;
      } else {
        assert r[i] == rest[i - |fr|] && r[j] == rest[j - |fr|];
      }
    }
  }

  /**
   * When no priority key holds `undefined`, reordering a record with distinct
   * keys is a permutation of its fields.
   */
  lemma ReorderPermutation(obj: Record)
    requires DistinctKeys(obj)
    requires forall i :: 0 <= i < |obj| && obj[i].key in PriorityKeys ==> !obj[i].value.Undefined?
    ensures multiset(ReorderKeys(obj)) == multiset(obj)
  {
    ReorderDistinct(obj);
    forall f ensures f in ReorderKeys(obj) <==> f in obj {
      ReorderFields(obj, f);
    }
    SameFieldsPermutation(ReorderKeys(obj), obj);
  }

  /** When every key asked for is defined, the picked properties are exactly those keys with their values, in order. */
  lemma {:induction false} FrontDefined(obj: Record, ks: seq<string>, vs: seq<Value>)
    requires |ks| == |vs|
    requires forall i :: 0 <= i < |ks| ==> Lookup(obj, ks[i]) == Some(vs[i]) && !vs[i].Undefined?
    ensures Front(obj, ks) == seq(|ks|, i requires 0 <= i < |ks| => Field(ks[i], vs[i]))
  {
    if ks != [] {
      FrontDefined(obj, ks[1..], vs[1..]);
    }
  }

  /** When all four priority keys hold defined values, the front is those four fields in order. */
  lemma FrontAllFour(obj: Record, time: Value, level: Value, name: Value, msg: Value)
    requires Lookup(obj, "time") == Some(time) && !time.Undefined?
    requires Lookup(obj, "level") == Some(level) && !level.Undefined?
    requires Lookup(obj, "name") == Some(name) && !name.Undefined?
    requires Lookup(obj, "msg") == Some(msg) && !msg.Undefined?
    ensures Front(obj, PriorityKeys) == [Field("time", time), Field("level", level), Field("name", name), Field("msg", msg)]
  {
    var ks, vs := PriorityKeys, [time, level, name, msg];
    assert ks[0] == "time" && ks[1] == "level" && ks[2] == "name" && ks[3] == "msg";
    FrontDefined(obj, ks, vs);
  }

  /**
   * `{ name, msg, level, time }` with all four defined comes out as
   * `{ time, level, name, msg }`.
   */
  lemma {:induction false} ReorderAllFour(name: Value, msg: Value, level: Value, time: Value)
    requires !name.Undefined? && !msg.Undefined? && !level.Undefined? && !time.Undefined?
    ensures ReorderKeys([Field("name", name), Field("msg", msg), Field("level", level), Field("time", time)])
         == [Field("time", time), Field("level", level), Field("name", name), Field("msg", msg)]
  {
    var obj := [Field("name", name), Field("msg", msg), Field("level", level), Field("time", time)];
    FourKeys(name, msg, level, time);
    FourLookups(name, msg, level, time);
    PriorityOnly(obj, time, level, name, msg);
  }

  /** A record holding only priority keys, all four defined, comes out as time, level, name, msg. */
  lemma PriorityOnly(obj: Record, time: Value, level: Value, name: Value, msg: Value)
    requires forall f :: f in obj ==> f.key in PriorityKeys
    requires Lookup(obj, "time") == Some(time) && !time.Undefined?
    requires Lookup(obj, "level") == Some(level) && !level.Undefined?
    requires Lookup(obj, "name") == Some(name) && !name.Undefined?
    requires Lookup(obj, "msg") == Some(msg) && !msg.Undefined?
    ensures ReorderKeys(obj) == [Field("time", time), Field("level", level), Field("name", name), Field("msg", msg)]
  {
    RestEmpty(obj);
    FrontAllFour(obj, time, level, name, msg);
  }

  lemma FourKeys(name: Value, msg: Value, level: Value, time: Value)
    ensures forall f :: f in [Field("name", name), Field("msg", msg), Field("level", level), Field("time", time)]
                        ==> f.key in PriorityKeys
  {
  }

  lemma FourLookups(name: Value, msg: Value, level: Value, time: Value)
    ensures var obj := [Field("name", name), Field("msg", msg), Field("level", level), Field("time", time)];
            Lookup(obj, "time") == Some(time) && Lookup(obj, "level") == Some(level) &&
            Lookup(obj, "name") == Some(name) && Lookup(obj, "msg") == Some(msg)
  {
    var obj := [Field("name", name), Field("msg", msg), Field("level", level), Field("time", time)];
    assert Keys(obj) == ["name", "msg", "level", "time"];
  }
}
