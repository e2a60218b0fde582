/** Configuration merging and diffing: `deep_update` and `get_diff_dict`. */
module MergeUtils {
  import opened Json

  type Dict = map<string, JsonValue>

  /** Both sides hold a dict under `k`: the case in which both operations recurse. */
  predicate BothDicts(a: Dict, b: Dict, k: string) {
    k in a && k in b && a[k].Object? && b[k].Object?
  }

  /** The value `target` holds after `deep_update(target, source)`. Keys only in
      `target` keep their values; where both sides hold a dict under a key the
      two are merged recursively; otherwise the source value replaces the
      target value wholesale. */
  function Merge(target: Dict, source: Dict): (r: Dict)
    decreases Object(source)
    ensures r.Keys == target.Keys + source.Keys
    ensures forall k :: k in target && k !in source ==> r[k] == target[k]
    ensures forall k :: k in source && !BothDicts(target, source, k) ==> r[k] == source[k]
    ensures forall k :: BothDicts(target, source, k) ==>
              r[k].Object? && r[k].fields.Keys == target[k].fields.Keys + source[k].fields.Keys
  {
    map k | k in target.Keys + source.Keys ::
      if k in source then
        if BothDicts(target, source, k) then Object(Merge(target[k].fields, source[k].fields))
        else source[k]
      else target[k]
  }

  /** A mutable Python dict used as the `target` of `deep_update`. */
  class ConfigDict {
    var fields: Dict

    constructor (init: Dict)
      ensures fields == init
    {
      fields := init;
    }

    /** `deep_update(self, source)`: merges `source` into this dict in place,
        key by key, and returns this same object. */
    method DeepUpdate(source: Dict) returns (r: ConfigDict)
      modifies this
      decreases Object(source)
      ensures r == this
      ensures fields == Merge(old(fields), source)
    {
      var pending := source.Keys;
      while pending != {}
        invariant pending <= source.Keys
        invariant fields == Merge(old(fields), source - pending)
        decreases pending
      {
        var key :| key in pending;
        var value := source[key];
        MergeAddKey(old(fields), source, source - pending, key);
        DoneAddKey(source, pending, key);
        if key in fields && fields[key].Object? && value.Object? {
          var nested := new ConfigDict(fields[key].fields);
          var _ := nested.DeepUpdate(value.fields);
          fields := fields[key := Object(nested.fields)];
        } else {
          fields := fields[key := value];
        }
        pending := pending - {key};
      }
      assert source - pending == source;
      r := this;
    }
  }

  /** Moving one key from `pending` to the merged part of `source`. */
  lemma DoneAddKey(source: Dict, pending: set<string>, key: string)
    requires key in pending && pending <= source.Keys
    ensures (source - pending)[key := source[key]] == source - (pending - {key})
  {
  }

  /** Merging one more source key changes the merged value under that key only. */
  lemma MergeAddKey(target: Dict, source: Dict, done: Dict, key: string)
    requires key in source && key !in done
    requires forall k :: k in done ==> k in source && done[k] == source[k]
    ensures var m := Merge(target, done);
            (key in m <==> key in target) && (key in m ==> m[key] == target[key])
    ensures var m := Merge(target, done);
            var v := source[key];
            Merge(target, done[key := v]) ==
              m[key := if key in m && m[key].Object? && v.Object? then Object(Merge(m[key].fields, v.fields)) else v]
  {
    var m := Merge(target, done);
    var v := source[key];
    var grown := done[key := v];
    var m2 := Merge(target, grown);
    var expected := m[key := if key in m && m[key].Object? && v.Object? then Object(Merge(m[key].fields, v.fields)) else v];
    assert m2.Keys == expected.Keys;
    forall k | k in m2 ensures m2[k] == expected[k] {
      if k != key {
        assert (k in grown <==> k in done) && (k in done ==> grown[k] == done[k]);
        assert BothDicts(target, grown, k) == BothDicts(target, done, k);
      }
    }
  }

  /** `get_diff_dict(base, modified)`: the keys of `modified` that are new or
      whose values differ from `base`. Where both hold a dict the key carries
      the recursive diff, and only when that diff is non-empty. Keys only in
      `base` are never emitted. */
  function Diff(base: Dict, modified: Dict): (r: Dict)
    decreases Object(modified)
    ensures r.Keys <= modified.Keys
    ensures forall k :: k in modified && k !in base ==> k in r && r[k] == modified[k]
    ensures forall k :: k in modified && k in base && !BothDicts(base, modified, k) ==>
              (k in r <==> !PyEq(modified[k], base[k])) && (k in r ==> r[k] == modified[k])
    ensures forall k :: k in r && BothDicts(base, modified, k) ==> r[k].Object? && r[k].fields != map[]
  {
    var nested := map k | k in modified.Keys && BothDicts(base, modified, k) ::
      Diff(base[k].fields, modified[k].fields);
    map k | k in modified.Keys &&
            (k !in base || (k in nested && nested[k] != map[]) || (k !in nested && !PyEq(modified[k], base[k]))) ::
      if k in nested then Object(nested[k]) else modified[k]
  }

  /** The nested diff under a key where both sides hold dicts. */
  lemma DiffNested(base: Dict, modified: Dict, k: string)
    requires BothDicts(base, modified, k)
    ensures var nd := Diff(base[k].fields, modified[k].fields);
            (k in Diff(base, modified) <==> nd != map[]) &&
            (k in Diff(base, modified) ==> Diff(base, modified)[k] == Object(nd))
  {
  }

  /** `modified` keeps every key of `base`, recursively wherever both hold dicts:
      nothing was deleted. */
  predicate KeepsKeys(base: Dict, modified: Dict)
    decreases Object(modified)
  {
    && base.Keys <= modified.Keys
    && forall k | k in base :: BothDicts(base, modified, k) ==> KeepsKeys(base[k].fields, modified[k].fields)
  }

  /** A dict equal to `base` yields an empty diff. */
  lemma {:induction false} DiffOfEqualIsEmpty(base: Dict, modified: Dict)
    requires PyEqFields(base, modified)
    ensures Diff(base, modified) == map[]
    decreases Object(modified)
  {
    forall k | k in modified ensures k !in Diff(base, modified) {
      if BothDicts(base, modified, k) {
        DiffOfEqualIsEmpty(base[k].fields, modified[k].fields);
        DiffNested(base, modified, k);
      } else {
        PyEqSym(base[k], modified[k]);
      }
    }
  }

  /** `get_diff_dict(d, d)` is empty. */
  lemma DiffOfSelfIsEmpty(d: Dict)
    ensures Diff(d, d) == map[]
  {
    PyEqRefl(Object(d));
    DiffOfEqualIsEmpty(d, d);
  }

  /** Where both sides hold dicts, `deep_update(base, diff)` holds the nested
      base updated with the nested diff (an omitted empty diff changes nothing). */
  lemma ApplyDiffNested(base: Dict, modified: Dict, k: string)
    requires BothDicts(base, modified, k)
    ensures Merge(base, Diff(base, modified))[k] ==
            Object(Merge(base[k].fields, Diff(base[k].fields, modified[k].fields)))
  {
    DiffNested(base, modified, k);
    var nd := Diff(base[k].fields, modified[k].fields);
    if nd == map[] {
      assert Merge(base[k].fields, nd) == base[k].fields;
    }
  }

  /** Where `base` and `modified` do not both hold dicts, `deep_update(base, diff)`
      holds a value equal to the modified one. */
  lemma ApplyDiffFlat(base: Dict, modified: Dict, k: string)
    requires k in modified && !BothDicts(base, modified, k)
    ensures k in Merge(base, Diff(base, modified))
    ensures PyEq(Merge(base, Diff(base, modified))[k], modified[k])
  {
    var d := Diff(base, modified);
    if k in base && k !in d {
      PyEqSym(modified[k], base[k]);
    } else {
      PyEqRefl(modified[k]);
    }
  }

  /** Applying the diff to `base` with `deep_update` reproduces `modified`
      (by Python `==`) exactly when nothing was deleted. */
  lemma {:induction false} DiffRoundTrip(base: Dict, modified: Dict)
    ensures PyEqFields(Merge(base, Diff(base, modified)), modified) <==> KeepsKeys(base, modified)
    decreases Object(modified)
  {
    var r := Merge(base, Diff(base, modified));
    forall k | BothDicts(base, modified, k)
      ensures PyEq(r[k], modified[k]) <==> KeepsKeys(base[k].fields, modified[k].fields)
    {
      ApplyDiffNested(base, modified, k);
      DiffRoundTrip(base[k].fields, modified[k].fields);
    }
    if KeepsKeys(base, modified) {
      assert r.Keys == modified.Keys;
      forall k | k in r ensures PyEq(r[k], modified[k]) {
        if !BothDicts(base, modified, k) {
          ApplyDiffFlat(base, modified, k);
        }
      }
      assert PyEqFields(r, modified);
    } else if !(base.Keys <= modified.Keys) {
      var k :| k in base && k !in modified;
      assert k in r;
    } else {
      var k :| k in base && BothDicts(base, modified, k) && !KeepsKeys(base[k].fields, modified[k].fields);
      assert !PyEq(r[k], modified[k]);
    }
  }

  /** Merging a dict into itself changes nothing. */
  lemma {:induction false} MergeSelf(d: Dict)
    ensures Merge(d, d) == d
    decreases Object(d)
  {
    forall k | BothDicts(d, d, k) ensures Merge(d, d)[k] == d[k] {
      MergeSelf(d[k].fields);
    }
  }

  /** `deep_update` is idempotent: applying the same source twice is the same
      as applying it once. */
  lemma {:induction false} MergeIdempotent(target: Dict, source: Dict)
    ensures Merge(Merge(target, source), source) == Merge(target, source)
    decreases Object(source)
  {
    var m := Merge(target, source);
    forall k | k in source ensures Merge(m, source)[k] == m[k] {
      if BothDicts(target, source, k) {
        MergeIdempotent(target[k].fields, source[k].fields);
      } else if source[k].Object? {
        MergeSelf(source[k].fields);
      }
    }
  }
}
