/**
  A JavaScript `Map` with string keys: a finite map together with the order in
  which its keys were first inserted, which is the order `values()` yields.
 */
module JsMaps {
  import opened Basics

  datatype JsMap<V> = JsMap(keys: seq<string>, entries: map<string, V>) {

    /** Keys are listed once each, and exactly the stored keys are listed. */
    predicate Valid()
    {
      && (forall i, j :: 0 <= i < j < |keys| ==> keys[i] != keys[j])
      && (forall i :: 0 <= i < |keys| ==> keys[i] in entries)
      && (forall k :: k in entries ==> k in keys)
    }

    /** `Map.prototype.get`. */
    function Get(k: string): (r: Option<V>)
      ensures r.Some? <==> k in entries
      ensures r.Some? ==> r.value == entries[k]
    {
      if k in entries then Some(entries[k]) else None
    }

    /**
      `Map.prototype.set`: a new key goes to the end of the iteration order,
      an existing key keeps its place.
     */
    function Set(k: string, v: V): (r: JsMap<V>)
      ensures r.entries == entries[k := v]
      ensures k in entries ==> r.keys == keys
      ensures k !in entries ==> r.keys == keys + [k]
      ensures Valid() ==> r.Valid()
    {
      if k in entries then JsMap(keys, entries[k := v]) else JsMap(keys + [k], entries[k := v])
    }

    /** `Map.prototype.delete`: the key leaves both the map and the iteration order. */
    function Delete(k: string): (r: JsMap<V>)
      ensures r.entries == entries - {k}
      ensures forall x :: x in r.keys <==> x in keys && x != k
      ensures Valid() ==> r.Valid()
    {
      RemoveKeyKeepsDistinct(keys, k);
      var rest := RemoveKey(keys, k);
      assert forall i :: 0 <= i < |rest| ==> rest[i] in rest;
      JsMap(rest, entries - {k})
    }

    /** `Array.from(map.values())`: the stored values in key order. */
    function Values(): (r: seq<V>)
      ensures Valid() ==> |r| == |keys|
      ensures Valid() ==> forall i :: 0 <= i < |keys| ==> r[i] == entries[keys[i]]
    {
      ValuesOf(keys, entries)
    }
  }

  /** The empty `new Map()`. */
  function Empty<V>(): (r: JsMap<V>)
    ensures r.Valid() && r.entries == map[]
  {
    JsMap([], map[])
  }

  /** The values of `m` stored under the listed keys, skipping unstored keys. */
  function ValuesOf<V>(ks: seq<string>, m: map<string, V>): (r: seq<V>)
    ensures (forall i :: 0 <= i < |ks| ==> ks[i] in m) ==> |r| == |ks|
    ensures (forall i :: 0 <= i < |ks| ==> ks[i] in m) ==> forall i :: 0 <= i < |ks| ==> r[i] == m[ks[i]]
  {
    if |ks| == 0 then []
    else if ks[0] in m then [m[ks[0]]] + ValuesOf(ks[1..], m)
    else ValuesOf(ks[1..], m)
  }

  function RemoveKey(ks: seq<string>, k: string): (r: seq<string>)
    ensures forall x :: x in r <==> x in ks && x != k
  {
    if |ks| == 0 then []
    else if ks[0] == k then RemoveKey(ks[1..], k)
    else [ks[0]] + RemoveKey(ks[1..], k)
  }

  predicate Distinct(ks: seq<string>)
  {
    forall i, j :: 0 <= i < j < |ks| ==> ks[i] != ks[j]
  }

  lemma {:induction false} RemoveKeyKeepsDistinct(ks: seq<string>, k: string)
    ensures Distinct(ks) ==> Distinct(RemoveKey(ks, k))
  {
    if |ks| > 0 {
      RemoveKeyKeepsDistinct(ks[1..], k);
      if Distinct(ks) {
        assert Distinct(ks[1..]) by {
          forall i, j | 0 <= i < j < |ks[1..]|
            ensures ks[1..][i] != ks[1..][j]
          {
            assert ks[1..][i] == ks[i + 1] && ks[1..][j] == ks[j + 1];
          }
        }
        if ks[0] != k {
          var rest := RemoveKey(ks[1..], k);
          assert ks[0] !in ks[1..];
          assert ks[0] !in rest;
          var r := [ks[0]] + rest;
          forall i, j | 0 <= i < j < |r|
            ensures r[i] != r[j]
          {
            if i == 0 {
              assert r[j] == rest[j - 1];
            } else {
              assert r[i] == rest[i - 1] && r[j] == rest[j - 1];
            }
          }
        }
      }
    }
  }

  /** In a valid map, a value is listed exactly when some stored key holds it. */
  lemma ValuesMembers<V>(m: JsMap<V>)
    requires m.Valid()
    ensures forall v :: v in m.Values() <==> exists k :: k in m.entries && m.entries[k] == v
  {
    var vs := m.Values();
    forall v | v in vs
      ensures exists k :: k in m.entries && m.entries[k] == v
    {
      var i :| 0 <= i < |vs| && vs[i] == v;
      assert m.entries[m.keys[i]] == v;
    }
    forall v | exists k :: k in m.entries && m.entries[k] == v
      ensures v in vs
    {
      var k :| k in m.entries && m.entries[k] == v;
      var i :| 0 <= i < |m.keys| && m.keys[i] == k;
      assert vs[i] == v;
    }
  }

  /** Setting a new key appends its value to the iteration. */
  lemma ValuesSetNew<V>(m: JsMap<V>, k: string, v: V)
    requires m.Valid() && k !in m.entries
    ensures m.Set(k, v).Values() == m.Values() + [v]
  {
    var r := m.Set(k, v);
    assert r.Valid();
    forall i | 0 <= i < |m.keys|
      ensures r.Values()[i] == m.Values()[i]
    {
      assert m.keys[i] != k;
    }
  }

  /** Setting an existing key replaces its value in place. */
  lemma ValuesSetExisting<V>(m: JsMap<V>, k: string, v: V) returns (i: nat)
    requires m.Valid() && k in m.entries
    ensures i < |m.keys| && m.keys[i] == k
    ensures m.Set(k, v).Values() == m.Values()[i := v]
  {
    i :| 0 <= i < |m.keys| && m.keys[i] == k;
    var r := m.Set(k, v);
    assert r.Valid();
    forall j | 0 <= j < |m.keys|
      ensures r.Values()[j] == m.Values()[i := v][j]
    {
      if j != i {
        assert m.keys[j] != k;
      }
    }
  }

  lemma {:induction false} RemoveKeyAt(ks: seq<string>, i: nat)
    requires Distinct(ks) && i < |ks|
    ensures RemoveKey(ks, ks[i]) == ks[..i] + ks[i + 1..]
  {
    if i == 0 {
      RemoveKeyAbsent(ks[1..], ks[0]);
    } else {
      assert Distinct(ks[1..]) by {
        forall a, b | 0 <= a < b < |ks[1..]|
          ensures ks[1..][a] != ks[1..][b]
        {
          assert ks[1..][a] == ks[a + 1] && ks[1..][b] == ks[b + 1];
        }
      }
      RemoveKeyAt(ks[1..], i - 1);
      assert ks[1..][i - 1] == ks[i];
      assert ks[0] != ks[i];
      assert ks[..i] == [ks[0]] + ks[1..][..i - 1];
      assert ks[i + 1..] == ks[1..][i..];
    }
  }

  lemma {:induction false} RemoveKeyAbsent(ks: seq<string>, k: string)
    requires k !in ks
    ensures RemoveKey(ks, k) == ks
  {
    if |ks| > 0 {
      RemoveKeyAbsent(ks[1..], k);
      assert ks == [ks[0]] + ks[1..];
    }
  }

  lemma {:induction false} ValuesOfAppend<V>(a: seq<string>, b: seq<string>, m: map<string, V>)
    ensures ValuesOf(a + b, m) == ValuesOf(a, m) + ValuesOf(b, m)
  {
    if |a| == 0 {
      assert a + b == b;
    } else {
      ValuesOfAppend(a[1..], b, m);
      assert (a + b)[1..] == a[1..] + b;
    }
  }

  lemma {:induction false} ValuesOfWithout<V>(ks: seq<string>, m: map<string, V>, k: string)
    requires k !in ks
    ensures ValuesOf(ks, m - {k}) == ValuesOf(ks, m)
  {
    if |ks| > 0 {
      ValuesOfWithout(ks[1..], m, k);
    }
  }

  /** Dropping the `i`-th of distinct stored keys, and its entry, drops the `i`-th value. */
  lemma ValuesOfDeleteAt<V>(ks: seq<string>, e: map<string, V>, i: nat)
    requires i < |ks|
    requires forall j :: 0 <= j < |ks| ==> ks[j] in e
    requires forall j :: 0 <= j < |ks| && j != i ==> ks[j] != ks[i]
    ensures ValuesOf(ks[..i] + ks[i + 1..], e - {ks[i]}) == ValuesOf(ks, e)[..i] + ValuesOf(ks, e)[i + 1..]
  {
    var k, front, back := ks[i], ks[..i], ks[i + 1..];
    assert k !in front && k !in back;
    ValuesOfAppend(front, back, e - {k});
    ValuesOfWithout(front, e, k);
    ValuesOfWithout(back, e, k);
    SplitAround(ks, i);
    ValuesOfAppend(front + [k], back, e);
    ValuesOfAppend(front, [k], e);
    var vf, vb := ValuesOf(front, e), ValuesOf(back, e);
    assert ValuesOf([k], e) == [e[k]];
    assert |vf| == i;
    SliceAround(vf, e[k], vb);
  }

  /** Deleting a stored key removes its value from the iteration, keeping the rest in order. */
  lemma ValuesDelete<V>(m: JsMap<V>, k: string) returns (i: nat)
    requires m.Valid() && k in m.entries
    ensures i < |m.keys| && m.keys[i] == k
    ensures m.Delete(k).Values() == m.Values()[..i] + m.Values()[i + 1..]
  {
    i :| 0 <= i < |m.keys| && m.keys[i] == k;
    RemoveKeyAt(m.keys, i);
    ValuesOfDeleteAt(m.keys, m.entries, i);
  }

  lemma SplitAround<T>(s: seq<T>, i: nat)
    requires i < |s|
    ensures s == s[..i] + [s[i]] + s[i + 1..]
  {
  }

  lemma SliceAround<T>(a: seq<T>, x: T, b: seq<T>)
    ensures (a + [x] + b)[..|a|] == a && (a + [x] + b)[|a| + 1..] == b
  {
  }
}
