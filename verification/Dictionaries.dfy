/** Dictionaries as both languages build them: entries in insertion order, no key twice. */
module Dictionaries {
  import opened Wire

  function IndexOf(vs: seq<Value>, v: Value): (k: nat)
    requires v in vs
    ensures k < |vs| && vs[k] == v
  {
    if vs[0] == v then 0 else 1 + IndexOf(vs[1..], v)
  }

  /** The map built by setting each key in turn: a later binding of a key replaces the value, in place. */
  function SetAll(keys: seq<Value>, values: seq<Value>): (r: (seq<Value>, seq<Value>))
    ensures |r.0| == |r.1|
  {
    if keys == [] then ([], [])
    else
      var k := |keys| - 1;
      var (ks, vs) := SetAll(keys[..k], values);
      var value := if k < |values| then values[k] else Undefined;
      if keys[k] in ks then (ks, vs[IndexOf(ks, keys[k]) := value]) else (ks + [keys[k]], vs + [value])
  }

  lemma SnocSlice(vs: seq<Value>, n: nat)
    requires 0 < n <= |vs|
    ensures vs[..n] == vs[..n - 1] + [vs[n - 1]]
  {
  }

  lemma {:induction false} SetDistinct(keys: seq<Value>, values: seq<Value>, n: nat)
    requires n <= |keys| == |values| && Distinct(keys)
    ensures SetAll(keys[..n], values) == (keys[..n], values[..n])
  {
    if n > 0 {
      SetDistinct(keys, values, n - 1);
      assert keys[..n][..n - 1] == keys[..n - 1];
      SnocSlice(keys, n);
      SnocSlice(values, n);
    }
  }

  /** The place of v is not found again further on. */
  predicate LastPlace(vs: seq<Value>, i: nat)
    requires i < |vs|
  {
    forall l :: i < l < |vs| ==> vs[l] != vs[i]
  }

  lemma {:induction false} IndexOfPrefix(vs: seq<Value>, w: Value, v: Value)
    requires v in vs
    ensures IndexOf(vs + [w], v) == IndexOf(vs, v)
  {
    if vs[0] != v {
      IndexOfPrefix(vs[1..], w, v);
      assert (vs + [w])[1..] == vs[1..] + [w];
    }
  }

  lemma {:induction false} IndexOfNew(vs: seq<Value>, v: Value)
    requires v !in vs
    ensures IndexOf(vs + [v], v) == |vs|
  {
    if vs != [] {
      IndexOfNew(vs[1..], v);
      assert (vs + [v])[1..] == vs[1..] + [v];
    }
  }

  /** Every key is there once, in the order of first places, with the value of its last place. */
  lemma {:induction false} SetAllMeaning(keys: seq<Value>, values: seq<Value>)
    ensures var (ks, vs) := SetAll(keys, values);
            && Distinct(ks) && (forall v :: v in ks <==> v in keys)
            && (forall a, b :: 0 <= a < b < |ks| ==> IndexOf(keys, ks[a]) < IndexOf(keys, ks[b]))
            && (forall i, j :: 0 <= i < |keys| && 0 <= j < |ks| && ks[j] == keys[i] && LastPlace(keys, i) ==>
                  vs[j] == if i < |values| then values[i] else Undefined)
  {
    if keys != [] {
      var n := |keys| - 1;
      var before, key := keys[..n], keys[n];
      SetAllMeaning(before, values);
      assert keys == before + [key];
      var (ks, vs) := SetAll(before, values);
      var (ks', vs') := SetAll(keys, values);
      forall v | v in before ensures IndexOf(keys, v) == IndexOf(before, v) { IndexOfPrefix(before, key, v); }
      if key !in before { IndexOfNew(before, key); }
      forall i, j | 0 <= i < |keys| && 0 <= j < |ks'| && ks'[j] == keys[i] && LastPlace(keys, i)
        ensures vs'[j] == if i < |values| then values[i] else Undefined
      {
        if i < n {
          assert keys[n] != keys[i] && LastPlace(before, i);
        }
      }
    }
  }
}
