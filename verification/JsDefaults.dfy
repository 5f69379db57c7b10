/** The least content of a slot that the JavaScript Validator accepts. */
module JsDefaults {
  import opened Bytes
  import opened Wire
  import opened JsValidation
  import opened JsExposure

  function Copies(v: Value, count: nat): (vs: seq<Value>)
    ensures |vs| == count && forall i :: 0 <= i < count ==> vs[i] == v
  {
    seq(count, i => v)
  }

  /** A null or something empty where the type allows it, and otherwise the same for all items. */
  function Default(sc: Schema, t: Type, n: nat): Value
    decreases n, 0, t
  {
    match t
    case Integer(_, _) => Number(0)
    case Bits(count) => Record(Copies(Flag(false), count))
    case Handle(_) => HandleValue(0)
    case Interface(_) => HandleValue(0)
    case String(_) => Text([])
    case PointerTo(cls, nullable) =>
      if nullable || n == 0 || |sc| <= cls then Null else Record(Defaults(sc, sc[cls].slots, n - 1))
    case ArrayOf(elem, length) =>
      Seq(Copies(if elem.PackedBool? then Flag(false) else if elem.MapOf? then Null else Default(sc, elem, n), length))
    case MapOf(_, _, nullable) => if nullable then Null else Dict([Seq([]), Seq([])])
    case _ => Null
  }

  function Defaults(sc: Schema, ts: seq<Type>, n: nat): (vs: seq<Value>)
    ensures |vs| == |ts|
    decreases n, 1, |ts|
  {
    if ts == [] then [] else Defaults(sc, ts[..|ts| - 1], n) + [Default(sc, ts[|ts| - 1], n)]
  }

  predicate Fine(sc: Schema, t: Type, v: Value) { Shaped(sc, t, v) && Conforms(JavaScript, sc, t, v) }

  predicate AllFine(sc: Schema, ts: seq<Type>, vs: seq<Value>) {
    ShapedAll(sc, ts, vs) && ConformsAll(JavaScript, sc, ts, vs)
  }

  lemma MoreFine(sc: Schema, ts: seq<Type>, vs: seq<Value>, t: Type, v: Value)
    requires AllFine(sc, ts, vs) && Fine(sc, t, v)
    ensures AllFine(sc, ts + [t], vs + [v])
  {
    hide Shaped, Conforms;
    assert (ts + [t])[..|ts|] == ts && (vs + [v])[..|vs|] == vs;
  }

  lemma {:induction false} CopiesFine(sc: Schema, t: Type, v: Value, count: nat)
    requires Fine(sc, t, v)
    ensures AllFine(sc, Repeat(t, count), Copies(v, count))
  {
    hide Fine, AllFine;
    if count == 0 {
      NoneFine(sc);
    } else {
      CopiesFine(sc, t, v, count - 1);
      MoreFine(sc, Repeat(t, count - 1), Copies(v, count - 1), t, v);
    }
    assert count > 0 ==> Repeat(t, count) == Repeat(t, count - 1) + [t];
    assert count > 0 ==> Copies(v, count) == Copies(v, count - 1) + [v];
    assert count == 0 ==> Repeat(t, count) == [] && Copies(v, count) == [];
  }

  lemma NoneFine(sc: Schema)
    ensures AllFine(sc, [], [])
  {
  }

  /** Whatever an acceptable slot may hold, it may hold its default. */
  lemma {:induction false} DefaultFine(sc: Schema, t: Type, n: nat)
    requires WellFormedSchema(sc) && WellFormed(sc, t) && Acceptable(sc, t, n)
    ensures Fine(sc, t, Default(sc, t, n))
    decreases n, 0, t
  {
    hide WellFormedSchema, WellFormedAll, AllAcceptable, ShapedAll, ConformsAll, SlotsSize, Copies;
    if t.PointerTo? {
      if !t.nullable {
        SlotsFine(sc, t.cls);
        DefaultsFine(sc, sc[t.cls].slots, n - 1);
      }
    } else if t.ArrayOf? {
      ArrayFine(sc, t, n);
    } else if t.MapOf? {
      EmptyMapFine(sc, t);
    } else if t.Integer? {
      assert Pow256(t.size) > 0;
    }
  }

  lemma SlotsFine(sc: Schema, cls: nat)
    requires WellFormedSchema(sc) && cls < |sc|
    ensures WellFormedAll(sc, sc[cls].slots)
  {
  }

  lemma {:induction false} ArrayFine(sc: Schema, t: Type, n: nat)
    requires WellFormedSchema(sc) && WellFormed(sc, t) && Acceptable(sc, t, n) && t.ArrayOf?
    ensures Fine(sc, t, Default(sc, t, n))
    decreases n, 0, t, 0
  {
    hide WellFormedSchema, WellFormedAll, AllAcceptable, ShapedAll, ConformsAll, SlotsSize;
    if t.length == 0 {
      CopiesOfNothing(sc, t.elem);
    } else if t.elem.MapOf? {
      NullsShaped(sc, t.elem, t.length);
    } else if !t.elem.PackedBool? {
      DefaultFine(sc, t.elem, n);
      CopiesFine(sc, t.elem, Default(sc, t.elem, n), t.length);
    }
  }

  lemma CopiesOfNothing(sc: Schema, t: Type)
    ensures Repeat(t, 0) == [] && AllFine(sc, [], []) && forall v :: Copies(v, 0) == []
  {
    NoneFine(sc);
  }

  lemma {:induction false} NullsShaped(sc: Schema, t: Type, count: nat)
    requires WellFormed(sc, t) && t.MapOf?
    ensures ShapedAll(sc, Repeat(t, count), Copies(Null, count))
  {
    hide WellFormed;
    if count > 0 {
      NullsShaped(sc, t, count - 1);
      assert Repeat(t, count)[..count - 1] == Repeat(t, count - 1);
      assert Copies(Null, count)[..count - 1] == Copies(Null, count - 1);
    }
  }

  lemma EmptyMapFine(sc: Schema, t: Type)
    requires WellFormed(sc, t) && t.MapOf?
    ensures Fine(sc, t, Default(sc, t, 0))
  {
    var ks, vs, none := ArrayOf(t.key, 0), ArrayOf(t.value, 0), Seq([]);
    EmptyArrayFine(sc, ks);
    EmptyArrayFine(sc, vs);
    hide Fine, AllFine;
    NoneFine(sc);
    MoreFine(sc, [], [], ks, none);
    MoreFine(sc, [ks], [none], vs, none);
    assert [] + [ks] == [ks] && [] + [none] == [none] && [ks] + [vs] == [ks, vs] && [none] + [none] == [none, none];
    PairFine(sc, t);
  }

  lemma PairFine(sc: Schema, t: Type)
    requires WellFormed(sc, t) && t.MapOf?
    requires AllFine(sc, [ArrayOf(t.key, 0), ArrayOf(t.value, 0)], [Seq([]), Seq([])])
    ensures Fine(sc, t, Default(sc, t, 0))
  {
    hide ShapedAll, ConformsAll;
  }

  lemma EmptyArrayFine(sc: Schema, t: Type)
    requires WellFormed(sc, t) && t.ArrayOf? && t.length == 0
    ensures Fine(sc, t, Seq([]))
  {
    CopiesOfNothing(sc, t.elem);
  }

  lemma {:induction false} DefaultsFine(sc: Schema, ts: seq<Type>, n: nat)
    requires WellFormedSchema(sc) && WellFormedAll(sc, ts) && AllAcceptable(sc, ts, n)
    ensures AllFine(sc, ts, Defaults(sc, ts, n))
    decreases n, 1, |ts|
  {
    hide WellFormedSchema, WellFormed, Acceptable, Fine, AllFine, Default;
    if ts == [] {
      NoneFine(sc);
    } else {
      var k := |ts| - 1;
      DefaultsFine(sc, ts[..k], n);
      DefaultFine(sc, ts[k], n);
      MoreFine(sc, ts[..k], Defaults(sc, ts[..k], n), ts[k], Default(sc, ts[k], n));
      assert ts == ts[..k] + [ts[k]];
    }
  }
}
