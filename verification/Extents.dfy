/** Runs of bytes, or of handle table entries, that are claimed one behind the other. */
module Extents {
  datatype Extent = Extent(start: nat, size: nat)

  /** The extents lie between lo and hi, each one behind the one before it. */
  predicate Chain(lo: nat, es: seq<Extent>, hi: nat) {
    if es == [] then lo <= hi
    else
      var last := es[|es| - 1];
      Chain(lo, es[..|es| - 1], last.start) && last.start + last.size <= hi
  }

  lemma {:induction false} ChainAppend(lo: nat, a: seq<Extent>, mid: nat, b: seq<Extent>, hi: nat)
    requires Chain(lo, a, mid) && Chain(mid, b, hi)
    ensures Chain(lo, a + b, hi)
  {
    if b == [] {
      assert a + b == a;
      ChainWiden(lo, a, mid, hi);
    } else {
      var k := |b| - 1;
      ChainAppend(lo, a, mid, b[..k], b[k].start);
      assert (a + b)[..|a + b| - 1] == a + b[..k];
    }
  }

  lemma ChainWiden(lo: nat, a: seq<Extent>, mid: nat, hi: nat)
    requires Chain(lo, a, mid) && mid <= hi
    ensures Chain(lo, a, hi)
  {
  }

  /** Pairwise disjoint, ascending, and inside the claimed range. */
  lemma {:induction false} ChainDisjoint(lo: nat, es: seq<Extent>, hi: nat)
    requires Chain(lo, es, hi)
    ensures forall i :: 0 <= i < |es| ==> lo <= es[i].start && es[i].start + es[i].size <= hi
    ensures forall i, j :: 0 <= i < j < |es| ==> es[i].start + es[i].size <= es[j].start
    ensures lo <= hi
  {
    if es != [] {
      ChainDisjoint(lo, es[..|es| - 1], es[|es| - 1].start);
    }
  }

  /** The end of the last extent. */
  function After(lo: nat, es: seq<Extent>): nat {
    if es == [] then lo else es[|es| - 1].start + es[|es| - 1].size
  }

  lemma ChainAfter(lo: nat, es: seq<Extent>, hi: nat)
    ensures Chain(lo, es, hi) <==> Chain(lo, es, After(lo, es)) && After(lo, es) <= hi
  {
  }

  lemma OneExtent(lo: nat, e: Extent, hi: nat)
    ensures Chain(lo, [e], hi) <==> lo <= e.start && e.start + e.size <= hi
    ensures After(lo, [e]) == e.start + e.size
  {
    assert [e][..0] == [];
    assert Chain(lo, [], e.start) <==> lo <= e.start;
  }

  /** One chain behind another is a chain, and the other way round. */
  lemma {:induction false} ChainSplit(lo: nat, a: seq<Extent>, b: seq<Extent>, hi: nat)
    ensures After(lo, a + b) == After(After(lo, a), b)
    ensures Chain(lo, a + b, hi) <==> Chain(lo, a, After(lo, a)) && Chain(After(lo, a), b, hi)
    decreases |b|
  {
    if b == [] {
      assert a + b == a;
      ChainAfter(lo, a, hi);
    } else {
      var k := |b| - 1;
      assert (a + b)[..|a + b| - 1] == a + b[..k];
      ChainSplit(lo, a, b[..k], b[k].start);
    }
  }

  function Larger(a: nat, b: nat): nat { if a < b then b else a }

  /** The same for entries of a table of n entries, where a mark behind the table stays where it is. */
  lemma EntriesSplit(lo: nat, a: seq<Extent>, b: seq<Extent>, n: nat)
    ensures After(lo, a + b) == After(After(lo, a), b)
    ensures Chain(lo, a + b, Larger(lo, n))
       <==> Chain(lo, a, Larger(lo, n)) && Chain(After(lo, a), b, Larger(After(lo, a), n))
  {
    hide After;
    ChainSplit(lo, a, b, Larger(lo, n));
    ChainAfter(lo, a, Larger(lo, n));
    if Chain(lo, a, After(lo, a)) {
      ChainDisjoint(lo, a, After(lo, a));
      if Chain(After(lo, a), b, Larger(lo, n)) { ChainDisjoint(After(lo, a), b, Larger(lo, n)); }
    }
  }

  lemma BytesSplit(lo: nat, a: seq<Extent>, b: seq<Extent>, hi: nat)
    ensures After(lo, a + b) == After(After(lo, a), b)
    ensures Chain(lo, a + b, hi) <==> Chain(lo, a, hi) && Chain(After(lo, a), b, hi)
  {
    hide After;
    ChainSplit(lo, a, b, hi);
    ChainAfter(lo, a, hi);
    if Chain(After(lo, a), b, hi) { ChainDisjoint(After(lo, a), b, hi); }
  }
}
