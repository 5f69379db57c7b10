/** What a message says it holds behind a slot: a tree of blocks and handles, read off its pointers and header words. */
module Layouts {
  import opened Extents

  datatype Part =
    | Plain                            // a number, flags, or bytes of no meaning
    | NoHandle
    | Entry(index: nat)                // of the handle table
    | NullPointer
    | Nested(start: nat, size: nat, word: nat, parts: seq<Part>)

  /** All blocks, each before those that its own slots lead to. */
  function Blocks(p: Part): seq<Extent> {
    if p.Nested? then [Extent(p.start, p.size)] + BlocksOf(p.parts) else []
  }

  function BlocksOf(ps: seq<Part>): seq<Extent> {
    if ps == [] then [] else BlocksOf(ps[..|ps| - 1]) + Blocks(ps[|ps| - 1])
  }

  /** All handle table entries, in the same order. */
  function Entries(p: Part): seq<Extent> {
    match p
    case Entry(index) => [Extent(index, 1)]
    case Nested(_, _, _, parts) => EntriesOf(parts)
    case _ => []
  }

  function EntriesOf(ps: seq<Part>): seq<Extent> {
    if ps == [] then [] else EntriesOf(ps[..|ps| - 1]) + Entries(ps[|ps| - 1])
  }

  lemma OnePart(p: Part)
    ensures BlocksOf([p]) == Blocks(p) && EntriesOf([p]) == Entries(p)
  {
    assert [p][..0] == [];
  }

  lemma MoreParts(ps: seq<Part>, p: Part)
    ensures BlocksOf(ps + [p]) == BlocksOf(ps) + Blocks(p) && EntriesOf(ps + [p]) == EntriesOf(ps) + Entries(p)
  {
    assert (ps + [p])[..|ps|] == ps;
  }
}
