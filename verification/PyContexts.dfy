/** Python's deserialization contexts, which claim memory and handles, and the unpacking of numbers and booleans. */
module PyContexts {
  import opened Bytes
  import opened Wire
  import opened PyGroups
  import opened PyReading

  class RootDeserializationContext {
    const data: seq<byte>
    const handles: seq<Value>
    var nextHandle: nat
    var nextMemory: nat

    constructor (data: seq<byte>, handles: seq<Value>)
      ensures this.data == data && this.handles == handles && At() == Mark(0, 0)
    {
      this.data, this.handles, nextHandle, nextMemory := data, handles, 0, 0;
    }

    ghost function At(): Mark
      reads this
    {
      Mark(nextMemory, nextHandle)
    }

    ghost function Contents(): Message { Message(data, handles) }

    /** Raises on a handle behind the mark, or beyond the table. */
    method ClaimHandle(handle: int) returns (ok: bool, value: Value)
      modifies this`nextHandle
      ensures ok <==> old(nextHandle) <= handle < |handles|
      ensures ok ==> value == handles[handle] && nextHandle == handle + 1
    {
      value := Null;
      if handle < nextHandle { return false, value; }
      nextHandle := handle + 1;
      if handle >= |handles| { return false, value; }
      return true, handles[handle];
    }

    method ClaimMemory(start: nat, size: nat) returns (ok: bool)
      modifies this`nextMemory
      ensures ok <==> old(nextMemory) <= start
      ensures nextMemory == if ok then start + size else old(nextMemory)
    {
      if start < nextMemory { return false; }
      nextMemory := start + size;
      return true;
    }
  }

  /** A window on the data that starts at an offset. A child context asks its parent for its own children, so that all
      children are children of the root. */
  datatype Context = Context(root: RootDeserializationContext, offset: nat, initial: bool) {
    function Length(): nat {
      if offset <= |root.data| then |root.data| - offset else 0
    }

    /** The buffer that the window shows. */
    function Data(): (d: seq<byte>)
      ensures |d| == Length()
    {
      if offset <= |root.data| then root.data[offset..] else []
    }

    function GetSubContext(delta: nat): Context {
      Context(root, offset + delta, false)
    }
  }

  /** However deep contexts are nested, the window of the innermost shows the root's data from the sum of the offsets. */
  lemma {:induction false} ContextsCompose(c: Context, deltas: seq<nat>)
    ensures Descend(c, deltas).root == c.root && Descend(c, deltas).offset == c.offset + Sum(deltas)
    ensures Sum(deltas) <= c.Length() ==> Descend(c, deltas).Data() == c.Data()[Sum(deltas)..]
  {
    if deltas != [] {
      var k := |deltas| - 1;
      ContextsCompose(c, deltas[..k]);
    }
  }

  function Descend(c: Context, deltas: seq<nat>): Context {
    if deltas == [] then c else Descend(c, deltas[..|deltas| - 1]).GetSubContext(deltas[|deltas| - 1])
  }

  function Sum(deltas: seq<nat>): nat {
    if deltas == [] then 0 else Sum(deltas[..|deltas| - 1]) + deltas[|deltas| - 1]
  }

  // ---- unpacking ----

  /** The number that a type code unpacks. */
  function RawValue(bytes: seq<byte>, t: Type, pos: nat): int
    requires pos + SlotSize(t) <= |bytes|
  {
    var n := GetUint(bytes, pos, SlotSize(t));
    if t.Handle? || (t.Integer? && t.signed) then Signed(n, SlotSize(t)) else n
  }

  /** struct.unpack_from: one number a code, none for padding. */
  function Unpack(bytes: seq<byte>, codes: seq<Type>, pos: nat): seq<int>
    requires pos + SlotsSize(codes) <= |bytes|
  {
    hide SlotSize;
    if codes == [] then []
    else
      var k := |codes| - 1;
      Unpack(bytes, codes[..k], pos) +
      (if codes[k].Padding? then [] else [RawValue(bytes, codes[k], pos + SlotsSize(codes[..k]))])
  }

  lemma UnpackMore(bytes: seq<byte>, codes: seq<Type>, t: Type, pos: nat)
    requires pos + SlotsSize(codes + [t]) <= |bytes|
    ensures SlotsSize(codes + [t]) == SlotsSize(codes) + SlotSize(t)
    ensures Unpack(bytes, codes + [t], pos)
         == Unpack(bytes, codes, pos) + (if t.Padding? then [] else [RawValue(bytes, t, pos + SlotsSize(codes))])
  {
    hide SlotSize, RawValue;
    SlotsSizeMore(codes, t);
    assert (codes + [t])[..|codes|] == codes;
  }

  lemma UnpackPad(bytes: seq<byte>, codes: seq<Type>, n: nat, pos: nat)
    requires pos + SlotsSize(codes) + n <= |bytes|
    ensures SlotsSize(codes + Pad(n)) == SlotsSize(codes) + n
    ensures Unpack(bytes, codes + Pad(n), pos) == Unpack(bytes, codes, pos)
  {
    hide Unpack, SlotsSize;
    SlotsSizePad(codes, n);
    if n == 0 {
      assert codes + [] == codes;
    } else {
      UnpackMore(bytes, codes, Padding(n), pos);
      assert Unpack(bytes, codes, pos) + [] == Unpack(bytes, codes, pos);
    }
  }

  predicate NoPadding(gs: seq<Group>) {
    forall i :: 0 <= i < |gs| ==> !Slot(gs[i]).Padding?
  }

  /** What the layout loop unpacks for a group is what lies where the deserializing loop looks for the group. */
  lemma {:induction false} UnpackedCodes(bytes: seq<byte>, gs: seq<Group>, pos: nat, i: nat)
    requires AllAligned(gs) && NoPadding(gs) && pos + End(gs) <= |bytes|
    ensures SlotsSize(Codes(gs)) == End(gs) && |Unpack(bytes, Codes(gs), pos)| == |gs|
    ensures i < |gs| ==>
              && AllAligned(gs[..i]) && Aligned(gs[i]) && pos + Offset(gs[..i], gs[i]) + GetByteSize(gs[i]) <= |bytes|
              && Unpack(bytes, Codes(gs), pos)[i] == RawValue(bytes, Slot(gs[i]), pos + Offset(gs[..i], gs[i]))
    decreases |gs|
  {
    hide Unpack, RawValue, SlotsSize, SlotSize, Slot, AllAligned, Aligned, Offset, End, GetByteSize, Pad, Codes;
    CodesSize(gs);
    if gs == [] {
      UnpackNothing(bytes, pos);
    } else {
      var k := |gs| - 1;
      EndLast(gs);
      CodesMore(gs);
      CodesSize(gs[..k]);
      assert NoPadding(gs[..k]) && !Slot(gs[k]).Padding?;
      UnpackedCodes(bytes, gs[..k], pos, i);
      var p := Offset(gs[..k], gs[k]) - End(gs[..k]);
      SizeOfSlot(gs[k]);
      UnpackPad(bytes, Codes(gs[..k]), p, pos);
      SlotsSizeMore(Codes(gs[..k]) + Pad(p), Slot(gs[k]));
      UnpackMore(bytes, Codes(gs[..k]) + Pad(p), Slot(gs[k]), pos);
      if i < k { assert gs[..k][..i] == gs[..i]; }
    }
  }

  lemma SizeOfSlot(g: Group)
    ensures GetByteSize(g) == SlotSize(Slot(g))
  {
  }

  lemma UnpackNothing(bytes: seq<byte>, pos: nat)
    requires pos <= |bytes|
    ensures Codes([]) == [] && SlotsSize([]) == 0 && Unpack(bytes, [], pos) == [] && End([]) == 0
  {
  }

  lemma UnpackedStruct(bytes: seq<byte>, gs: seq<Group>, pos: nat, i: nat)
    requires AllAligned(gs) && NoPadding(gs) && pos + StructSize(gs) <= |bytes|
    ensures SlotsSize(StructCodes(gs)) == StructSize(gs) && |Unpack(bytes, StructCodes(gs), pos)| == |gs|
    ensures i < |gs| ==>
              && AllAligned(gs[..i]) && Aligned(gs[i]) && pos + Offset(gs[..i], gs[i]) + GetByteSize(gs[i]) <= |bytes|
              && Unpack(bytes, StructCodes(gs), pos)[i] == RawValue(bytes, Slot(gs[i]), pos + Offset(gs[..i], gs[i]))
  {
    hide Unpack, RawValue, SlotsSize, SlotSize, Slot, AllAligned, Aligned, Offset, End, GetByteSize, Pad, Codes,
      NeededPaddingForAlignment;
    StructCodesSize(gs);
    UnpackedCodes(bytes, gs, pos, i);
    UnpackPad(bytes, Codes(gs), NeededPaddingForAlignment(End(gs), 8), pos);
  }

  lemma {:induction false} UnpackedItems(bytes: seq<byte>, t: Type, n: nat, pos: nat, i: nat)
    requires !t.Padding? && pos + n * SlotSize(t) <= |bytes|
    ensures SlotsSize(Repeat(t, n)) == n * SlotSize(t) && |Unpack(bytes, Repeat(t, n), pos)| == n
    ensures i < n ==> pos + i * SlotSize(t) + SlotSize(t) <= |bytes|
                      && Unpack(bytes, Repeat(t, n), pos)[i] == RawValue(bytes, t, pos + i * SlotSize(t))
    decreases n
  {
    hide Unpack, RawValue, SlotsSize, SlotSize, Repeat;
    RepeatSize(t, n);
    if n == 0 {
      UnpackNothing(bytes, pos);
      RepeatSnoc(t, 0);
    } else {
      OneMore(n, SlotSize(t));
      RepeatSize(t, n - 1);
      RepeatSnoc(t, n);
      UnpackedItems(bytes, t, n - 1, pos, i);
      UnpackMore(bytes, Repeat(t, n - 1), t, pos);
    }
  }

  lemma RepeatSnoc(t: Type, n: nat)
    ensures if n == 0 then Repeat(t, n) == [] else Repeat(t, n) == Repeat(t, n - 1) + [t]
  {
  }

  // ---- booleans ----

  lemma BitOfSmall(value: nat, n: nat, i: nat)
    requires value < Pow2(n) && n <= i
    ensures !Bit(value, i)
  {
    Pow2Monotone(n, i);
    assert value / Pow2(i) == 0 by { ModUnique(value, 0, value, Pow2(i)); }
  }

  /** _ConvertByteToBooleans: the bits of a number up to its highest, and at least minSize of them. */
  method ConvertByteToBooleans(value: nat, minSize: nat) returns (res: seq<bool>)
    ensures minSize <= |res| && forall i :: 0 <= i < |res| ==> res[i] == Bit(value, i)
    ensures value < Pow2(|res|) && (minSize < |res| ==> Pow2(|res| - 1) <= value)
  {
    res := [];
    var rest := value;
    while rest != 0
      invariant forall i :: 0 <= i < |res| ==> res[i] == Bit(value, i)
      invariant rest == value / Pow2(|res|)
      invariant res != [] ==> Pow2(|res| - 1) <= value
      decreases rest
    {
      hide Pow2;
      QuotientAtLeast(value, Pow2(|res|));
      HalfAgain(value, |res|);
      res := res + [rest % 2 == 1];
      rest := rest / 2;
    }
    QuotientZero(value, Pow2(|res|));
    ghost var n := |res|;
    while |res| < minSize
      invariant n <= |res| && (|res| <= minSize || |res| == n)
      invariant forall i :: 0 <= i < |res| ==> res[i] == Bit(value, i)
      invariant value < Pow2(n) && (n != 0 ==> Pow2(n - 1) <= value)
    {
      BitOfSmall(value, n, |res|);
      res := res + [false];
    }
    Pow2Monotone(n, |res|);
  }

  lemma QuotientAtLeast(n: nat, p: nat)
    requires p > 0
    ensures n / p != 0 ==> p <= n
  {
    if n < p { ModUnique(n, 0, n, p); }
  }

  lemma QuotientZero(n: nat, p: nat)
    requires p > 0 && n / p == 0
    ensures n < p
  {
  }

  lemma HalfAgain(value: nat, n: nat)
    ensures value / Pow2(n) / 2 == value / Pow2(n + 1)
    ensures Bit(value, n) == (value / Pow2(n) % 2 == 1)
  {
    var p := Pow2(n);
    var q, r := value / p / 2, value / p % 2;
    assert value == (2 * q + r) * p + value % p;
    assert (2 * q + r) * p == q * (2 * p) + r * p;
    assert r * p + value % p < 2 * p;
    ModUnique(value, q, r * p + value % p, 2 * p);
  }
}
