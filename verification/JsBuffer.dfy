/** The growable byte buffer that messages are encoded into. */
module JsBuffer {
  import opened Bytes

  const TWO31 := 0x8000_0000
  const HIGH_WORD := 0x1_0000_0000

  /** `x | 0`: conversion to a signed 32-bit integer. */
  function ToInt32(x: int): int {
    var r := x % HIGH_WORD;
    if r < TWO31 then r else r - HIGH_WORD
  }

  /** `(1.5 * (byteLength + size)) | 0` */
  function GrownSize(byteLength: nat, size: nat): int {
    ToInt32(3 * (byteLength + size) / 2)
  }

  /** The allocation stays below the 32-bit limit. */
  predicate InLimit(byteLength: nat, next: nat, size: nat) {
    next + size <= byteLength || 3 * (byteLength + size) / 2 < TWO31
  }

  /** A grown array holds what is asked for exactly within the limit; beyond it the conversion gives too small a number. */
  lemma GrowthFits(byteLength: nat, next: nat, size: nat)
    requires next <= byteLength
    ensures next + size <= byteLength ==> InLimit(byteLength, next, size)
    ensures byteLength < next + size ==>
              (InLimit(byteLength, next, size) <==> next + size <= GrownSize(byteLength, size))
    ensures byteLength < next + size && InLimit(byteLength, next, size) ==>
              GrownSize(byteLength, size) == 3 * (byteLength + size) / 2
              && byteLength <= 2 * (GrownSize(byteLength, size) - byteLength)
  {
  }

  /** How long a buffer's array is, and how much of it is handed out. */
  datatype Memory = Memory(length: nat, next: nat)

  predicate Allocatable(m: Memory, size: nat) { InLimit(m.length, m.next, size) }

  /** The array after an allocation. */
  function Allocate(m: Memory, size: nat): Memory {
    Memory(if m.next + size <= m.length then m.length else 3 * (m.length + size) / 2, m.next + size)
  }

  /** Allocations one after the other. */
  function AllocateAll(m: Memory, sizes: seq<nat>): Memory {
    if sizes == [] then m else Allocate(AllocateAll(m, sizes[..|sizes| - 1]), sizes[|sizes| - 1])
  }

  predicate AllAllocatable(m: Memory, sizes: seq<nat>) {
    sizes == [] ||
    (AllAllocatable(m, sizes[..|sizes| - 1])
     && Allocatable(AllocateAll(m, sizes[..|sizes| - 1]), sizes[|sizes| - 1]))
  }

  lemma {:induction false} AllocateMore(m: Memory, a: seq<nat>, b: seq<nat>)
    ensures AllocateAll(m, a + b) == AllocateAll(AllocateAll(m, a), b)
    ensures AllAllocatable(m, a + b) <==> AllAllocatable(m, a) && AllAllocatable(AllocateAll(m, a), b)
    decreases |b|
  {
    if b == [] {
      assert a + b == a;
    } else {
      assert (a + b)[..|a + b| - 1] == a + b[..|b| - 1];
      AllocateMore(m, a, b[..|b| - 1]);
    }
  }

  lemma AllocateOne(m: Memory, size: nat)
    ensures AllocateAll(m, [size]) == Allocate(m, size)
    ensures AllAllocatable(m, [size]) <==> Allocatable(m, size)
  {
    assert [size][..0] == [];
  }

  lemma PutTwice(s: seq<byte>, pos: nat, a: seq<byte>, b: seq<byte>)
    requires pos + |a| + |b| <= |s|
    ensures Put(Put(s, pos, a), pos + |a|, b) == Put(s, pos, a + b)
  {
  }

  lemma PutBefore(s: seq<byte>, z: seq<byte>, pos: nat, a: seq<byte>)
    requires pos + |a| <= |s|
    ensures Put(s + z, pos, a) == Put(s, pos, a) + z
  {
  }

  datatype Allocation = Allocated(pointer: nat) | RangeError

  class Buffer {
    var arrayBuffer: array<byte>
    var next: nat
    ghost const initial: nat     // the length the buffer was made with
    ghost var copied: nat        // bytes moved by all growths together

    ghost predicate Valid()
      reads this, arrayBuffer
    {
      next <= arrayBuffer.Length && forall i :: next <= i < arrayBuffer.Length ==> arrayBuffer[i] == 0
    }

    /** The bytes handed out so far. */
    ghost function Used(): (s: seq<byte>)
      requires Valid()
      reads this, arrayBuffer
      ensures |s| == next
    {
      arrayBuffer[..next]
    }

    ghost predicate Amortized()
      reads this
    {
      copied <= 2 * (arrayBuffer.Length - initial)
    }

    function Extent(): Memory
      reads this
    {
      Memory(arrayBuffer.Length, next)
    }

    constructor (size: nat)
      ensures Valid() && Used() == [] && fresh(arrayBuffer) && Extent() == Memory(size, 0)
      ensures initial == size && copied == 0 && Amortized()
    {
      arrayBuffer := new byte[size](i => 0);
      next := 0;
      initial, copied := size, 0;
    }

    /** Hands out `size` zero bytes. They are there exactly when the allocation is within the 32-bit limit; then
        everything written earlier is still in place, and the bytes moved by all growths so far stay within twice
        the length gained since the start. */
    method Alloc(size: nat) returns (r: Allocation)
      requires Valid()
      modifies this
      ensures r.Allocated? && next <= arrayBuffer.Length
         <==> InLimit(old(arrayBuffer.Length), old(next), size)
      ensures InLimit(old(arrayBuffer.Length), old(next), size) ==>
                && r == Allocated(old(next)) && Valid() && Used() == old(Used()) + Zeros(size)
                && Extent() == Allocate(old(Extent()), size)
                && (old(Amortized()) ==> Amortized())
      ensures arrayBuffer == old(arrayBuffer) || fresh(arrayBuffer)
    {
      hide InLimit, GrownSize;
      GrowthFits(arrayBuffer.Length, next, size);
      r := Allocated(next);
      next := next + size;
      if next > arrayBuffer.Length {
        var newSize := GrownSize(arrayBuffer.Length, size);
        var ok := Grow(newSize);
        if !ok { return RangeError; }
      }
    }

    /** Moves the contents to a longer array; the engine refuses a negative length, and a copy that does not fit. */
    method Grow(size: int) returns (ok: bool)
      modifies this`arrayBuffer, this`copied
      ensures ok <==> arrayBuffer.Length <= size && old(arrayBuffer.Length) <= size
      ensures !ok ==> arrayBuffer == old(arrayBuffer)
      ensures ok ==> fresh(arrayBuffer) && arrayBuffer.Length == size
      ensures ok ==> copied == old(copied) + old(arrayBuffer.Length)
      ensures ok ==> arrayBuffer[..] == old(arrayBuffer[..]) + Zeros(size - old(arrayBuffer.Length))
    {
      if size < arrayBuffer.Length { return false; }
      var source, newArrayBuffer := arrayBuffer, new byte[size](i => 0);
      for i := 0 to source.Length
        modifies newArrayBuffer
        invariant source[..] == old(source[..])
        invariant forall j :: 0 <= j < i ==> newArrayBuffer[j] == source[j]
        invariant forall j :: i <= j < size ==> newArrayBuffer[j] == 0
      {
        newArrayBuffer[i] := source[i];
      }
      copied := copied + source.Length;
      arrayBuffer := newArrayBuffer;
      return true;
    }

    /** Drops the bytes that were never handed out. */
    method Trim()
      requires Valid()
      modifies this`arrayBuffer
      ensures Valid() && fresh(arrayBuffer) && arrayBuffer[..] == old(Used()) == Used()
    {
      var slice := new byte[next](i requires 0 <= i < next reads this, arrayBuffer requires next <= arrayBuffer.Length
                                  => arrayBuffer[i]);
      arrayBuffer := slice;
    }

    /** A DataView setter: the `size` low bytes of value, least significant first. */
    method SetInt(offset: nat, value: int, size: nat)
      requires Valid() && offset + size <= next
      modifies arrayBuffer
      ensures Valid() && Used() == Put(old(Used()), offset, ToLE(value, size))
    {
      var bytes := ToLE(value, size);
      SetBytes(offset, bytes);
    }

    method SetBytes(offset: nat, bytes: seq<byte>)
      requires Valid() && offset + |bytes| <= next
      modifies arrayBuffer
      ensures Valid() && Used() == Put(old(Used()), offset, bytes)
    {
      forall i | 0 <= i < |bytes| { arrayBuffer[offset + i] := bytes[i]; }
    }

    /** Two 32-bit halves; the high one is truncated to a signed 32-bit integer first. */
    method SetUint64(offset: nat, value: nat)
      requires Valid() && offset + 8 <= next
      modifies arrayBuffer
      ensures Valid() && Used() == Put(old(Used()), offset, ToLE(value, 8))
    {
      var hi := ToInt32(value / HIGH_WORD);
      SetInt(offset, ToInt32(value), 4);
      SetInt(offset + 4, hi, 4);
      Halves(value);
      PutTwice(old(Used()), offset, ToLE(value, 4), ToLE(value / HIGH_WORD, 4));
    }

    /** Two 32-bit halves; the high one is rounded down, which makes the pair a two's complement. */
    method SetInt64(offset: nat, value: int)
      requires Valid() && offset + 8 <= next
      modifies arrayBuffer
      ensures Valid() && Used() == Put(old(Used()), offset, ToLE(value, 8))
    {
      var hi := value / HIGH_WORD;
      SetInt(offset, ToInt32(value), 4);
      SetInt(offset + 4, ToInt32(hi), 4);
      Halves(value);
      PutTwice(old(Used()), offset, ToLE(value, 4), ToLE(hi, 4));
    }
  }

  lemma ToInt32Bytes(x: int)
    ensures ToLE(ToInt32(x), 4) == ToLE(x, 4)
  {
    hide ToLE;
    assert Pow256(4) == HIGH_WORD;
    LowBytes(x, 4);
    var r := x % HIGH_WORD;
    ModUnique(r - HIGH_WORD, -1, r, HIGH_WORD);
    LowBytes(r - HIGH_WORD, 4);
  }

  lemma Halves(value: int)
    ensures ToLE(ToInt32(value), 4) == ToLE(value, 4)
    ensures ToLE(ToInt32(value / HIGH_WORD), 4) == ToLE(value / HIGH_WORD, 4)
    ensures ToLE(value, 8) == ToLE(value, 4) + ToLE(value / HIGH_WORD, 4)
  {
    assert Pow256(4) == HIGH_WORD;
    ToInt32Bytes(value);
    ToInt32Bytes(value / HIGH_WORD);
    SplitLE(value, 4, 4);
  }
}
