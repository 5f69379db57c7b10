/** Bytes, little-endian integers and packed bits: the vocabulary of the wire format. */
module Bytes {
  type byte = b: int | 0 <= b < 256

  function Pow256(k: nat): (p: nat)
    ensures p > 0
  {
    if k == 0 then 1 else 256 * Pow256(k - 1)
  }

  function Pow2(k: nat): (p: nat)
    ensures p > 0
  {
    if k == 0 then 1 else 2 * Pow2(k - 1)
  }

  function Zeros(n: nat): (s: seq<byte>)
    ensures |s| == n
    ensures forall i :: 0 <= i < n ==> s[i] == 0
  {
    seq(n, i => 0)
  }

  /** s with the bytes from pos replaced. */
  function Put(s: seq<byte>, pos: nat, bytes: seq<byte>): (r: seq<byte>)
    requires pos + |bytes| <= |s|
    ensures |r| == |s|
  {
    s[..pos] + bytes + s[pos + |bytes|..]
  }

  /** The k low bytes of n, least significant first; a negative n gives its two's complement. */
  function ToLE(n: int, k: nat): (s: seq<byte>)
    ensures |s| == k
    decreases k
  {
    if k == 0 then [] else [n % 256] + ToLE(n / 256, k - 1)
  }

  lemma ToLEStep(n: int, k: nat)
    requires k > 0
    ensures ToLE(n, k) == [n % 256] + ToLE(n / 256, k - 1)
    ensures Pow256(k) == 256 * Pow256(k - 1)
  {
  }

  function FromLE(s: seq<byte>): (n: nat)
    ensures n < Pow256(|s|)
  {
    if |s| == 0 then 0 else s[0] + 256 * FromLE(s[1..])
  }

  /** Reads k bytes as an unsigned little-endian integer. */
  function GetUint(m: seq<byte>, offset: nat, k: nat): (n: nat)
    requires offset + k <= |m|
    ensures n < Pow256(k)
  {
    FromLE(m[offset..offset + k])
  }

  /** Reinterprets an unsigned k-byte number as a signed one. */
  function Signed(n: nat, k: nat): int {
    if 2 * n >= Pow256(k) then n - Pow256(k) else n
  }

  lemma NonzeroMultiple(d: int, m: nat)
    requires m > 0
    ensures d != 0 ==> d * m >= m || d * m + m <= 0
  {
    if d >= 1 {
      assert (d - 1) * m >= 0;
    } else if d <= -1 {
      assert (-d - 1) * m >= 0;
    }
  }

  lemma ModUnique(n: int, q: int, r: int, m: nat)
    requires m > 0 && n == q * m + r && 0 <= r < m
    ensures n / m == q && n % m == r
  {
    var dq := n / m - q;
    assert n == (n / m) * m + n % m;
    assert dq * m == r - n % m;
    NonzeroMultiple(dq, m);
  }

  lemma DivModSplit(n: int, p: nat)
    requires p > 0
    ensures n / (256 * p) == (n / 256) / p
    ensures n % (256 * p) == 256 * ((n / 256) % p) + n % 256
  {
    var q, r := (n / 256) / p, (n / 256) % p;
    assert n == 256 * (q * p + r) + n % 256;
    assert 256 * (q * p) == q * (256 * p);
    ModUnique(n, q, 256 * r + n % 256, 256 * p);
  }

  lemma {:induction false} FromToLE(n: int, k: nat)
    ensures FromLE(ToLE(n, k)) == n % Pow256(k)
    decreases k
  {
    if k > 0 {
      FromToLE(n / 256, k - 1);
      assert ToLE(n, k)[1..] == ToLE(n / 256, k - 1);
      DivModSplit(n, Pow256(k - 1));
    }
  }

  /** What is written at width k reads back: unsigned when it fits, signed when it fits. */
  lemma IntegerRoundTrip(n: int, k: nat)
    ensures 0 <= n < Pow256(k) ==> FromLE(ToLE(n, k)) == n
    ensures 0 <= 2 * n + Pow256(k) && 2 * n < Pow256(k) ==> Signed(FromLE(ToLE(n, k)), k) == n
  {
    FromToLE(n, k);
    var P := Pow256(k);
    if 0 <= n < P {
      ModUnique(n, 0, n, P);
    } else if n < 0 <= 2 * n + P {
      ModUnique(n, -1, n + P, P);
    }
  }

  /** A wide integer is its low part followed by its high part. */
  lemma {:induction false} SplitLE(n: int, j: nat, k: nat)
    ensures ToLE(n, j + k) == ToLE(n, j) + ToLE(n / Pow256(j), k)
    decreases j
  {
    if j == 0 {
      assert ToLE(n, k) == [] + ToLE(n, k);
    } else {
      SplitLE(n / 256, j - 1, k);
      DivModSplit(n, Pow256(j - 1));
      hide ToLE, Pow256;
      ToLEStep(n, j + k);
      ToLEStep(n, j);
    }
  }

  lemma LowDigit(x: int, y: int)
    requires 0 <= y < 256
    ensures (256 * x + y) % 256 == y && (256 * x + y) / 256 == x
  {
  }

  /** Only the residue matters: the implicit ToInt32 conversion of a DataView setter loses nothing. */
  lemma {:induction false} LowBytes(n: int, k: nat)
    ensures ToLE(n % Pow256(k), k) == ToLE(n, k)
    decreases k
  {
    if k > 0 {
      hide ToLE, Pow256;
      DivModSplit(n, Pow256(k - 1));
      ToLEStep(n, k);
      var r := n % Pow256(k);
      LowDigit((n / 256) % Pow256(k - 1), n % 256);
      ToLEStep(r, k);
      LowBytes(n / 256, k - 1);
      assert ToLE(r, k) == ToLE(n, k);
    }
  }

  lemma Reassociate(p: int, x: int, y: int)
    ensures 256 * (y + p * x) == 256 * y + (256 * p) * x
  {
  }

  lemma {:induction false} JoinLE(a: seq<byte>, b: seq<byte>)
    ensures FromLE(a + b) == FromLE(a) + Pow256(|a|) * FromLE(b)
  {
    if a == [] {
      assert a + b == b;
    } else {
      var c := a[1..];
      JoinLE(c, b);
      assert (a + b)[1..] == c + b;
      Reassociate(Pow256(|c|), FromLE(b), FromLE(c));
      calc {
        FromLE(a + b);
        a[0] + 256 * FromLE(c + b);
        a[0] + 256 * (FromLE(c) + Pow256(|c|) * FromLE(b));
        a[0] + 256 * FromLE(c) + (256 * Pow256(|c|)) * FromLE(b);
      }
    }
  }

  // ---- packed booleans ----

  /** The bits of a byte, first boolean in the lowest bit. */
  function PackBits(bs: seq<bool>): (n: nat)
    ensures n < Pow2(|bs|)
  {
    if bs == [] then 0 else (if bs[0] then 1 else 0) + 2 * PackBits(bs[1..])
  }

  predicate Bit(n: nat, i: nat) {
    (n / Pow2(i)) % 2 == 1
  }

  lemma HalfDiv(n: nat, p: nat)
    requires p > 0
    ensures n / (2 * p) == (n / 2) / p
  {
    var q, r := (n / 2) / p, (n / 2) % p;
    assert n == 2 * (q * p + r) + n % 2;
    assert 2 * (q * p) == q * (2 * p);
    ModUnique(n, q, 2 * r + n % 2, 2 * p);
  }

  lemma {:induction false} BitOfPack(bs: seq<bool>, i: nat)
    requires i < |bs|
    ensures Bit(PackBits(bs), i) == bs[i]
  {
    var n := PackBits(bs);
    if i > 0 {
      BitOfPack(bs[1..], i - 1);
      assert n / 2 == PackBits(bs[1..]);
      HalfDiv(n, Pow2(i - 1));
    }
  }

  lemma {:induction false} PackSnoc(bs: seq<bool>, b: bool)
    ensures PackBits(bs + [b]) == PackBits(bs) + (if b then Pow2(|bs|) else 0)
  {
    if bs == [] {
    } else {
      assert (bs + [b])[1..] == bs[1..] + [b];
      PackSnoc(bs[1..], b);
    }
  }

  /** Some bit from n on is set exactly when the number has no room in n bits. */
  lemma {:induction false} BitsAbove(bs: seq<bool>, n: nat)
    requires n <= |bs|
    ensures Pow2(n) <= PackBits(bs) <==> true in bs[n..]
  {
    if n == 0 {
      assert bs[0..] == bs;
      SomeBit(bs);
    } else {
      BitsAbove(bs[1..], n - 1);
      assert bs[1..][n - 1..] == bs[n..];
    }
  }

  lemma {:induction false} SomeBit(bs: seq<bool>)
    ensures 1 <= PackBits(bs) <==> true in bs
  {
    if bs != [] {
      SomeBit(bs[1..]);
      assert bs == [bs[0]] + bs[1..];
    }
  }

  function Min(a: int, b: int): int { if a < b then a else b }

  /** The j-th run of at most eight booleans. */
  function Octet(bs: seq<bool>, j: nat): (o: seq<bool>)
    requires 8 * j <= |bs|
    ensures |o| <= 8
  {
    bs[8 * j..Min(8 * j + 8, |bs|)]
  }

  lemma PackFits(bs: seq<bool>)
    requires |bs| <= 8
    ensures PackBits(bs) < 256
  {
    assert Pow2(8) == 256;
    Pow2Monotone(|bs|, 8);
  }

  lemma Pow2Monotone(a: nat, b: nat)
    requires a <= b
    ensures Pow2(a) <= Pow2(b)
    decreases b
  {
    if a < b { Pow2Monotone(a, b - 1); }
  }

  function PackByte(bs: seq<bool>): (b: byte)
    requires |bs| <= 8
    ensures b == PackBits(bs)
  {
    PackFits(bs);
    PackBits(bs)
  }

  /** A boolean array on the wire: eight per byte, the last byte padded with zero bits. */
  function BoolBytes(bs: seq<bool>): (s: seq<byte>)
    ensures |s| == (|bs| + 7) / 8
  {
    seq((|bs| + 7) / 8, j requires 0 <= j < (|bs| + 7) / 8 => PackByte(Octet(bs, j)))
  }

  lemma BoolBytesBit(bs: seq<bool>, i: nat)
    requires i < |bs|
    ensures Bit(BoolBytes(bs)[i / 8], i % 8) == bs[i]
  {
    BitOfPack(Octet(bs, i / 8), i % 8);
  }

  function UnpackBits(b: nat, n: nat): (bs: seq<bool>)
    ensures |bs| == n
  {
    seq(n, i requires 0 <= i < n => Bit(b, i))
  }

  function UnpackBools(bytes: seq<byte>, n: nat): (bs: seq<bool>)
    requires n <= 8 * |bytes|
    ensures |bs| == n
  {
    seq(n, i requires 0 <= i < n => Bit(bytes[i / 8], i % 8))
  }
}
