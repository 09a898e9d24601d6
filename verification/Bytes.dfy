// Byte strings and the little-endian fields that the driver reads and writes
// by casting pointers into a block buffer.

module Arith {

  lemma DivModUnique(a: int, q: int, d: int, r: int)
    requires d > 0 && 0 <= r < d && a == q * d + r
    ensures a / d == q && a % d == r
  {
    var q', r' := a / d, a % d;
    assert a == q' * d + r';
    assert (q - q') * d == r' - r;
    if q > q' {
      MulLe(1, q - q', d);
    } else if q < q' {
      MulLe(1, q' - q, d);
    }
  }

  lemma MulLe(a: int, b: int, c: int)
    requires a <= b && c >= 0
    ensures a * c <= b * c
  {
  }

  lemma DivModParts(a: int, d: int)
    requires d > 0 && a >= 0
    ensures a / d >= 0 && 0 <= a % d < d && a == (a / d) * d + a % d
  {
  }

  /** a < q * d exactly when the quotient of a is below q. */
  lemma DivBelow(a: int, q: int, d: int)
    requires d > 0 && a >= 0
    ensures a < q * d <==> a / d < q
  {
    DivModParts(a, d);
    if a / d < q {
      MulLe(a / d + 1, q, d);
    } else {
      MulLe(q, a / d, d);
    }
  }
}

module Bytes {
  type byte = x: int | 0 <= x < 256

  /** The contents of one block of the device, or of any memory buffer. */
  type Block = seq<byte>

  const U32 := 0x1_0000_0000

  function Zeros(n: nat): (z: Block)
    ensures |z| == n
  {
    seq(n, _ => 0)
  }

  function GetU8(s: Block, o: nat): (v: nat)
    requires o < |s|
    ensures v < 256
  {
    s[o]
  }

  function GetU16(s: Block, o: nat): (v: nat)
    requires o + 2 <= |s|
    ensures v < 0x1_0000
  {
    s[o] as int + 256 * (s[o + 1] as int)
  }

  function GetU32(s: Block, o: nat): (v: nat)
    requires o + 4 <= |s|
    ensures v < U32
  {
    s[o] as int + 256 * (s[o + 1] as int) + 0x1_0000 * (s[o + 2] as int) + 0x100_0000 * (s[o + 3] as int)
  }

  function PutU16(s: Block, o: nat, v: nat): (r: Block)
    requires o + 2 <= |s| && v < 0x1_0000
    ensures |r| == |s| && GetU16(r, o) == v
    ensures forall k :: 0 <= k < |s| && !(o <= k < o + 2) ==> r[k] == s[k]
  {
    s[o := v % 256][o + 1 := v / 256]
  }

  function PutU32(s: Block, o: nat, v: nat): (r: Block)
    requires o + 4 <= |s| && v < U32
    ensures |r| == |s| && GetU32(r, o) == v
    ensures forall k :: 0 <= k < |s| && !(o <= k < o + 4) ==> r[k] == s[k]
  {
    var v1 := v / 256;
    var v2 := v1 / 256;
    var v3 := v2 / 256;
    s[o := v % 256][o + 1 := v1 % 256][o + 2 := v2 % 256][o + 3 := v3]
  }

  /** memcpy of t into s at offset o. */
  function Splice(s: Block, o: nat, t: Block): (r: Block)
    requires o + |t| <= |s|
    ensures |r| == |s| && r[o..o + |t|] == t
    ensures forall k :: 0 <= k < |s| && !(o <= k < o + |t|) ==> r[k] == s[k]
    ensures forall k :: o <= k < o + |t| ==> r[k] == t[k - o]
  {
    s[..o] + t + s[o + |t|..]
  }

  /** Entry k of a block read as an array of 32-bit block numbers. */
  function Ptr(b: Block, k: nat): (v: nat)
    requires 4 * k + 4 <= |b|
    ensures v < U32
  {
    GetU32(b, 4 * k)
  }

  function SetPtr(b: Block, k: nat, v: nat): (r: Block)
    requires 4 * k + 4 <= |b| && v < U32
    ensures |r| == |b|
    ensures forall j: nat :: 4 * j + 4 <= |b| ==> Ptr(r, j) == if j == k then v else Ptr(b, j)
  {
    PutU32(b, 4 * k, v)
  }

  lemma ZeroPtr(n: nat, k: nat)
    requires 4 * k + 4 <= n
    ensures Ptr(Zeros(n), k) == 0
  {
  }
}
