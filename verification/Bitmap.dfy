// Allocation bitmaps: one bit per block or inode of a group.

module Bitmap {
  import opened Arith
  import opened Bytes

  /** b & (1 << k) */
  predicate NumberBit(b: nat, k: nat) {
    if k == 0 then b % 2 == 1 else NumberBit(b / 2, k - 1)
  }

  /** b | (1 << k) */
  function SetNumberBit(b: nat, k: nat): (r: nat)
    ensures NumberBit(r, k)
    decreases k
  {
    if k > 0 then 2 * SetNumberBit(b / 2, k - 1) + b % 2
    else if b % 2 == 1 then b else b + 1
  }

  lemma {:induction false} SetNumberBitOthers(b: nat, k: nat, j: nat)
    requires j != k
    ensures NumberBit(SetNumberBit(b, k), j) == NumberBit(b, j)
  {
    if k > 0 && j > 0 {
      SetNumberBitOthers(b / 2, k - 1, j - 1);
    }
  }

  function Pow2(w: nat): (p: nat)
    ensures p > 0
  {
    if w == 0 then 1 else 2 * Pow2(w - 1)
  }

  /** Bit k is the one with weight 2 to the k. */
  lemma {:induction false} BitWeight(b: nat, k: nat)
    ensures NumberBit(b, k) <==> b / Pow2(k) % 2 == 1
  {
    if k > 0 {
      BitWeight(b / 2, k - 1);
      HalfFirst(b, Pow2(k - 1));
    }
  }

  lemma HalfFirst(b: nat, p: nat)
    requires p > 0
    ensures b / 2 / p == b / (2 * p)
  {
    var h := b / 2;
    var q, r := h / p, h % p;
    DivModParts(h, p);
    assert b == 2 * h + b % 2 && h == q * p + r;
    assert q * (2 * p) == 2 * (q * p);
    DivModUnique(b, q, 2 * p, 2 * r + b % 2);
  }

  lemma {:induction false} SetNumberBitBound(b: nat, k: nat, w: nat)
    requires b < Pow2(w) && k < w
    ensures SetNumberBit(b, k) < Pow2(w)
  {
    if k > 0 {
      SetNumberBitBound(b / 2, k - 1, w - 1);
    }
  }

  function SetByteBit(b: byte, k: nat): (r: byte)
    requires k < 8
    ensures forall j :: 0 <= j < 8 ==> (NumberBit(r, j) <==> j == k || NumberBit(b, j))
  {
    assert Pow2(8) == 256 by { assert Pow2(4) == 16; }
    SetNumberBitBound(b, k, 8);
    assert forall j :: 0 <= j < 8 && j != k ==> NumberBit(SetNumberBit(b, k), j) == NumberBit(b, j) by {
      forall j | 0 <= j < 8 && j != k
        ensures NumberBit(SetNumberBit(b, k), j) == NumberBit(b, j)
      {
        SetNumberBitOthers(b, k, j);
      }
    }
    SetNumberBit(b, k)
  }

  predicate Bit(bm: Block, n: nat)
    requires n < 8 * |bm|
  {
    NumberBit(bm[n / 8], n % 8)
  }

  function SetBit(bm: Block, n: nat): (r: Block)
    requires n < 8 * |bm|
    ensures |r| == |bm|
    ensures forall m: nat :: m < 8 * |bm| ==> (Bit(r, m) <==> m == n || Bit(bm, m))
  {
    bm[n / 8 := SetByteBit(bm[n / 8], n % 8)]
  }

  /** How many of the first n bits are clear. */
  function ClearBits(bm: Block, n: nat): (c: nat)
    requires n <= 8 * |bm|
    ensures c <= n
  {
    if n == 0 then 0 else ClearBits(bm, n - 1) + if Bit(bm, n - 1) then 0 else 1
  }

  lemma {:induction false} SetBitCount(bm: Block, k: nat, n: nat)
    requires n <= 8 * |bm| && k < 8 * |bm| && !Bit(bm, k)
    ensures ClearBits(SetBit(bm, k), n) == ClearBits(bm, n) - if k < n then 1 else 0
  {
    if n > 0 {
      SetBitCount(bm, k, n - 1);
    }
  }

  lemma {:induction false} SomeBitClear(bm: Block, n: nat)
    requires n <= 8 * |bm| && ClearBits(bm, n) > 0
    ensures exists k :: 0 <= k < n && !Bit(bm, k)
  {
    if Bit(bm, n - 1) {
      SomeBitClear(bm, n - 1);
    }
  }

  /** The scan of the allocators: it stops because the free count promises a clear bit. */
  method FirstClear(bm: Block, ghost n: nat) returns (k: nat)
    requires n <= 8 * |bm| && ClearBits(bm, n) > 0
    ensures k < n && !Bit(bm, k)
    ensures forall j :: 0 <= j < k ==> Bit(bm, j)
  {
    SomeBitClear(bm, n);
    k := 0;
    while Bit(bm, k)
      invariant k < n
      invariant forall j :: 0 <= j < k ==> Bit(bm, j)
      decreases n - k
    {
      k := k + 1;
    }
  }
}
