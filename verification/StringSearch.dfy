// strchrnul: the word-at-a-time search for a character or the end of a string.

module StringSearch {

  /** Memory as the string functions see it; a string runs up to the first zero. */
  type Memory = seq<bv8>

  const NUL: bv8 := 0

  /** The byte-at-a-time search: the first place at or after i that holds c or zero. */
  function Scan(m: Memory, i: nat, c: bv8): (r: nat)
    requires i <= |m|
    ensures i <= r <= |m|
    ensures forall k :: i <= k < r ==> m[k] != c && m[k] != NUL
    ensures r < |m| ==> m[r] == c || m[r] == NUL
    decreases |m| - i
  {
    if i == |m| || m[i] == c || m[i] == NUL then i else Scan(m, i + 1, c)
  }

  /** A little-endian 32-bit load. */
  function Load(b0: bv8, b1: bv8, b2: bv8, b3: bv8): bv32 {
    (b0 as bv32) | ((b1 as bv32) << 8) | ((b2 as bv32) << 16) | ((b3 as bv32) << 24)
  }

  /** magic_bits for 4-byte words. */
  const MAGIC: bv32 := 0x7efe_feff

  /** Some hole bit of w is unchanged by adding the magic bits. */
  predicate Suspicious(w: bv32) {
    ((w + MAGIC) ^ !w) & !MAGIC != 0
  }

  /** charmask: the character in each byte. */
  function Mask(c: bv8): bv32 {
    var two := (c as bv32) | ((c as bv32) << 8);
    two | (two << 16)
  }

  /** A word with a zero byte is always suspicious. */
  lemma ZeroIsSeen(w: bv32)
    requires w & 0xff == 0 || w & 0xff00 == 0 || w & 0xff_0000 == 0 || w & 0xff00_0000 == 0
    ensures Suspicious(w)
  {
  }

  lemma ZeroByte(b0: bv8, b1: bv8, b2: bv8, b3: bv8)
    ensures var w := Load(b0, b1, b2, b3);
            && (b0 == 0 ==> w & 0xff == 0) && (b1 == 0 ==> w & 0xff00 == 0)
            && (b2 == 0 ==> w & 0xff_0000 == 0) && (b3 == 0 ==> w & 0xff00_0000 == 0)
  {
  }

  /** Exclusive-or with the mask turns a byte that is c into a zero byte. */
  lemma Masked0(b0: bv8, b1: bv8, b2: bv8, b3: bv8)
    ensures (Load(b0, b1, b2, b3) ^ Mask(b0)) & 0xff == 0
  {
  }

  lemma Masked1(b0: bv8, b1: bv8, b2: bv8, b3: bv8)
    ensures (Load(b0, b1, b2, b3) ^ Mask(b1)) & 0xff00 == 0
  {
  }

  lemma Masked2(b0: bv8, b1: bv8, b2: bv8, b3: bv8)
    ensures (Load(b0, b1, b2, b3) ^ Mask(b2)) & 0xff_0000 == 0
  {
  }

  lemma Masked3(b0: bv8, b1: bv8, b2: bv8, b3: bv8)
    ensures (Load(b0, b1, b2, b3) ^ Mask(b3)) & 0xff00_0000 == 0
  {
  }

  /** The test of the search loop never skips a word that holds a zero or the character. */
  lemma NoFalseSkip(b0: bv8, b1: bv8, b2: bv8, b3: bv8, c: bv8)
    requires !Suspicious(Load(b0, b1, b2, b3)) && !Suspicious(Load(b0, b1, b2, b3) ^ Mask(c))
    ensures b0 != 0 && b1 != 0 && b2 != 0 && b3 != 0
    ensures b0 != c && b1 != c && b2 != c && b3 != c
  {
    hide Load, Suspicious, Mask;
    var w := Load(b0, b1, b2, b3);
    ZeroByte(b0, b1, b2, b3);
    Masked0(b0, b1, b2, b3);
    Masked1(b0, b1, b2, b3);
    Masked2(b0, b1, b2, b3);
    Masked3(b0, b1, b2, b3);
    if b0 == 0 || b1 == 0 || b2 == 0 || b3 == 0 {
      ZeroIsSeen(w);
    }
    if b0 == c || b1 == c || b2 == c || b3 == c {
      ZeroIsSeen(w ^ Mask(c));
    }
  }

  /** The alarm is false exactly when the top byte is 0x80 and no byte is zero. */
  lemma FalseAlarm(b0: bv8, b1: bv8, b2: bv8, b3: bv8)
    ensures Suspicious(Load(b0, b1, b2, b3)) <==> b0 == 0 || b1 == 0 || b2 == 0 || b3 == 0 || b3 == 0x80
  {
  }

  /** A zero at or after s; the words up to it can be loaded whole. */
  ghost predicate IsString(m: Memory, base: nat, s: nat) {
    s <= |m| && (base + |m|) % 4 == 0 && exists k :: s <= k < |m| && m[k] == NUL
  }

  lemma {:induction false} ScanSkips(m: Memory, i: nat, j: nat, c: bv8)
    requires i <= j <= |m| && forall k :: i <= k < j ==> m[k] != c && m[k] != NUL
    ensures Scan(m, i, c) == Scan(m, j, c)
    decreases j - i
  {
    if i < j {
      ScanSkips(m, i + 1, j, c);
    }
  }

  lemma ScanStops(m: Memory, base: nat, s: nat, c: bv8)
    requires IsString(m, base, s)
    ensures Scan(m, s, c) < |m|
  {
  }

  /** One word of the search: tests it whole, and looks at its bytes only when the test is suspicious. */
  method SearchWord(m: Memory, p: nat, c: bv8) returns (found: bool, r: nat)
    requires p + 4 <= |m|
    ensures found ==> r == Scan(m, p, c) < p + 4
    ensures !found ==> Scan(m, p, c) >= p + 4
  {
    hide Load, Suspicious, Mask;
    var word := Load(m[p], m[p + 1], m[p + 2], m[p + 3]);
    if Suspicious(word) || Suspicious(word ^ Mask(c)) {
      if m[p] == c || m[p] == NUL {
        return true, p;
      }
      if m[p + 1] == c || m[p + 1] == NUL {
        return true, p + 1;
      }
      if m[p + 2] == c || m[p + 2] == NUL {
        return true, p + 2;
      }
      if m[p + 3] == c || m[p + 3] == NUL {
        return true, p + 3;
      }
    } else {
      NoFalseSkip(m[p], m[p + 1], m[p + 2], m[p + 3], c);
    }
    return false, 0;
  }

  /** strchrnul on the string at s, where address base + i holds m[i]. */
  method StrChrNul(m: Memory, base: nat, s: nat, c: bv8) returns (r: nat)
    requires IsString(m, base, s)
    ensures r == Scan(m, s, c) < |m|
  {
    hide Scan;
    ScanStops(m, base, s, c);
    r := s;
    while (base + r) % 4 != 0
      invariant s <= r <= Scan(m, s, c) && Scan(m, r, c) == Scan(m, s, c)
      decreases |m| - r
    {
      if m[r] == c || m[r] == NUL {
        return r;
      }
      ScanSkips(m, r, r + 1, c);
      r := r + 1;
    }
    while true
      invariant s <= r <= Scan(m, s, c) && Scan(m, r, c) == Scan(m, s, c) && (base + r) % 4 == 0
      decreases |m| - r
    {
      WordInside(base + r, base + |m|);
      var found, q := SearchWord(m, r, c);
      if found {
        return q;
      }
      ScanSkips(m, r, r + 4, c);
      r := r + 4;
    }
  }

  lemma WordInside(a: nat, b: nat)
    requires a < b && a % 4 == 0 && b % 4 == 0
    ensures a + 4 <= b && (a + 4) % 4 == 0
  {
  }
}
