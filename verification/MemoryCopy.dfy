// memcpy and memmove: copying inside one memory, by words where the
// alignment allows it, for every overlap of source and destination.

module MemoryCopy {
  const WORD := 4

  /** Memory after the n elements at s have been copied to d all at once. */
  function Moved<T>(m: seq<T>, d: nat, s: nat, n: nat): seq<T>
    requires d + n <= |m| && s + n <= |m|
  {
    m[..d] + m[s..s + n] + m[d + n..]
  }

  ghost predicate InRange(len: nat, d: nat, s: nat, n: nat) {
    d + n <= len && s + n <= len
  }

  /** From m0, exactly the elements lo..hi of the range have been copied. */
  ghost predicate Copied<T>(m0: seq<T>, m: seq<T>, d: nat, s: nat, n: nat, lo: int, hi: int) {
    && InRange(|m0|, d, s, n) && |m| == |m0| && 0 <= lo <= hi <= n
    && forall j {:trigger m[j]} :: 0 <= j < |m| ==> m[j] == if d + lo <= j < d + hi then m0[j - d + s] else m0[j]
  }

  lemma NoneCopied<T>(m: seq<T>, d: nat, s: nat, n: nat)
    requires InRange(|m|, d, s, n)
    ensures Copied(m, m, d, s, n, 0, 0) && Copied(m, m, d, s, n, n, n)
  {
  }

  lemma AllCopied<T>(m0: seq<T>, m: seq<T>, d: nat, s: nat, n: nat)
    requires Copied(m0, m, d, s, n, 0, n)
    ensures m == Moved(m0, d, s, n)
  {
  }

  /** One aligned load and one store. */
  method CopyWord<T>(mem: array<T>, d: nat, s: nat)
    requires InRange(mem.Length, d, s, WORD)
    modifies mem
    ensures mem[..] == Moved(old(mem[..]), d, s, WORD)
  {
    ghost var m0 := mem[..];
    mem[d], mem[d + 1], mem[d + 2], mem[d + 3] := mem[s], mem[s + 1], mem[s + 2], mem[s + 3];
    WordMoved(m0, mem[..], d, s);
  }

  lemma WordMoved<T>(m0: seq<T>, m: seq<T>, d: nat, s: nat)
    requires InRange(|m0|, d, s, WORD) && |m| == |m0|
    requires m[d] == m0[s] && m[d + 1] == m0[s + 1] && m[d + 2] == m0[s + 2] && m[d + 3] == m0[s + 3]
    requires forall k :: 0 <= k < |m| && !(d <= k < d + WORD) ==> m[k] == m0[k]
    ensures m == Moved(m0, d, s, WORD)
  {
    var w := Moved(m0, d, s, WORD);
    forall k | 0 <= k < |m|
      ensures m[k] == w[k]
    {
      if d <= k < d + WORD {
        assert w[k] == m0[s..s + WORD][k - d] == m0[s + (k - d)];
        assert k == d || k == d + 1 || k == d + 2 || k == d + 3;
      }
    }
  }

  method CopyByte<T>(mem: array<T>, d: nat, s: nat)
    requires InRange(mem.Length, d, s, 1)
    modifies mem
    ensures mem[..] == old(mem[..])[d := old(mem[s])]
  {
    mem[d] := mem[s];
  }

  lemma ByteUp<T>(m0: seq<T>, m: seq<T>, d: nat, s: nat, n: nat, k: nat)
    requires Copied(m0, m, d, s, n, 0, k) && k < n && (s + n <= d || d <= s)
    ensures |m| == |m0| && Copied(m0, m[d + k := m[s + k]], d, s, n, 0, k + 1)
  {
  }

  lemma ByteDown<T>(m0: seq<T>, m: seq<T>, d: nat, s: nat, n: nat, k: nat)
    requires Copied(m0, m, d, s, n, k, n) && 0 < k && s <= d
    ensures |m| == |m0| && k <= n && Copied(m0, m[d + k - 1 := m[s + k - 1]], d, s, n, k - 1, n)
  {
  }

  /** A word copied upward of what is done, towards a lower or a disjoint place. */
  lemma WordUp<T>(m0: seq<T>, m: seq<T>, d: nat, s: nat, n: nat, k: nat)
    requires Copied(m0, m, d, s, n, 0, k) && k + WORD <= n && (s + n <= d || d <= s)
    ensures Copied(m0, Moved(m, d + k, s + k, WORD), d, s, n, 0, k + WORD)
  {
  }

  /** A word copied downward of what is done, towards a higher place. */
  lemma WordDown<T>(m0: seq<T>, m: seq<T>, d: nat, s: nat, n: nat, k: nat)
    requires Copied(m0, m, d, s, n, k, n) && WORD <= k && s <= d
    ensures Copied(m0, Moved(m, d + k - WORD, s + k - WORD, WORD), d, s, n, k - WORD, n)
  {
  }

  /** Whole words first, then the last bytes; right for disjoint ranges, and for a lower destination. */
  method MemCpy<T>(mem: array<T>, d: nat, s: nat, n: nat)
    requires InRange(mem.Length, d, s, n) && (s + n <= d || d <= s)
    modifies mem
    ensures mem[..] == Moved(old(mem[..]), d, s, n)
  {
    hide Copied, Moved;
    NoneCopied(mem[..], d, s, n);
    var words := n / WORD;
    for i := 0 to words
      invariant Copied(old(mem[..]), mem[..], d, s, n, 0, WORD * i)
    {
      WordUp(old(mem[..]), mem[..], d, s, n, WORD * i);
      CopyWord(mem, d + WORD * i, s + WORD * i);
    }
    CopyUp(mem, d, s, n, WORD * words, old(mem[..]));
    AllCopied(old(mem[..]), mem[..], d, s, n);
  }

  /** Single bytes upward, from k on. */
  method CopyUp<T>(mem: array<T>, d: nat, s: nat, n: nat, k: nat, ghost m0: seq<T>)
    requires InRange(mem.Length, d, s, n) && k <= n && Copied(m0, mem[..], d, s, n, 0, k) && (s + n <= d || d <= s)
    modifies mem
    ensures Copied(m0, mem[..], d, s, n, 0, n)
  {
    hide Copied;
    for i := k to n
      invariant Copied(m0, mem[..], d, s, n, 0, i)
    {
      ByteUp(m0, mem[..], d, s, n, i);
      CopyByte(mem, d + i, s + i);
    }
  }

  /** Single bytes downward, below k. */
  method CopyDown<T>(mem: array<T>, d: nat, s: nat, n: nat, k: nat, ghost m0: seq<T>)
    requires InRange(mem.Length, d, s, n) && k <= n && Copied(m0, mem[..], d, s, n, k, n) && s <= d
    modifies mem
    ensures Copied(m0, mem[..], d, s, n, 0, n)
  {
    hide Copied;
    for i := k downto 0
      invariant Copied(m0, mem[..], d, s, n, i, n)
    {
      ByteDown(m0, mem[..], d, s, n, i + 1);
      CopyByte(mem, d + i, s + i);
    }
  }

  /** Addresses are base plus index; only their remainder by the word size matters. */
  method MemMove<T>(mem: array<T>, base: nat, d: nat, s: nat, n: nat)
    requires InRange(mem.Length, d, s, n)
    modifies mem
    ensures mem[..] == Moved(old(mem[..]), d, s, n)
  {
    hide Copied;
    if d == s {
      assert mem[..] == Moved(mem[..], d, s, n);
      return;
    }
    if s + n <= d || d + n <= s {
      MemCpy(mem, d, s, n);
      return;
    }
    if d < s {
      MoveUp(mem, base, d, s, n);
    } else {
      MoveDown(mem, base, d, s, n);
    }
    AllCopied(old(mem[..]), mem[..], d, s, n);
  }

  /** Single bytes upward until the destination is aligned or nothing is left. */
  method AlignUp<T>(mem: array<T>, base: nat, d: nat, s: nat, n: nat) returns (k: nat)
    requires InRange(mem.Length, d, s, n) && d < s
    modifies mem
    ensures k <= n && Copied(old(mem[..]), mem[..], d, s, n, 0, k) && (k == n || (base + d + k) % WORD == 0)
  {
    hide Copied;
    NoneCopied(mem[..], d, s, n);
    k := 0;
    while (base + d + k) % WORD != 0
      invariant 0 <= k <= n && Copied(old(mem[..]), mem[..], d, s, n, 0, k)
      decreases n - k
    {
      if k == n {
        return;
      }
      ByteUp(old(mem[..]), mem[..], d, s, n, k);
      CopyByte(mem, d + k, s + k);
      k := k + 1;
    }
  }

  /** Single bytes downward until the end of the rest is aligned or nothing is left. */
  method AlignDown<T>(mem: array<T>, base: nat, d: nat, s: nat, n: nat) returns (k: nat)
    requires InRange(mem.Length, d, s, n) && s < d
    modifies mem
    ensures k <= n && Copied(old(mem[..]), mem[..], d, s, n, k, n) && (k == 0 || (base + d + k) % WORD == 0)
  {
    hide Copied;
    NoneCopied(mem[..], d, s, n);
    k := n;
    while (base + d + k) % WORD != 0
      invariant 0 <= k <= n && Copied(old(mem[..]), mem[..], d, s, n, k, n)
      decreases k
    {
      if k == 0 {
        return;
      }
      ByteDown(old(mem[..]), mem[..], d, s, n, k);
      k := k - 1;
      CopyByte(mem, d + k, s + k);
    }
  }

  method MoveUp<T>(mem: array<T>, base: nat, d: nat, s: nat, n: nat)
    requires InRange(mem.Length, d, s, n) && d < s
    modifies mem
    ensures Copied(old(mem[..]), mem[..], d, s, n, 0, n)
  {
    hide Copied, Moved;
    NoneCopied(mem[..], d, s, n);
    var k := 0;
    if (base + s) % WORD == (base + d) % WORD {
      k := AlignUp(mem, base, d, s, n);
      while n - k >= WORD
        invariant 0 <= k <= n && Copied(old(mem[..]), mem[..], d, s, n, 0, k)
      {
        WordUp(old(mem[..]), mem[..], d, s, n, k);
        CopyWord(mem, d + k, s + k);
        k := k + WORD;
      }
    }
    CopyUp(mem, d, s, n, k, old(mem[..]));
  }

  method MoveDown<T>(mem: array<T>, base: nat, d: nat, s: nat, n: nat)
    requires InRange(mem.Length, d, s, n) && s < d
    modifies mem
    ensures Copied(old(mem[..]), mem[..], d, s, n, 0, n)
  {
    hide Copied, Moved;
    NoneCopied(mem[..], d, s, n);
    var k := n;
    if (base + s) % WORD == (base + d) % WORD {
      k := AlignDown(mem, base, d, s, n);
      while k >= WORD
        invariant 0 <= k <= n && Copied(old(mem[..]), mem[..], d, s, n, k, n)
      {
        WordDown(old(mem[..]), mem[..], d, s, n, k);
        k := k - WORD;
        CopyWord(mem, d + k, s + k);
      }
    }
    CopyDown(mem, d, s, n, k, old(mem[..]));
  }
}
