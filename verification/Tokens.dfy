// strtok_r and tokenize: splitting a string in place into the runs between
// delimiters.

module Tokens {
  import opened Options
  import opened StringSearch

  type Text = seq<bv8>

  /** The string at p, without its terminating zero. */
  function TextAt(m: Memory, p: nat): Text
    requires p <= |m|
  {
    m[p..Scan(m, p, NUL)]
  }

  function Chars(d: Text): set<bv8> {
    set c | c in d
  }

  /** The first place at or after p that is not a delimiter. */
  function SkipIn(m: Memory, p: nat, d: set<bv8>): (r: nat)
    requires p <= |m|
    ensures p <= r <= |m|
    ensures forall k :: p <= k < r ==> m[k] in d
    ensures r < |m| ==> m[r] !in d
    decreases |m| - p
  {
    if p == |m| || m[p] !in d then p else SkipIn(m, p + 1, d)
  }

  /** The first place at or after p that is a delimiter or the end. */
  function SkipOut(m: Memory, p: nat, d: set<bv8>): (r: nat)
    requires p <= |m|
    ensures p <= r <= |m|
    ensures forall k :: p <= k < r ==> m[k] !in d && m[k] != NUL
    ensures r < |m| ==> m[r] in d || m[r] == NUL
    decreases |m| - p
  {
    if p == |m| || m[p] in d || m[p] == NUL then p else SkipOut(m, p + 1, d)
  }

  /** Delimiters are characters of a C string, so zero is not among them. */
  ghost predicate IsDelim(d: Text) {
    NUL !in d
  }

  // ----- the primitives -----

  /** A zero at or after p ends every skip. */
  lemma SkipStops(m: Memory, base: nat, p: nat, d: Text)
    requires IsString(m, base, p) && IsDelim(d)
    ensures SkipIn(m, p, Chars(d)) < |m| && SkipOut(m, p, Chars(d)) < |m|
    ensures IsString(m, base, SkipIn(m, p, Chars(d))) && IsString(m, base, SkipOut(m, p, Chars(d)))
  {
    var z :| p <= z < |m| && m[z] == NUL;
  }

  method StrSpn(m: Memory, base: nat, s: nat, d: Text) returns (r: nat)
    requires IsString(m, base, s) && IsDelim(d)
    ensures s + r == SkipIn(m, s, Chars(d))
  {
    SkipStops(m, base, s, d);
    var a := s;
    if d == [] {
      return 0;
    }
    if |d| == 1 {
      while m[a] == d[0]
        invariant s <= a <= SkipIn(m, s, Chars(d)) && SkipIn(m, a, Chars(d)) == SkipIn(m, s, Chars(d))
        decreases |m| - a
      {
        a := a + 1;
      }
      return a - s;
    }
    var byteset := Chars(d);
    while m[a] != NUL && m[a] in byteset
      invariant s <= a <= SkipIn(m, s, Chars(d)) && SkipIn(m, a, Chars(d)) == SkipIn(m, s, Chars(d))
      decreases |m| - a
    {
      a := a + 1;
    }
    return a - s;
  }

  lemma {:induction false} SkipOutOne(m: Memory, p: nat, c: bv8)
    requires p <= |m|
    ensures SkipOut(m, p, {c}) == Scan(m, p, c)
    ensures SkipOut(m, p, {}) == Scan(m, p, NUL)
    decreases |m| - p
  {
    if p < |m| {
      SkipOutOne(m, p + 1, c);
    }
  }

  method StrCspn(m: Memory, base: nat, s: nat, d: Text) returns (r: nat)
    requires IsString(m, base, s) && IsDelim(d)
    ensures s + r == SkipOut(m, s, Chars(d))
  {
    SkipStops(m, base, s, d);
    if |d| >= 2 {
      var byteset := Chars(d);
      var a := s;
      while m[a] != NUL && m[a] !in byteset
        invariant s <= a <= SkipOut(m, s, Chars(d)) && SkipOut(m, a, Chars(d)) == SkipOut(m, s, Chars(d))
        decreases |m| - a
      {
        a := a + 1;
      }
      return a - s;
    }
    var c := if d == [] then NUL else d[0];
    SkipOutOne(m, s, c);
    assert Chars(d) == if d == [] then {} else {c};
    var e := StrChrNul(m, base, s, c);
    return e - s;
  }

  /** strpbrk: the first delimiter of the string, if there is one. */
  method StrPbrk(m: Memory, base: nat, s: nat, d: Text) returns (r: Option<nat>)
    requires IsString(m, base, s) && IsDelim(d)
    ensures var e := SkipOut(m, s, Chars(d)); e < |m| && r == if m[e] == NUL then None else Some(e)
  {
    SkipStops(m, base, s, d);
    var n := StrCspn(m, base, s, d);
    return if m[s + n] != NUL then Some(s + n) else None;
  }

  // ----- strtok_r -----

  /** What one call does: the token, the new save pointer and the memory afterwards. */
  function Tok(m: Memory, p: nat, d: set<bv8>): (r: (Option<nat>, nat, Memory))
    requires p <= |m|
  {
    var t := SkipIn(m, p, d);
    if t == |m| || m[t] == NUL then (None, t, m)
    else
      var e := SkipOut(m, t, d);
      if e == |m| || m[e] == NUL then (Some(t), e, m) else (Some(t), e + 1, m[e := NUL])
  }

  method StrTokR(buf: array<bv8>, base: nat, p: nat, d: Text) returns (token: Option<nat>, save: nat)
    requires IsString(buf[..], base, p) && IsDelim(d)
    modifies buf
    ensures (token, save, buf[..]) == Tok(old(buf[..]), p, Chars(d))
  {
    ghost var m := buf[..];
    var n := StrSpn(buf[..], base, p, d);
    var str := p + n;
    SkipStops(m, base, p, d);
    if buf[str] == NUL {
      return None, str;
    }
    SkipStops(m, base, str, d);
    var e := StrPbrk(buf[..], base, str, d);
    match e
    case None =>
      var z := StrChrNul(buf[..], base, str, NUL);
      EndIsScan(m, str, Chars(d));
      return Some(str), z;
    case Some(q) =>
      buf[q] := NUL;
      return Some(str), q + 1;
  }

  lemma EndIsScan(m: Memory, p: nat, d: set<bv8>)
    requires p <= |m| && var e := SkipOut(m, p, d); e < |m| && m[e] == NUL
    ensures Scan(m, p, NUL) == SkipOut(m, p, d)
  {
    ScanSkips(m, p, SkipOut(m, p, d), NUL);
  }

  // ----- tokenize -----

  /** The runs between delimiters, found by skipping. */
  function Runs(m: Memory, p: nat, d: set<bv8>): seq<Text>
    requires p <= |m|
    decreases |m| - p, 1
  {
    var t := SkipIn(m, p, d);
    if t == |m| || m[t] == NUL then [] else [m[t..SkipOut(m, t, d)]] + Later(m, SkipOut(m, t, d), d)
  }

  /** The runs behind one that ends at e. */
  function Later(m: Memory, e: nat, d: set<bv8>): seq<Text>
    requires e <= |m|
    decreases |m| - e, 0
  {
    if e == |m| || m[e] == NUL then [] else Runs(m, e + 1, d)
  }

  /** The same, one character at a time: the maximal runs of non-delimiters. */
  function Words(s: Text, cur: Text, d: set<bv8>): seq<Text> {
    if s == [] then (if cur == [] then [] else [cur])
    else if s[0] in d then (if cur == [] then [] else [cur]) + Words(s[1..], [], d)
    else Words(s[1..], cur + [s[0]], d)
  }

  lemma {:induction false} WordsSkip(s: Text, k: nat, d: set<bv8>)
    requires k <= |s| && forall i :: 0 <= i < k ==> s[i] in d
    ensures Words(s, [], d) == Words(s[k..], [], d)
  {
    if k > 0 {
      WordsSkip(s[1..], k - 1, d);
      assert s[1..][k - 1..] == s[k..];
    }
  }

  lemma {:induction false} WordsTake(s: Text, cur: Text, k: nat, d: set<bv8>)
    requires k <= |s| && forall i :: 0 <= i < k ==> s[i] !in d
    ensures Words(s, cur, d) == Words(s[k..], cur + s[..k], d)
    decreases k
  {
    if k == 0 {
      assert cur + s[..0] == cur;
    } else {
      WordsTake(s[1..], cur + [s[0]], k - 1, d);
      assert s[1..][k - 1..] == s[k..];
      assert cur + [s[0]] + s[1..][..k - 1] == cur + s[..k];
    }
  }

  /** The first word of a string that starts with a non-delimiter. */
  lemma WordsHead(m: Memory, t: nat, z: nat, d: set<bv8>)
    requires t < |m| && t < z == Scan(m, t, NUL) < |m| && NUL !in d && m[t] !in d
    ensures var e := SkipOut(m, t, d);
            t < e <= z && Words(m[t..z], [], d) == [m[t..e]] + if e == z then [] else Words(m[e + 1..z], [], d)
  {
    var e := SkipOut(m, t, d);
    hide SkipOut, Scan, Words;
    assert e <= z;
    var w := m[t..z];
    WordsTake(w, [], e - t, d);
    assert w[e - t..] == m[e..z] && [] + w[..e - t] == m[t..e];
    if e == z {
      assert m[e..z] == [];
    } else {
      assert m[e..z][0] == m[e] && m[e] != NUL && m[e] in d;
      assert m[e..z][1..] == m[e + 1..z];
    }
    WordsEnd(m[e..z], m[t..e], d);
  }

  lemma WordsEnd(s: Text, cur: Text, d: set<bv8>)
    requires cur != [] && (s == [] || s[0] in d)
    ensures Words(s, cur, d) == [cur] + if s == [] then [] else Words(s[1..], [], d)
  {
  }

  lemma WordsNone(d: set<bv8>)
    ensures Words([], [], d) == []
  {
  }

  /** The words with gaps before, between and behind them. */
  function Spread(gaps: seq<Text>, ws: seq<Text>): Text
    requires |gaps| == |ws| + 1
  {
    if ws == [] then gaps[0] else gaps[0] + ws[0] + Spread(gaps[1..], ws[1..])
  }

  ghost predicate SpreadOk(gaps: seq<Text>, ws: seq<Text>, d: set<bv8>) {
    && |gaps| == |ws| + 1
    && (forall i, k :: 0 <= i < |gaps| && 0 <= k < |gaps[i]| ==> gaps[i][k] in d)
    && (forall i :: 0 < i < |ws| ==> gaps[i] != [])
    && (forall i :: 0 <= i < |ws| ==> ws[i] != [])
    && (forall i, k :: 0 <= i < |ws| && 0 <= k < |ws[i]| ==> ws[i][k] !in d)
  }

  /** Words set apart by delimiters are found again, whatever the gaps. */
  lemma {:induction false} WordsFound(gaps: seq<Text>, ws: seq<Text>, d: set<bv8>)
    requires SpreadOk(gaps, ws, d)
    ensures Words(Spread(gaps, ws), [], d) == ws
    decreases |ws|
  {
    hide Words;
    if ws == [] {
      WordsSkip(gaps[0], |gaps[0]|, d);
      WordsNone(d);
      assert gaps[0][|gaps[0]|..] == [];
    } else {
      var rest := Spread(gaps[1..], ws[1..]);
      assert SpreadOk(gaps[1..], ws[1..], d);
      WordsFound(gaps[1..], ws[1..], d);
      SpreadStart(gaps[1..], ws[1..], d);
      assert ws == [ws[0]] + ws[1..];
      FirstWord(gaps[0], ws[0], rest, d);
    }
  }

  lemma FirstWord(gap: Text, w: Text, rest: Text, d: set<bv8>)
    requires w != [] && (rest == [] || rest[0] in d)
    requires (forall k :: 0 <= k < |gap| ==> gap[k] in d) && (forall k :: 0 <= k < |w| ==> w[k] !in d)
    ensures Words(gap + w + rest, [], d) == [w] + Words(rest, [], d)
  {
    hide Words;
    WordsSkip(gap + w + rest, |gap|, d);
    assert (gap + w + rest)[|gap|..] == w + rest;
    WordsTake(w + rest, [], |w|, d);
    assert (w + rest)[|w|..] == rest && [] + (w + rest)[..|w|] == w;
    WordsEnd(rest, w, d);
    if rest == [] {
      WordsNone(d);
    } else {
      WordsSkip(rest, 1, d);
    }
  }

  lemma SpreadStart(gaps: seq<Text>, ws: seq<Text>, d: set<bv8>)
    requires SpreadOk(gaps, ws, d) && (ws != [] ==> gaps[0] != [])
    ensures Spread(gaps, ws) == [] || Spread(gaps, ws)[0] in d
  {
  }

  /** What tokenize finds are exactly the maximal runs of non-delimiters of the string. */
  lemma {:induction false} RunsAreWords(m: Memory, p: nat, d: set<bv8>)
    requires p <= |m| && NUL !in d && Scan(m, p, NUL) < |m|
    ensures Runs(m, p, d) == Words(TextAt(m, p), [], d)
    decreases |m| - p, 1
  {
    hide SkipIn, SkipOut, Scan, Words, Later;
    var s, z := TextAt(m, p), Scan(m, p, NUL);
    var t := SkipIn(m, p, d);
    assert t <= z;
    WordsSkip(s, t - p, d);
    ScanSkips(m, p, t, NUL);
    assert s[t - p..] == m[t..z];
    if t == z {
      assert m[t..z] == [];
      WordsNone(d);
    } else {
      WordsHead(m, t, z, d);
      LaterAreWords(m, t, z, d);
    }
  }

  /** The same for the runs behind the one at t, in the string that ends at z. */
  lemma {:induction false} LaterAreWords(m: Memory, t: nat, z: nat, d: set<bv8>)
    requires t < |m| && NUL !in d && m[t] !in d && t < z == Scan(m, t, NUL) < |m|
    ensures var e := SkipOut(m, t, d);
            t < e <= z && Later(m, e, d) == if e == z then [] else Words(m[e + 1..z], [], d)
    decreases |m| - t, 0
  {
    hide SkipOut, Scan, Words, Runs;
    WordsHead(m, t, z, d);
    var e := SkipOut(m, t, d);
    if e < z {
      ScanSkips(m, t, e + 1, NUL);
      RunsAreWords(m, e + 1, d);
    }
  }

  /** The runs depend only on the memory from p on. */
  lemma {:induction false} SkipSuffix(m: Memory, m': Memory, p: nat, q: nat, d: set<bv8>)
    requires p <= q <= |m| == |m'| && m'[p..] == m[p..]
    ensures SkipIn(m', q, d) == SkipIn(m, q, d) && SkipOut(m', q, d) == SkipOut(m, q, d)
              && Scan(m', q, NUL) == Scan(m, q, NUL)
    decreases |m| - q
  {
    if q < |m| {
      assert m'[p..][q - p] == m[p..][q - p];
      SkipSuffix(m, m', p, q + 1, d);
    }
  }

  lemma SameFrom(m: Memory, m': Memory, p: nat, a: nat, b: nat)
    requires p <= a <= b <= |m| == |m'| && m'[p..] == m[p..]
    ensures m'[a..b] == m[a..b] && m'[b..] == m[b..] && (b < |m| ==> m'[b] == m[b])
  {
    assert forall k :: p <= k < |m| ==> m'[k] == m'[p..][k - p] == m[k];
  }

  lemma {:induction false} RunsSuffix(m: Memory, m': Memory, p: nat, d: set<bv8>)
    requires p <= |m| == |m'| && m'[p..] == m[p..]
    ensures Runs(m', p, d) == Runs(m, p, d)
    decreases |m| - p, 1
  {
    hide SkipIn, SkipOut, Scan, Later;
    SkipSuffix(m, m', p, p, d);
    var t := SkipIn(m, p, d);
    SameFrom(m, m', p, p, t);
    SkipSuffix(m, m', p, t, d);
    var e := SkipOut(m, t, d);
    SameFrom(m, m', p, t, e);
    LaterSuffix(m, m', e, d);
  }

  lemma {:induction false} LaterSuffix(m: Memory, m': Memory, e: nat, d: set<bv8>)
    requires e <= |m| == |m'| && m'[e..] == m[e..]
    ensures Later(m', e, d) == Later(m, e, d)
    decreases |m| - e, 0
  {
    hide Runs;
    if e < |m| {
      SameFrom(m, m', e, e, e);
      SameFrom(m, m', e, e, e + 1);
      RunsSuffix(m, m', e + 1, d);
    }
  }

  /** A zero written behind the end of a string does not change it. */
  lemma {:induction false} TextKept(m: Memory, x: nat, e: nat)
    requires x <= |m| && Scan(m, x, NUL) < e < |m|
    ensures Scan(m[e := NUL], x, NUL) == Scan(m, x, NUL) && TextAt(m[e := NUL], x) == TextAt(m, x)
    decreases |m| - x
  {
    var m' := m[e := NUL];
    if m[x] != NUL {
      TextKept(m, x + 1, e);
    }
  }

  lemma NulNoDelim(d: Text)
    requires IsDelim(d)
    ensures NUL !in Chars(d)
  {
  }

  lemma ScanHere(m: Memory, i: nat)
    requires i < |m| && m[i] == NUL
    ensures Scan(m, i, NUL) == i
  {
  }

  lemma RunsAt(m: Memory, p: nat, d: set<bv8>)
    requires p <= |m|
    ensures var t := SkipIn(m, p, d);
            Runs(m, p, d) == if t == |m| || m[t] == NUL then []
                else [m[t..SkipOut(m, t, d)]] + Later(m, SkipOut(m, t, d), d)
  {
    hide SkipIn, SkipOut, Later;
  }

  /** The last run ends at the end of the string; nothing is written. */
  lemma TokLast(m: Memory, t: nat, d: set<bv8>)
    requires t < |m| && NUL !in d && var e := SkipOut(m, t, d); e < |m| && m[e] == NUL
    ensures Scan(m, t, NUL) == SkipOut(m, t, d) && Later(m, SkipOut(m, t, d), d) == []
              && Runs(m, SkipOut(m, t, d), d) == []
  {
    hide SkipOut, Scan;
    EndIsScan(m, t, d);
  }

  /** Any other run is cut off by a zero in place of its delimiter; the runs behind it stay. */
  lemma TokCut(m: Memory, t: nat, d: set<bv8>)
    requires t < |m| && var e := SkipOut(m, t, d); e < |m| && m[e] != NUL
    ensures var e := SkipOut(m, t, d); var m' := m[e := NUL];
            Scan(m', t, NUL) == e && TextAt(m', t) == m[t..e] && Later(m, e, d) == Runs(m', e + 1, d)
  {
    hide SkipOut, Runs, Scan;
    var e := SkipOut(m, t, d);
    var m' := m[e := NUL];
    ScanHere(m', e);
    ScanSkips(m', t, e, NUL);
    assert m'[t..e] == m[t..e];
    assert m'[e + 1..] == m[e + 1..];
    RunsSuffix(m, m', e + 1, d);
  }

  /** One call of strtok_r: the first run is handed out as the string at t, the others are left behind the save
      pointer. */
  ghost predicate Handed(m: Memory, base: nat, p: nat, d: Text, tok: Option<nat>, save: nat, m': Memory) {
    && p <= save < |m| == |m'| && IsString(m', base, save)
    && match tok
       case None => Runs(m, p, Chars(d)) == [] && m' == m
       case Some(t) =>
         && t < |m| && Scan(m', t, NUL) <= save
         && Runs(m, p, Chars(d)) == [TextAt(m', t)] + Runs(m', save, Chars(d))
         && (m' == m || (p < save - 1 && m' == m[save - 1 := NUL] && m[p] != NUL))
  }

  lemma TokStep(m: Memory, base: nat, p: nat, d: Text)
    requires IsString(m, base, p) && IsDelim(d)
    ensures var (tok, save, m') := Tok(m, p, Chars(d)); Handed(m, base, p, d, tok, save, m')
  {
    hide SkipIn, SkipOut, Scan, Chars, IsString, Runs, Later, Handed;
    SkipStops(m, base, p, d);
    var t := SkipIn(m, p, Chars(d));
    if m[t] == NUL {
      HandedNone(m, base, p, d);
    } else {
      SkipStops(m, base, t, d);
      if m[SkipOut(m, t, Chars(d))] == NUL {
        HandedLast(m, base, p, d, t);
      } else {
        HandedCut(m, base, p, d, t);
      }
    }
  }

  lemma HandedNone(m: Memory, base: nat, p: nat, d: Text)
    requires IsString(m, base, p) && IsDelim(d) && var t := SkipIn(m, p, Chars(d)); t < |m| && m[t] == NUL
    ensures Handed(m, base, p, d, None, SkipIn(m, p, Chars(d)), m)
  {
    hide SkipIn, SkipOut, Scan, Chars, IsString, Runs, Later;
    SkipStops(m, base, p, d);
    RunsAt(m, p, Chars(d));
  }

  lemma HandedLast(m: Memory, base: nat, p: nat, d: Text, t: nat)
    requires IsString(m, base, p) && IsDelim(d) && t == SkipIn(m, p, Chars(d)) < |m| && m[t] != NUL
             && IsString(m, base, t)
    requires var e := SkipOut(m, t, Chars(d)); e < |m| && m[e] == NUL
    ensures Handed(m, base, p, d, Some(t), SkipOut(m, t, Chars(d)), m)
  {
    hide SkipIn, SkipOut, Scan, Chars, IsString, Runs, Later;
    SkipStops(m, base, t, d);
    NulNoDelim(d);
    RunsAt(m, p, Chars(d));
    TokLast(m, t, Chars(d));
  }

  lemma HandedCut(m: Memory, base: nat, p: nat, d: Text, t: nat)
    requires IsString(m, base, p) && IsDelim(d) && t == SkipIn(m, p, Chars(d)) < |m| && m[t] != NUL
             && IsString(m, base, t)
    requires var e := SkipOut(m, t, Chars(d)); e < |m| && m[e] != NUL
    ensures var e := SkipOut(m, t, Chars(d)); Handed(m, base, p, d, Some(t), e + 1, m[e := NUL])
  {
    hide SkipIn, SkipOut, Scan, Chars, IsString, Runs, Later;
    SkipStops(m, base, t, d);
    NulNoDelim(d);
    RunsAt(m, p, Chars(d));
    TokCut(m, t, Chars(d));
    StringBehind(m, base, t, SkipOut(m, t, Chars(d)));
    BehindNotLast(m[SkipOut(m, t, Chars(d)) := NUL], base, SkipOut(m, t, Chars(d)) + 1);
  }

  lemma BehindNotLast(m: Memory, base: nat, s: nat)
    requires IsString(m, base, s)
    ensures s < |m|
  {
  }

  lemma StringBehind(m: Memory, base: nat, t: nat, e: nat)
    requires IsString(m, base, e) && t <= e < |m| && m[e] != NUL
    ensures IsString(m[e := NUL], base, e + 1)
  {
    var z :| e <= z < |m| && m[z] == NUL;
    assert m[e := NUL][z] == NUL;
  }

  /** The strings at argv, all ended by the save pointer, are the runs found so far. */
  ghost predicate Collected(m: Memory, argv: seq<nat>, done: seq<Text>, save: nat) {
    && |argv| == |done| && save <= |m|
    && forall i :: 0 <= i < |argv| ==> argv[i] < |m| && Scan(m, argv[i], NUL) <= save && TextAt(m, argv[i]) == done[i]
  }

  /** A further call of strtok_r does not touch the strings handed out before. */
  lemma StillCollected(m: Memory, base: nat, d: Text, argv: seq<nat>, done: seq<Text>, save: nat, tok: Option<nat>,
      save': nat, m': Memory)
    requires Collected(m, argv, done, save) && Handed(m, base, save, d, tok, save', m')
    ensures Collected(m', argv, done, save')
  {
    hide Scan, Runs, Chars;
    forall i | 0 <= i < |argv|
      ensures Scan(m', argv[i], NUL) <= save' && TextAt(m', argv[i]) == done[i]
    {
      if m' != m {
        TextKept(m, argv[i], save' - 1);
      }
    }
  }

  ghost predicate Walked(m0: Memory, d: set<bv8>, m: Memory, base: nat, argv: seq<nat>, done: seq<Text>,
      tok: Option<nat>, save: nat) {
    && Collected(m, argv, done, save) && IsString(m, base, save) && |m0| == |m|
    && match tok
       case None => Runs(m0, 0, d) == done
       case Some(t) => t < |m| && Scan(m, t, NUL) <= save && Runs(m0, 0, d) == done + [TextAt(m, t)] + Runs(m, save, d)
  }

  lemma WalkStart(m: Memory, base: nat, d: Text)
    requires IsString(m, base, 0) && IsDelim(d)
    ensures var (tok, save, m') := Tok(m, 0, Chars(d)); Walked(m, Chars(d), m', base, [], [], tok, save)
  {
    hide Runs, Chars, Tok, Scan, IsString;
    TokStep(m, base, 0, d);
  }

  lemma WalkStep(m0: Memory, d: Text, m: Memory, base: nat, argv: seq<nat>, done: seq<Text>, t: nat, save: nat)
    requires Walked(m0, Chars(d), m, base, argv, done, Some(t), save) && IsDelim(d)
    ensures var (tok, save', m') := Tok(m, save, Chars(d));
            Walked(m0, Chars(d), m', base, argv + [t], done + [TextAt(m, t)], tok, save')
  {
    hide Runs, Chars, Tok, Scan, IsString, TextAt;
    TokStep(m, base, save, d);
    var (tok, save', m') := Tok(m, save, Chars(d));
    StillCollected(m, base, d, argv + [t], done + [TextAt(m, t)], save, tok, save', m');
  }

  /** tokenize: in the rewritten buffer, the strings at argv are the runs of the original string. */
  method Tokenize(buf: array<bv8>, base: nat, d: Text) returns (argv: seq<nat>)
    requires IsString(buf[..], base, 0) && IsDelim(d)
    modifies buf
    ensures forall i :: 0 <= i < |argv| ==> argv[i] < buf.Length
    ensures |argv| == |Runs(old(buf[..]), 0, Chars(d))|
    ensures forall i :: 0 <= i < |argv| ==> TextAt(buf[..], argv[i]) == Runs(old(buf[..]), 0, Chars(d))[i]
  {
    hide Runs, Chars, Tok, Scan, TextAt;
    ghost var m0 := buf[..];
    WalkStart(m0, base, d);
    var token, save := StrTokR(buf, base, 0, d);
    argv := [];
    ghost var done := [];
    while token.Some?
      invariant Walked(m0, Chars(d), buf[..], base, argv, done, token, save)
      decreases |Runs(m0, 0, Chars(d))| - |done|
    {
      var t := token.value;
      WalkStep(m0, d, buf[..], base, argv, done, t, save);
      argv, done := argv + [t], done + [TextAt(buf[..], t)];
      token, save := StrTokR(buf, base, save, d);
    }
  }
}
