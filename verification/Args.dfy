// Kernel command-line arguments: space-separated words, each a name or
// name=value, kept in a hash map.

module Args {
  import opened Options
  import opened StringSearch
  import opened Tokens
  import opened HashMaps

  const SPACE: bv8 := 0x20
  const EQUALS: bv8 := 0x3d

  /** A stored value: NULL for a word without '='. */
  datatype Value = Null | Str(s: Text)

  type Table = map<Text, Value>

  // ----- one word -----

  /** The first '=' at or after i, or the length. */
  function FirstEq(w: Text, i: nat): (r: nat)
    requires i <= |w|
    ensures i <= r <= |w|
    ensures forall k :: i <= k < r ==> w[k] != EQUALS
    ensures r < |w| ==> w[r] == EQUALS
    decreases |w| - i
  {
    if i == |w| || w[i] == EQUALS then i else FirstEq(w, i + 1)
  }

  function NameOf(w: Text): Text {
    w[..FirstEq(w, 0)]
  }

  function ValueOf(w: Text): Value {
    var e := FirstEq(w, 0);
    if e == |w| then Null else Str(w[e + 1..])
  }

  /** The word is k alone, or k=v. */
  predicate Says(w: Text, k: Text, x: Value) {
    EQUALS !in k && w == match x case Null => k case Str(v) => k + [EQUALS] + v
  }

  /** A word is split at its first '=': there is one way to read it, and an empty value is not a missing one. */
  lemma SplitExact(w: Text, k: Text, x: Value)
    ensures NameOf(w) == k && ValueOf(w) == x <==> Says(w, k, x)
  {
    var e := FirstEq(w, 0);
    assert e < |w| ==> w == w[..e] + [EQUALS] + w[e + 1..];
    if Says(w, k, x) {
      assert forall i :: 0 <= i < |k| ==> w[i] == k[i];
      if x.Str? {
        assert w[|k|] == EQUALS && w[|k| + 1..] == x.s;
      }
    }
  }

  function Enter(t: Table, w: Text): Table {
    t[NameOf(w) := ValueOf(w)]
  }

  function EnterAll(t: Table, ws: seq<Text>): Table {
    if ws == [] then t else Enter(EnterAll(t, ws[..|ws| - 1]), ws[|ws| - 1])
  }

  // ----- what the table means -----

  ghost predicate Named(ws: seq<Text>, k: Text) {
    exists i, x :: 0 <= i < |ws| && Says(ws[i], k, x)
  }

  /** Word i gives k the value x, and no later word has that name. */
  ghost predicate LastSays(ws: seq<Text>, k: Text, i: int, x: Value) {
    0 <= i < |ws| && Says(ws[i], k, x) && forall j, y :: i < j < |ws| ==> !Says(ws[j], k, y)
  }

  /** The last word with the name, -1 when there is none. */
  function LastIndex(ws: seq<Text>, k: Text): (i: int)
    ensures -1 <= i < |ws| && (i >= 0 ==> NameOf(ws[i]) == k)
    ensures forall j :: i < j < |ws| ==> NameOf(ws[j]) != k
  {
    if ws == [] then -1
    else if NameOf(ws[|ws| - 1]) == k then |ws| - 1
    else LastIndex(ws[..|ws| - 1], k)
  }

  lemma {:induction false} TableHasLast(ws: seq<Text>, k: Text)
    ensures var t, i := EnterAll(map[], ws), LastIndex(ws, k);
            (k in t <==> i >= 0) && (k in t ==> t[k] == ValueOf(ws[i]))
  {
    hide NameOf, ValueOf;
    if ws != [] {
      TableHasLast(ws[..|ws| - 1], k);
    }
  }

  /** A name is present exactly when some word has it, and its value is that of the last such word. */
  lemma TableMeans(ws: seq<Text>, k: Text)
    ensures var t := EnterAll(map[], ws);
            (k in t <==> Named(ws, k)) && (k in t ==> exists i :: LastSays(ws, k, i, t[k]))
  {
    hide NameOf, ValueOf, EnterAll, LastIndex, Says;
    TableHasLast(ws, k);
    var t, i := EnterAll(map[], ws), LastIndex(ws, k);
    forall j, x | 0 <= j < |ws|
      ensures NameOf(ws[j]) == k && ValueOf(ws[j]) == x <==> Says(ws[j], k, x)
    {
      SplitExact(ws[j], k, x);
    }
    if k in t {
      assert LastSays(ws, k, i, t[k]);
    }
  }

  /** Parsing one string after another is parsing all their words in order. */
  lemma {:induction false} EnterInOrder(t: Table, a: seq<Text>, b: seq<Text>)
    ensures EnterAll(EnterAll(t, a), b) == EnterAll(t, a + b)
    decreases |b|
  {
    if b == [] {
      assert a + b == a;
    } else {
      var n := |b| - 1;
      EnterInOrder(t, a, b[..n]);
      assert (a + b)[..|a + b| - 1] == a + b[..n];
      assert (a + b)[|a + b| - 1] == b[n];
    }
  }

  // ----- the parser -----

  /** strdup: a fresh zero-terminated copy, readable in whole words. */
  method StrDup(s: Text) returns (buf: array<bv8>, base: nat)
    requires NUL !in s
    ensures fresh(buf) && IsString(buf[..], base, 0) && TextAt(buf[..], 0) == s
  {
    base := 0;
    var n := |s| + 1 + (3 - |s| % 4);
    buf := new bv8[n](i => NUL);
    for i := 0 to |s|
      invariant forall k :: 0 <= k < i ==> buf[k] == s[k]
      invariant forall k :: i <= k < n ==> buf[k] == NUL
    {
      buf[i] := s[i];
    }
    assert buf[..][|s|] == NUL;
    CopyScan(buf[..], s);
  }

  lemma CopyScan(m: Memory, s: Text)
    requires |s| < |m| && m[..|s|] == s && m[|s|] == NUL && NUL !in s
    ensures Scan(m, 0, NUL) == |s| && TextAt(m, 0) == s
  {
    assert forall k :: 0 <= k < |s| ==> m[k] == s[k];
    ScanSkips(m, 0, |s|, NUL);
  }

  /** The string at p. */
  method ReadString(buf: array<bv8>, p: nat) returns (w: Text)
    requires p <= buf.Length
    ensures w == TextAt(buf[..], p)
  {
    var q := p;
    while q < buf.Length && buf[q] != NUL
      invariant p <= q <= buf.Length && Scan(buf[..], q, NUL) == Scan(buf[..], p, NUL)
    {
      q := q + 1;
    }
    w := buf[p..q];
  }

  /** The loop of args_parse over one word. */
  method SplitWord(w: Text) returns (name: Text, value: Value)
    ensures EQUALS !in name && w == match value case Null => name case Str(v) => name + [EQUALS] + v
    ensures name == NameOf(w) && value == ValueOf(w)
  {
    var v := 0;
    while v < |w|
      invariant 0 <= v <= |w| && FirstEq(w, v) == FirstEq(w, 0)
    {
      if w[v] == EQUALS {
        return w[..v], Str(w[v + 1..]);
      }
      v := v + 1;
    }
    SplitExact(w, w, Null);
    return w, Null;
  }

  function StringHash(key: Text): nat {
    if key == [] then 0
    else
      var h := StringHash(key[..|key| - 1]);
      (SignedChar(key[|key| - 1]) + h * 0x40 + h * 0x1_0000 - h) % 0x1_0000_0000
  }

  function SignedChar(c: bv8): int {
    if c as int >= 128 then c as int - 256 else c as int
  }

  /** The words of a command line, in order. */
  function WordsOf(s: Text): seq<Text> {
    Words(s, [], {SPACE})
  }

  /** What a table holds after a series of command lines, the absent ones having no effect. */
  function AfterAll(lines: seq<Option<Text>>): Table {
    if lines == [] then map[]
    else
      var t := AfterAll(lines[..|lines| - 1]);
      var l := lines[|lines| - 1];
      if l.None? then t else EnterAll(t, WordsOf(l.value))
  }

  function AllWords(lines: seq<Option<Text>>): seq<Text> {
    if lines == [] then []
    else
      var l := lines[|lines| - 1];
      AllWords(lines[..|lines| - 1]) + (if l.None? then [] else WordsOf(l.value))
  }

  /** After any series of parses: a name is present exactly when some word of some line has it, and its value is that of
      the last such word. */
  lemma {:induction false} AfterAnyParses(lines: seq<Option<Text>>, k: Text)
    ensures var t, ws := AfterAll(lines), AllWords(lines);
            (k in t <==> Named(ws, k)) && (k in t ==> exists i :: LastSays(ws, k, i, t[k]))
  {
    AfterAllIsOneParse(lines);
    TableMeans(AllWords(lines), k);
  }

  lemma {:induction false} AfterAllIsOneParse(lines: seq<Option<Text>>)
    ensures AfterAll(lines) == EnterAll(map[], AllWords(lines))
  {
    if lines != [] {
      var front, l := lines[..|lines| - 1], lines[|lines| - 1];
      AfterAllIsOneParse(front);
      if l.Some? {
        EnterInOrder(map[], AllWords(front), WordsOf(l.value));
      } else {
        assert AllWords(lines) == AllWords(front);
      }
    }
  }

  const MAX_WORDS := 1024
  const BUCKETS := 10

  class KernelArgs {
    var table: HashMap?<Text, Value>
    ghost var lines: seq<Option<Text>>  // every command line parsed so far

    ghost function Frame(): set<object>
      reads this, table
    {
      if table == null then {} else {table} + table.Repr
    }

    ghost predicate Valid()
      reads this, Frame()
    {
      && (table != null ==> this !in Frame() && table.Valid())
      && Known() == AfterAll(lines)
    }

    /** The arguments known so far; none before the first parse. */
    ghost function Known(): Table
      reads this, table
    {
      if table == null then map[] else table.contents
    }

    constructor ()
      ensures Valid() && lines == []
    {
      table, lines := null, [];
    }

    method Present(karg: Text) returns (r: bool)
      requires Valid()
      ensures r <==> Named(AllWords(lines), karg)
    {
      AfterAnyParses(lines, karg);
      if table == null {
        return false;
      }
      r := table.Has(karg);
    }

    /** NULL for an absent name and for one without a value. */
    method ValueFor(karg: Text) returns (r: Value)
      requires Valid()
      ensures if Named(AllWords(lines), karg) then exists i :: LastSays(AllWords(lines), karg, i, r) else r == Null
    {
      AfterAnyParses(lines, karg);
      if table == null {
        return Null;
      }
      var v := table.Get(karg);
      match v
      case None => return Null;
      case Some(x) => return x;
    }

    /** The buffer holds no more than 1023 words and the closing NULL. */
    method Parse(arg: Option<Text>)
      requires Valid()
      requires arg.Some? ==> NUL !in arg.value && |WordsOf(arg.value)| < MAX_WORDS
      modifies this, Frame()
      ensures Valid() && fresh(Frame() - old(Frame())) && lines == old(lines) + [arg]
    {
      assert (lines + [arg])[..|lines|] == lines;
      if arg.Some? {
        var ws := Split(arg.value);
        Prepare();
        EnterWords(ws);
      }
      lines := lines + [arg];
    }

    /** The table is made on first use. */
    method Prepare()
      requires table != null ==> this !in Frame() && table.Valid()
      modifies this`table
      ensures table != null && this !in Frame() && table.Valid() && fresh(Frame() - old(Frame()))
      ensures Known() == old(Known()) && lines == old(lines)
    {
      if table == null {
        table := new HashMap(BUCKETS, StringHash);
      }
    }

    /** strdup, then tokenize at spaces: the words of the line. */
    static method Split(s: Text) returns (ws: seq<Text>)
      requires NUL !in s
      ensures ws == WordsOf(s)
    {
      var buf, base := StrDup(s);
      assert Chars([SPACE]) == {SPACE};
      RunsAreWords(buf[..], 0, {SPACE});
      var argv := Tokenize(buf, base, [SPACE]);
      ws := [];
      for i := 0 to |argv|
        invariant |argv| == |WordsOf(s)|
        invariant forall k :: 0 <= k < |argv| ==> argv[k] < buf.Length && TextAt(buf[..], argv[k]) == WordsOf(s)[k]
        invariant |ws| == i && forall k :: 0 <= k < i ==> ws[k] == WordsOf(s)[k]
      {
        var w := ReadString(buf, argv[i]);
        ws := ws + [w];
      }
    }

    method EnterWords(ws: seq<Text>)
      requires table != null && this !in Frame() && table.Valid()
      modifies Frame()
      ensures table == old(table) && this !in Frame() && table.Valid() && fresh(Frame() - old(Frame()))
      ensures Known() == EnterAll(old(Known()), ws)
    {
      assert ws[..|ws|] == ws;
      for i := 0 to |ws|
        invariant this !in Frame() && table.Valid() && fresh(Frame() - old(Frame()))
        invariant Known() == EnterAll(old(Known()), ws[..i])
      {
        var name, value := SplitWord(ws[i]);
        assert ws[..i + 1][..i] == ws[..i];
        var _ := table.Set(name, value);
      }
    }
  }
}
