// The chained hash map: buckets of singly linked entries, for any hash function.

module HashMaps {
  import opened Options

  class Entry<K, V> {
    const key: K
    var value: V
    var next: Entry?<K, V>
    ghost const home: object  // the bucket it was made for

    constructor (k: K, v: V, ghost h: object)
      ensures key == k && value == v && next == null && home == h
    {
      home := h;
      key := k;
      value := v;
      next := null;
    }
  }

  function At<K, V>(es: seq<Entry<K, V>>, i: int): Entry?<K, V> {
    if 0 <= i < |es| then es[i] else null
  }

  ghost predicate DistinctKeys<K, V>(es: seq<Entry<K, V>>) {
    forall i, j :: 0 <= i < j < |es| ==> es[i].key != es[j].key
  }

  /** Entry i links to the next one and holds its key's value. */
  ghost predicate Held<K, V>(es: seq<Entry<K, V>>, i: int, assoc: map<K, V>)
    requires 0 <= i < |es|
    reads es[i]
  {
    es[i].next == At(es, i + 1) && es[i].key in assoc && assoc[es[i].key] == es[i].value
  }

  ghost predicate HasKey<K, V>(es: seq<Entry<K, V>>, k: K) {
    exists i :: 0 <= i < |es| && es[i].key == k
  }

  lemma KeysRemain<K, V>(es: seq<Entry<K, V>>, k: nat)
    requires DistinctKeys(es) && k < |es|
    ensures DistinctKeys(es[..k] + es[k + 1..])
    ensures forall j :: 0 <= j < |es| && j != k ==> es[j].key != es[k].key
  {
  }

  lemma KeyRemains<K, V>(es: seq<Entry<K, V>>, k: nat, q: K)
    requires k < |es| && HasKey(es, q) && q != es[k].key
    ensures HasKey(es[..k] + es[k + 1..], q)
  {
    var r := es[..k] + es[k + 1..];
    var i :| 0 <= i < |es| && es[i].key == q;
    assert r[if i < k then i else i - 1].key == q;
  }

  function Keys<K, V>(es: seq<Entry<K, V>>): seq<K> {
    seq(|es|, i requires 0 <= i < |es| => es[i].key)
  }

  /** The values of the keys, in their order. */
  ghost predicate ValuesAt<K(!new), V>(m: map<K, V>, ks: seq<K>, vs: seq<V>) {
    |vs| == |ks| && forall i :: 0 <= i < |ks| ==> ks[i] in m && vs[i] == m[ks[i]]
  }

  lemma SameCount<K(!new), V>(m: map<K, V>, ks: seq<K>, vs: seq<V>)
    requires ValuesAt(m, ks, vs)
    ensures |vs| == |ks|
  {
  }

  lemma Halves<T>(a: seq<T>, b: seq<T>)
    ensures |a + b| == |a| + |b| && (a + b)[..|a|] == a && (a + b)[|a|..] == b
  {
  }

  /** Values of more keys, of a part of the map, behind those of the first. */
  lemma MoreOf<K(!new), V>(m: map<K, V>, part: map<K, V>, ks: seq<K>, vs: seq<V>, n: nat)
    requires |vs| == |ks| && n <= |ks| && ValuesAt(m, ks[..n], vs[..n]) && ValuesAt(part, ks[n..], vs[n..])
    requires forall k :: k in part ==> k in m && m[k] == part[k]
    ensures ValuesAt(m, ks, vs)
  {
    forall i | 0 <= i < |ks|
      ensures ks[i] in m && vs[i] == m[ks[i]]
    {
      if i < n {
        assert ks[..n][i] == ks[i] && vs[..n][i] == vs[i];
      } else {
        assert ks[n..][i - n] == ks[i] && vs[n..][i - n] == vs[i];
      }
    }
  }

  /** One slot of the bucket array with its chain. */
  class Bucket<K(==,!new), V> {
    var head: Entry?<K, V>
    ghost var cells: seq<Entry<K, V>>  // the chain
    ghost var assoc: map<K, V>         // what the chain stands for

    ghost predicate Valid()
      reads this, cells
    {
      && head == At(cells, 0) && DistinctKeys(cells)
      && (forall i :: 0 <= i < |cells| ==> Held(cells, i, assoc))
      && (forall k :: k in assoc ==> HasKey(cells, k))
    }

    ghost predicate AtHome()
      reads this
    {
      forall e :: e in cells ==> e.home == this
    }

    constructor ()
      ensures AtHome() && Valid() && assoc == map[] && cells == []
    {
      head, cells, assoc := null, [], map[];
    }

    /** The walk shared by get, has and set: the entry for key and the last entry passed. */
    method Lookup(key: K) returns (x: Entry?<K, V>, p: Entry?<K, V>, ghost k: nat)
      requires Valid()
      ensures k <= |cells| && x == At(cells, k) && p == At(cells, k - 1)
      ensures x != null <==> key in assoc
      ensures x != null ==> x.key == key
      ensures forall j :: 0 <= j < k ==> cells[j].key != key
    {
      x, p, k := head, null, 0;
      while x != null && x.key != key
        invariant k <= |cells| && x == At(cells, k) && p == At(cells, k - 1)
        invariant forall j :: 0 <= j < k ==> cells[j].key != key
        decreases |cells| - k
      {
        assert Held(cells, k, assoc);
        p := x;
        x := x.next;
        k := k + 1;
      }
      if x != null {
        assert Held(cells, k, assoc);
      }
    }

    method Get(key: K) returns (r: Option<V>)
      requires Valid()
      ensures r == if key in assoc then Some(assoc[key]) else None
    {
      ghost var k;
      var x, p;
      x, p, k := Lookup(key);
      if x == null {
        return None;
      }
      assert Held(cells, k, assoc);
      return Some(x.value);
    }

    /** Replaces the value of a present key; appends an entry for an absent one. */
    method Set(key: K, value: V) returns (r: Option<V>)
      requires Valid() && AtHome()
      modifies this, cells
      ensures Valid() && AtHome() && assoc == old(assoc)[key := value]
      ensures r == if key in old(assoc) then Some(old(assoc)[key]) else None
      ensures forall e :: e in cells ==> e in old(cells) || fresh(e)
    {
      ghost var k;
      var x, p;
      x, p, k := Lookup(key);
      if x != null {
        r := Replace(x, value, k);
      } else {
        AddLast(key, value, p);
        r := None;
      }
    }

    method AddLast(key: K, value: V, p: Entry?<K, V>)
      requires Valid() && AtHome() && p == At(cells, |cells| - 1) && key !in assoc
      requires forall j :: 0 <= j < |cells| ==> cells[j].key != key
      modifies this, cells
      ensures Valid() && AtHome() && assoc == old(assoc)[key := value]
      ensures exists e :: fresh(e) && cells == old(cells) + [e]
    {
      ghost var es, was := cells, assoc;
      var e := new Entry(key, value, this);
      assert |es| > 0 ==> Held(es, |es| - 1, assoc);
      if p == null {
        head := e;
      } else {
        p.next := e;
      }
      cells := es + [e];
      assoc := assoc[key := value];
      forall i | 0 <= i < |cells|
        ensures Held(cells, i, assoc)
      {
        assert i < |es| ==> old(Held(es, i, assoc));
      }
      forall k | k in assoc
        ensures HasKey(cells, k)
      {
        if k == key {
          assert cells[|es|].key == k;
        } else {
          var i :| 0 <= i < |es| && es[i].key == k;
          assert cells[i].key == k;
        }
      }
    }

    method Replace(x: Entry<K, V>, value: V, ghost k: nat) returns (r: Option<V>)
      requires Valid() && k < |cells| && cells[k] == x
      modifies this, cells
      ensures Valid() && cells == old(cells) && x.key in old(assoc) && assoc == old(assoc)[x.key := value]
      ensures r == Some(old(assoc)[x.key])
    {
      assert Held(cells, k, assoc);
      r := Some(x.value);
      x.value := value;
      assoc := assoc[x.key := value];
      forall i | 0 <= i < |cells|
        ensures Held(cells, i, assoc)
      {
        assert old(Held(cells, i, assoc));
      }
      assert forall k :: k in assoc ==> old(HasKey(cells, k)) by {
        assert HasKey(cells, x.key);
      }
    }

    /** Unlinks the entry of a present key. The loop of hashmap_remove dereferences null for an absent key in a bucket
        of one. */
    method Remove(key: K) returns (r: Option<V>)
      requires Valid() && AtHome() && (key in assoc || |cells| != 1)
      modifies this, cells
      ensures Valid() && AtHome() && assoc == old(assoc) - {key}
      ensures r == if key in old(assoc) then Some(old(assoc)[key]) else None
      ensures forall e :: e in cells ==> e in old(cells)
    {
      ghost var k;
      var x, p;
      x, p, k := Lookup(key);
      if x == null {
        assert assoc - {key} == assoc;
        return None;
      }
      assert Held(cells, k, assoc);
      r := Some(x.value);
      Unlink(x, p, k);
    }

    method Unlink(x: Entry<K, V>, p: Entry?<K, V>, ghost k: nat)
      requires Valid() && k < |cells| && cells[k] == x && p == At(cells, k - 1)
      modifies this, cells
      ensures Valid() && assoc == old(assoc) - {x.key} && cells == old(cells)[..k] + old(cells)[k + 1..]
    {
      ghost var es, was := cells, assoc;
      assert Held(es, k, was);
      assert k > 0 ==> Held(es, k - 1, was);
      if p == null {
        head := x.next;
      } else {
        p.next := x.next;
      }
      cells := es[..k] + es[k + 1..];
      KeysRemain(es, k);
      assoc := was - {x.key};
      forall i | 0 <= i < |cells|
        ensures Held(cells, i, assoc)
      {
        assert i < k ==> old(Held(es, i, was));
        assert i >= k ==> old(Held(es, i + 1, was));
      }
      forall q | q in assoc
        ensures HasKey(cells, q)
      {
        KeyRemains(es, k, q);
      }
    }

    /** The inner loop of hashmap_keys. */
    method MoreKeys(ks: seq<K>) returns (r: seq<K>)
      requires Valid() && forall k :: k in ks ==> k !in assoc
      requires forall x, y :: 0 <= x < y < |ks| ==> ks[x] != ks[y]
      ensures forall k :: k in r <==> k in ks || k in assoc
      ensures forall x, y :: 0 <= x < y < |r| ==> r[x] != r[y]
    {
      r := ks;
      var x := head;
      ghost var i := 0;
      while x != null
        invariant 0 <= i <= |cells| && x == At(cells, i)
        invariant r == ks + Keys(cells)[..i]
        decreases |cells| - i
      {
        assert Held(cells, i, assoc);
        r := r + [x.key];
        x := x.next;
        i := i + 1;
      }
      assert Keys(cells)[..i] == Keys(cells);
      KeysListed(ks);
    }

    /** The inner loop of hashmap_values. */
    method Values() returns (r: seq<V>)
      requires Valid()
      ensures ValuesAt(assoc, Keys(cells), r)
    {
      r := [];
      var x := head;
      ghost var i := 0;
      while x != null
        invariant 0 <= i <= |cells| && x == At(cells, i) && |r| == i
        invariant forall j :: 0 <= j < i ==> cells[j].key in assoc && r[j] == assoc[cells[j].key]
        decreases |cells| - i
      {
        assert Held(cells, i, assoc);
        r := r + [x.value];
        x := x.next;
        i := i + 1;
      }
    }

    /** The values so far with those of this bucket behind them, and the keys they belong to. */
    method MoreValues(ghost ks: seq<K>, vs: seq<V>) returns (ghost ks': seq<K>, r: seq<V>)
      requires Valid() && |vs| == |ks| && forall k :: k in ks ==> k !in assoc
      requires forall x, y :: 0 <= x < y < |ks| ==> ks[x] != ks[y]
      ensures forall k :: k in ks' <==> k in ks || k in assoc
      ensures forall x, y :: 0 <= x < y < |ks'| ==> ks'[x] != ks'[y]
      ensures |r| == |ks'| >= |ks| && ks'[..|ks|] == ks && r[..|ks|] == vs && ValuesAt(assoc, ks'[|ks|..], r[|ks|..])
    {
      hide Valid, Keys, ValuesAt;
      KeysListed(ks);
      ghost var own := Keys(cells);
      var values := Values();
      assert |values| == |own| by { SameCount(assoc, own, values); }
      Halves(ks, own);
      Halves(vs, values);
      ks', r := ks + own, vs + values;
    }

    lemma KeysListed(ks: seq<K>)
      requires Valid() && forall k :: k in ks ==> k !in assoc
      requires forall x, y :: 0 <= x < y < |ks| ==> ks[x] != ks[y]
      ensures var r := ks + Keys(cells);
              && (forall k :: k in r <==> k in ks || k in assoc)
              && (forall x, y :: 0 <= x < y < |r| ==> r[x] != r[y])
    {
      var own := Keys(cells);
      var r := ks + own;
      forall k
        ensures k in own <==> k in assoc
      {
        if k in own {
          var i :| 0 <= i < |own| && own[i] == k;
          assert Held(cells, i, assoc);
        }
        if k in assoc {
          assert HasKey(cells, k);
          var i :| 0 <= i < |cells| && cells[i].key == k;
          assert own[i] == k;
        }
      }
      forall x, y | 0 <= x < y < |r|
        ensures r[x] != r[y]
      {
        if x < |ks| <= y {
          assert r[x] in ks && own[y - |ks|] in own;
        } else if |ks| <= x {
          assert own[x - |ks|] == cells[x - |ks|].key && own[y - |ks|] == cells[y - |ks|].key;
        }
      }
    }
  }

  class HashMap<K(==,!new), V> {
    const hash: K -> nat
    const size: nat
    const buckets: seq<Bucket<K, V>>
    ghost var contents: map<K, V>  // the finite map that the chains stand for
    ghost var Repr: set<object>

    function Slot(k: K): (i: int)
      requires size > 0
      ensures 0 <= i < size
    {
      hash(k) % size
    }

    ghost predicate Owned(i: nat)
      requires i < |buckets|
      reads this, Repr
    {
      buckets[i] in Repr && buckets[i].AtHome() && forall e :: e in buckets[i].cells ==> e in Repr
    }

    ghost predicate Shape()
      reads this, Repr
    {
      && this !in Repr && size > 0 && |buckets| == size
      && (forall i, j :: 0 <= i < j < size ==> buckets[i] != buckets[j])
      && (forall i :: 0 <= i < size ==> Owned(i) && buckets[i].Valid())
    }

    /** Bucket i holds exactly the keys of the map that hash to it. */
    ghost predicate Agrees(i: nat)
      requires i < |buckets| && size > 0
      reads this, Repr
    {
      Owned(i) && forall k :: (k in buckets[i].assoc <==> k in contents && Slot(k) == i)
                           && (k in buckets[i].assoc ==> buckets[i].assoc[k] == contents[k])
    }

    ghost predicate Valid()
      reads this, Repr
    {
      Shape() && forall i :: 0 <= i < size ==> Agrees(i)
    }

    constructor (n: nat, h: K -> nat)
      requires n > 0
      ensures Valid() && fresh(Repr) && contents == map[] && hash == h && size == n
    {
      var bs: seq<Bucket<K, V>> := [];
      while |bs| < n
        invariant |bs| <= n
        invariant forall i :: 0 <= i < |bs| ==>
                  fresh(bs[i]) && bs[i].Valid() && bs[i].AtHome() && bs[i].assoc == map[] && bs[i].cells == []
        invariant forall i, j :: 0 <= i < j < |bs| ==> bs[i] != bs[j]
      {
        var b := new Bucket();
        bs := bs + [b];
      }
      hash, size, buckets := h, n, bs;
      contents := map[];
      Repr := set b | b in bs;
      new;
      forall i | 0 <= i < size
        ensures Owned(i) && buckets[i].Valid() && Agrees(i)
      {
        assert buckets[i] in buckets;
      }
    }

    method Get(key: K) returns (r: Option<V>)
      requires Valid()
      ensures r == if key in contents then Some(contents[key]) else None
    {
      assert Agrees(Slot(key));
      r := buckets[Slot(key)].Get(key);
    }

    method Has(key: K) returns (r: bool)
      requires Valid()
      ensures r <==> key in contents
    {
      assert Agrees(Slot(key));
      var x := buckets[Slot(key)].Get(key);
      r := x.Some?;
    }

    /** Changing one chain leaves the others as they were. */
    method SetIn(s: nat, key: K, value: V) returns (r: Option<V>)
      requires Shape() && s < size
      modifies this`Repr, Repr
      ensures Shape() && fresh(Repr - old(Repr))
      ensures buckets[s].assoc == old(buckets[s].assoc)[key := value]
      ensures forall i :: 0 <= i < size && i != s ==> buckets[i].assoc == old(buckets[i].assoc)
      ensures r == if key in old(buckets[s].assoc) then Some(old(buckets[s].assoc)[key]) else None
    {
      assert Owned(s);
      ghost var cs := buckets[s].cells;
      r := buckets[s].Set(key, value);
      Repr := Repr + (set e | e in buckets[s].cells);
      forall i | 0 <= i < size && i != s
        ensures Owned(i) && buckets[i].Valid() && buckets[i].assoc == old(buckets[i].assoc)
      {
        assert old(Owned(i)) && old(buckets[i].Valid());
        var es, m := buckets[i].cells, buckets[i].assoc;
        forall j | 0 <= j < |es|
          ensures Held(es, j, m)
        {
          assert old(Held(es, j, m)) && es[j] in es && es[j].home == buckets[i] && es[j] !in cs;
        }
      }
    }

    method Set(key: K, value: V) returns (r: Option<V>)
      requires Valid()
      modifies this, Repr
      ensures Valid() && fresh(Repr - old(Repr)) && contents == old(contents)[key := value]
      ensures r == if key in old(contents) then Some(old(contents)[key]) else None
    {
      var s := Slot(key);
      assert Agrees(s);
      r := SetIn(s, key, value);
      contents := contents[key := value];
      forall i | 0 <= i < size
        ensures Agrees(i)
      {
        assert Owned(i) && old(Agrees(i));
      }
    }

    method RemoveIn(s: nat, key: K) returns (r: Option<V>)
      requires Shape() && s < size && (key in buckets[s].assoc || |buckets[s].cells| != 1)
      modifies Repr
      ensures Shape()
      ensures buckets[s].assoc == old(buckets[s].assoc) - {key}
      ensures forall i :: 0 <= i < size && i != s ==> buckets[i].assoc == old(buckets[i].assoc)
      ensures r == if key in old(buckets[s].assoc) then Some(old(buckets[s].assoc)[key]) else None
    {
      assert Owned(s);
      ghost var cs := buckets[s].cells;
      r := buckets[s].Remove(key);
      forall i | 0 <= i < size && i != s
        ensures Owned(i) && buckets[i].Valid() && buckets[i].assoc == old(buckets[i].assoc)
      {
        assert old(Owned(i)) && old(buckets[i].Valid());
        var es, m := buckets[i].cells, buckets[i].assoc;
        forall j | 0 <= j < |es|
          ensures Held(es, j, m)
        {
          assert old(Held(es, j, m)) && es[j] in es && es[j].home == buckets[i] && es[j] !in cs;
        }
      }
    }

    method Remove(key: K) returns (r: Option<V>)
      requires Valid() && (key in contents || |buckets[Slot(key)].cells| != 1)
      modifies this, Repr
      ensures Valid() && contents == old(contents) - {key}
      ensures r == if key in old(contents) then Some(old(contents)[key]) else None
    {
      var s := Slot(key);
      assert Agrees(s);
      r := RemoveIn(s, key);
      contents := contents - {key};
      forall i | 0 <= i < size
        ensures Agrees(i)
      {
        assert Owned(i) && old(Agrees(i));
      }
    }

    /** hashmap_keys: every key of the map, once. */
    method ListKeys() returns (ks: seq<K>)
      requires Valid()
      ensures forall k :: k in ks <==> k in contents
      ensures forall i, j :: 0 <= i < j < |ks| ==> ks[i] != ks[j]
    {
      ks := [];
      for i := 0 to size
        invariant forall k :: k in ks <==> k in contents && Slot(k) < i
        invariant forall x, y :: 0 <= x < y < |ks| ==> ks[x] != ks[y]
      {
        assert Owned(i) && Agrees(i);
        ks := buckets[i].MoreKeys(ks);
      }
    }

    /** hashmap_values: the value of every key of the map, once. */
    method ListValues() returns (ghost ks: seq<K>, vs: seq<V>)
      requires Valid()
      ensures forall k :: k in ks <==> k in contents
      ensures forall i, j :: 0 <= i < j < |ks| ==> ks[i] != ks[j]
      ensures ValuesAt(contents, ks, vs)
    {
      ks, vs := [], [];
      for i := 0 to size
        invariant forall k :: k in ks <==> k in contents && Slot(k) < i
        invariant forall x, y :: 0 <= x < y < |ks| ==> ks[x] != ks[y]
        invariant ValuesAt(contents, ks, vs)
      {
        assert Owned(i) && Agrees(i);
        ghost var n := |ks|;
        ks, vs := buckets[i].MoreValues(ks, vs);
        MoreOf(contents, buckets[i].assoc, ks, vs, n);
      }
    }
  }
}
