// The intrusive doubly linked list with owner pointers.

module LinkedLists {

  class Node<V(==)> {
    var next: Node?<V>
    var prev: Node?<V>
    var owner: List?<V>
    const value: V

    constructor (v: V)
      ensures value == v && next == null && prev == null && owner == null
    {
      value := v;
      next, prev, owner := null, null, null;
    }
  }

  ghost predicate Distinct<V>(ns: seq<Node<V>>) {
    forall i, j :: 0 <= i < j < |ns| ==> ns[i] != ns[j]
  }

  lemma InsertDistinct<V>(ns: seq<Node<V>>, k: nat, node: Node<V>)
    requires Distinct(ns) && k <= |ns| && node !in ns
    ensures Distinct(ns[..k] + [node] + ns[k..])
  {
    var r := ns[..k] + [node] + ns[k..];
    assert forall i :: 0 <= i < |r| ==> r[i] == if i < k then ns[i] else if i == k then node else ns[i - 1];
  }

  lemma ConcatDistinct<V>(ns: seq<Node<V>>, ms: seq<Node<V>>)
    requires Distinct(ns) && Distinct(ms) && forall n :: n in ms ==> n !in ns
    ensures Distinct(ns + ms)
  {
    forall i, j | 0 <= i < j < |ns + ms|
      ensures (ns + ms)[i] != (ns + ms)[j]
    {
      if i < |ns| <= j {
        assert ms[j - |ns|] in ms;
      }
    }
  }

  lemma RemoveDistinct<V>(ns: seq<Node<V>>, k: nat)
    requires Distinct(ns) && k < |ns|
    ensures Distinct(ns[..k] + ns[k + 1..])
  {
  }

  function At<V>(ns: seq<Node<V>>, i: int): Node?<V> {
    if 0 <= i < |ns| then ns[i] else null
  }

  /** Node i of the chain points to its neighbours and to its list. */
  ghost predicate Linked<V>(ns: seq<Node<V>>, i: int, list: List<V>)
    requires 0 <= i < |ns|
    reads ns[i]
  {
    ns[i].next == At(ns, i + 1) && ns[i].prev == At(ns, i - 1) && ns[i].owner == list
  }

  ghost function Values<V>(ns: seq<Node<V>>): seq<V> {
    seq(|ns|, i requires 0 <= i < |ns| => ns[i].value)
  }

  class List<V(==)> {
    var head: Node?<V>
    var tail: Node?<V>
    var length: nat
    ghost var nodes: seq<Node<V>>  // the chain from head to tail

    ghost predicate Valid()
      reads this, nodes
    {
      && length == |nodes| && Distinct(nodes)
      && head == At(nodes, 0) && tail == At(nodes, |nodes| - 1)
      && forall i :: 0 <= i < |nodes| ==> Linked(nodes, i, this)
    }

    constructor ()
      ensures Valid() && nodes == []
    {
      head, tail, length, nodes := null, null, 0, [];
    }

    method Append(node: Node<V>)
      requires Valid() && node !in nodes
      modifies this, nodes, node
      ensures Valid() && nodes == old(nodes) + [node]
    {
      ghost var ns := nodes;
      assert ns != [] ==> Linked(ns, |ns| - 1, this);
      node.next := null;
      node.owner := this;
      nodes := ns + [node];
      if length == 0 {
        head := node;
        tail := node;
        node.prev := null;
        node.next := null;
        length := length + 1;
      } else {
        tail.next := node;
        node.prev := tail;
        tail := node;
        length := length + 1;
      }
      forall i | 0 <= i < |nodes|
        ensures Linked(nodes, i, this)
      {
        assert i < |ns| ==> old(Linked(ns, i, this));
      }
    }

    method Insert(item: V) returns (node: Node<V>)
      requires Valid()
      modifies this, nodes
      ensures Valid() && fresh(node) && node.value == item && nodes == old(nodes) + [node]
    {
      node := new Node(item);
      Append(node);
    }

    /** The first branch of list_append_after. */
    method Prepend(node: Node<V>)
      requires Valid() && node !in nodes && node.owner == this && length > 0
      modifies this, nodes, node
      ensures Valid() && nodes == [node] + old(nodes)
    {
      ghost var ns := nodes;
      assert Linked(ns, 0, this);
      nodes := [node] + ns;
      node.next := head;
      node.prev := null;
      head.prev := node;
      head := node;
      length := length + 1;
      forall i | 0 <= i < |nodes|
        ensures Linked(nodes, i, this)
      {
        assert i > 0 ==> old(Linked(ns, i - 1, this));
      }
    }

    /** list_append_after; a null `before` puts the node first. */
    method AppendAfter(before: Node?<V>, node: Node<V>, ghost k: int)
      requires Valid() && node !in nodes && node.next == null && node.prev == null
      requires if before == null then k == -1 else 0 <= k < |nodes| && nodes[k] == before
      modifies this, nodes, node
      ensures Valid() && nodes == old(nodes)[..k + 1] + [node] + old(nodes)[k + 1..]
    {
      node.owner := this;
      if length == 0 {
        Append(node);
        return;
      }
      if before == null {
        Prepend(node);
        return;
      }
      if before == tail {
        assert before == nodes[|nodes| - 1];
        Append(node);
      } else {
        Splice(before, node, k);
      }
    }

    /** Puts node between two nodes of the chain. */
    method Splice(before: Node<V>, node: Node<V>, ghost k: nat)
      requires Valid() && node !in nodes && node.owner == this
      requires k + 1 < |nodes| && nodes[k] == before
      modifies this, nodes, node
      ensures Valid() && nodes == old(nodes)[..k + 1] + [node] + old(nodes)[k + 1..]
    {
      ghost var ns := nodes;
      assert Linked(ns, k, this) && Linked(ns, k + 1, this);
      nodes := ns[..k + 1] + [node] + ns[k + 1..];
      InsertDistinct(ns, k + 1, node);
      before.next.prev := node;
      node.next := before.next;
      node.prev := before;
      before.next := node;
      length := length + 1;
      forall i | 0 <= i < |nodes|
        ensures Linked(nodes, i, this)
      {
        assert i <= k ==> old(Linked(ns, i, this));
        assert i > k + 1 ==> old(Linked(ns, i - 1, this));
      }
    }

    /** list_append_before; a null `after` puts the node last. */
    method AppendBefore(after: Node?<V>, node: Node<V>, ghost k: nat)
      requires Valid() && node !in nodes && node.next == null && node.prev == null
      requires if after == null then k == |nodes| else k < |nodes| && nodes[k] == after
      modifies this, nodes, node
      ensures Valid() && nodes == old(nodes)[..k] + [node] + old(nodes)[k..]
    {
      node.owner := this;
      if length == 0 {
        Append(node);
        return;
      }
      if after == null {
        assert nodes[..k] == nodes && nodes[k..] == [];
        Append(node);
      } else if after == head {
        assert after == nodes[0];
        Prepend(node);
      } else {
        assert Linked(nodes, k, this);
        Splice(after.prev, node, k - 1);
      }
    }

    method Delete(node: Node<V>, ghost k: nat)
      requires Valid() && k < |nodes| && nodes[k] == node
      modifies this, nodes
      ensures Valid() && nodes == old(nodes)[..k] + old(nodes)[k + 1..]
      ensures node.next == null && node.prev == null && node.owner == null
    {
      ghost var ns := nodes;
      assert Linked(ns, k, this);
      assert k > 0 ==> Linked(ns, k - 1, this);
      assert k + 1 < |ns| ==> Linked(ns, k + 1, this);
      if node == head {
        head := node.next;
      }
      if node == tail {
        tail := node.prev;
      }
      if node.prev != null {
        node.prev.next := node.next;
      }
      if node.next != null {
        node.next.prev := node.prev;
      }
      node.prev := null;
      node.next := null;
      node.owner := null;
      length := length - 1;
      nodes := ns[..k] + ns[k + 1..];
      RemoveDistinct(ns, k);
      forall i | 0 <= i < |nodes|
        ensures Linked(nodes, i, this)
      {
        assert i < k ==> old(Linked(ns, i, this));
        assert i >= k ==> old(Linked(ns, i + 1, this));
      }
    }

    /** list_remove: an index past the end is ignored; the index equal to the length is not allowed, the walk would run
        off the chain. */
    method Remove(index: nat)
      requires Valid() && index != length
      modifies this, nodes
      ensures Valid()
      ensures nodes == if index > |old(nodes)| then old(nodes) else old(nodes)[..index] + old(nodes)[index + 1..]
    {
      if index > length {
        return;
      }
      var i, n := 0, head;
      while i < index
        invariant 0 <= i <= index && n == nodes[i]
      {
        assert Linked(nodes, i, this);
        n := n.next;
        i := i + 1;
      }
      Delete(n, index);
    }

    method Pop() returns (out: Node?<V>)
      requires Valid()
      modifies this, nodes
      ensures Valid()
      ensures if old(nodes) == [] then out == null && nodes == []
              else out == old(nodes)[|old(nodes)| - 1] && nodes == old(nodes)[..|old(nodes)| - 1] && out.owner == null
    {
      if tail == null {
        return null;
      }
      out := tail;
      Delete(out, |nodes| - 1);
    }

    method Dequeue() returns (out: Node?<V>)
      requires Valid()
      modifies this, nodes
      ensures Valid()
      ensures if old(nodes) == [] then out == null && nodes == []
              else out == old(nodes)[0] && nodes == old(nodes)[1..] && out.owner == null
    {
      if head == null {
        return null;
      }
      out := head;
      Delete(out, 0);
    }

    method Find(value: V) returns (node: Node?<V>)
      requires Valid()
      ensures node == null ==> value !in Values(nodes)
      ensures node != null ==> exists i :: 0 <= i < |nodes| && nodes[i] == node && node.value == value
                                        && forall j :: 0 <= j < i ==> nodes[j].value != value
    {
      node := head;
      ghost var i := 0;
      while node != null
        invariant 0 <= i <= |nodes| && node == At(nodes, i)
        invariant forall j :: 0 <= j < i ==> nodes[j].value != value
        decreases |nodes| - i
      {
        if node.value == value {
          return;
        }
        assert Linked(nodes, i, this);
        node := node.next;
        i := i + 1;
      }
    }

    /** The first loop of list_merge: every node of this chain gets a new owner. */
    method Adopt(target: List<V>)
      requires Valid()
      modifies nodes
      ensures forall i :: 0 <= i < |nodes| ==> Linked(nodes, i, target)
    {
      var n := head;
      ghost var i := 0;
      while n != null
        invariant 0 <= i <= |nodes| && n == At(nodes, i)
        invariant forall j :: 0 <= j < i ==> Linked(nodes, j, target)
        invariant forall j :: i <= j < |nodes| ==> Linked(nodes, j, this)
        decreases |nodes| - i
      {
        assert Linked(nodes, i, this);
        n.owner := target;
        n := n.next;
        i := i + 1;
      }
    }

    /** list_merge: all nodes of source move behind the target's; source is used up. */
    method Merge(source: List<V>)
      requires Valid() && source.Valid() && source != this
      requires forall n :: n in source.nodes ==> n !in nodes
      modifies this, nodes, source.nodes
      ensures Valid() && nodes == old(nodes) + old(source.nodes)
    {
      ConcatDistinct(nodes, source.nodes);
      source.Adopt(this);
      forall i | 0 <= i < |nodes|
        ensures Linked(nodes, i, this)
      {
        assert old(Linked(nodes, i, this));
        assert nodes[i] !in source.nodes;
      }
      LinkBehind(source);
    }

    method LinkBehind(source: List<V>)
      requires Valid() && source != this && Distinct(nodes + source.nodes) && source.length == |source.nodes|
      requires source.head == At(source.nodes, 0) && source.tail == At(source.nodes, |source.nodes| - 1)
      requires forall i :: 0 <= i < |source.nodes| ==> Linked(source.nodes, i, this)
      modifies this, nodes, source.nodes
      ensures Valid() && nodes == old(nodes) + old(source.nodes)
    {
      ghost var ns, ms := nodes, source.nodes;
      ghost var all := ns + ms;
      assert ns != [] ==> all[|ns| - 1] == tail;
      assert ms != [] ==> all[|ns|] == source.head;
      assert ns != [] ==> Linked(ns, |ns| - 1, this);
      assert ms != [] ==> Linked(ms, 0, this);
      if source.head != null {
        source.head.prev := tail;
      }
      if tail != null {
        tail.next := source.head;
      } else {
        head := source.head;
      }
      if source.tail != null {
        tail := source.tail;
      }
      length := length + source.length;
      nodes := all;
      forall i | 0 <= i < |nodes|
        ensures Linked(nodes, i, this)
      {
        assert i < |ns| ==> old(Linked(ns, i, this));
        assert i >= |ns| ==> old(Linked(ms, i - |ns|, this));
      }
    }
  }
}
