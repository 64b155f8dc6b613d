/** CircularLinkedList: a ring of heap nodes linked both ways, entered at its
    head. The ring refines the sequence of its values from the head on. */
module Ring {

  class Node<T> {
    const t: T
    var next: Node?<T>
    var prev: Node?<T>

    constructor (t: T)
      ensures this.t == t
    {
      this.t := t;
      next, prev := null, null;
    }
  }

  function Succ(i: nat, n: nat): nat
    requires i < n
  {
    if i + 1 < n then i + 1 else 0
  }

  /** Node `i` and its successor point at each other. */
  ghost predicate JoinedAt<T>(nodes: seq<Node<T>>, i: nat)
    reads nodes
  {
    && i < |nodes|
    && nodes[i].next == nodes[Succ(i, |nodes|)]
    && nodes[Succ(i, |nodes|)].prev == nodes[i]
  }

  ghost predicate IsRing<T>(nodes: seq<Node<T>>)
    reads nodes
  {
    && (forall i, j :: 0 <= i < j < |nodes| ==> nodes[i] != nodes[j])
    && (forall i :: 0 <= i < |nodes| ==> JoinedAt(nodes, i))
  }

  ghost function Values<T>(nodes: seq<Node<T>>): (s: seq<T>)
    ensures |s| == |nodes|
  {
    seq(|nodes|, i requires 0 <= i < |nodes| => nodes[i].t)
  }

  lemma AfterFirst<T>(nodes: seq<Node<T>>)
    requires IsRing(nodes) && nodes != []
    ensures nodes[0].next == nodes[Succ(0, |nodes|)]
    ensures nodes[0].next == nodes[0] <==> |nodes| == 1
  {
    assert JoinedAt(nodes, 0);
  }

  /** One more turn of a rotated sequence. */
  lemma Turned<T>(s: seq<T>, k: nat)
    requires k < |s|
    ensures var r := s[k..] + s[..k]; r[1..] + [r[0]] == s[k + 1..] + s[..k + 1]
  {
  }

  lemma EmptyRing<T>()
    ensures IsRing<T>([])
  {
  }

  /** Dropping the first occurrence of a value. */
  function Without<T(==)>(s: seq<T>, x: T): seq<T>
  {
    if s == [] then [] else if s[0] == x then s[1..] else [s[0]] + Without(s[1..], x)
  }

  class CircularLinkedList<T(==)> {
    var head: Node?<T>
    ghost var nodes: seq<Node<T>>

    ghost predicate Valid()
      reads this, nodes
    {
      IsRing(nodes) && head == (if nodes == [] then null else nodes[0])
    }

    ghost function Contents(): seq<T>
      reads this
    {
      Values(nodes)
    }

    constructor ()
      ensures Valid() && Contents() == [] && nodes == []
    {
      head, nodes := null, [];
    }

    method HasHead() returns (has: bool)
      requires Valid()
      ensures has <==> Contents() != []
    {
      has := head != null;
    }

    method Head() returns (t: T)
      requires Valid() && Contents() != []
      ensures t == Contents()[0]
    {
      t := head.t;
    }

    /** Inserts as the last element; says whether the list was empty. */
    method Add(t: T) returns (wasEmpty: bool)
      requires Valid()
      modifies this, nodes
      ensures Valid() && Contents() == old(Contents()) + [t]
      ensures fresh(set n | n in nodes && n !in old(nodes))
      ensures wasEmpty <==> old(Contents()) == []
    {
      var e := new Node<T>(t);
      ghost var was := nodes;
      if head == null {
        e.next, e.prev, head := e, e, e;
        nodes := [e];
        return true;
      }
      assert JoinedAt(was, |was| - 1);
      e.prev := head.prev;
      e.next := head;
      e.prev.next := e;
      head.prev := e;
      nodes := was + [e];
      forall i | 0 <= i < |nodes| ensures JoinedAt(nodes, i) {
        if i < |was| - 1 { assert old(JoinedAt(was, i)); }
      }
      return false;
    }

    /** Takes a node out of a ring of several: its neighbours point at each other. */
    method Unlink(current: Node<T>, ghost k: nat)
      requires IsRing(nodes) && |nodes| > 1 && k < |nodes| && nodes[k] == current
      modifies nodes
      ensures IsRing(nodes[..k] + nodes[k + 1..])
      ensures current.next == old(current.next)
    {
      ghost var n := |nodes|;
      ghost var rest := nodes[..k] + nodes[k + 1..];
      ghost var before := if k == 0 then n - 1 else k - 1;
      assert JoinedAt(nodes, k) && JoinedAt(nodes, before);
      var next, prev := current.next, current.prev;
      assert prev == nodes[before] && next == nodes[Succ(k, n)];
      prev.next := next;
      next.prev := prev;
      forall i | 0 <= i < |rest| ensures JoinedAt(rest, i) {
        ghost var j := if i < k then i else i + 1;
        assert old(JoinedAt(nodes, j));
        assert rest[i] == nodes[j];
      }
    }

    /** Drops the first element. */
    method RemoveHead()
      requires Valid() && Contents() != []
      modifies this, nodes
      ensures Valid() && nodes == old(nodes)[1..] && Contents() == old(Contents())[1..]
    {
      hide IsRing;
      AfterFirst(nodes);
      var e := head;
      if e.next == e {
        EmptyRing<T>();
        head := null;
        assert nodes[1..] == [];
      } else {
        Unlink(e, 0);
        assert nodes[..0] + nodes[1..] == nodes[1..];
        head := e.next;
      }
      assert IsRing(nodes[1..]);
      nodes := nodes[1..];
    }

    /** Moves the first element to the end. */
    method Rotate()
      requires Valid()
      modifies this
      ensures Valid()
      ensures nodes == if old(nodes) == [] then [] else old(nodes)[1..] + [old(nodes)[0]]
      ensures Contents() == if old(Contents()) == [] then [] else old(Contents())[1..] + [old(Contents())[0]]
    {
      if head != null {
        ghost var was := nodes;
        assert JoinedAt(was, 0);
        head := head.next;
        nodes := was[1..] + [was[0]];
        forall i | 0 <= i < |nodes| ensures JoinedAt(nodes, i) {
          assert JoinedAt(was, Succ(i, |was|));
        }
      }
    }

    /** Drops node `k` of a ring of several. */
    method Cut(current: Node<T>, ghost k: nat)
      requires Valid() && |nodes| > 1 && k < |nodes| && nodes[k] == current && current.t !in Contents()[..k]
      modifies this, nodes
      ensures Valid() && Contents() == Without(old(Contents()), current.t)
      ensures nodes == old(nodes[..k] + nodes[k + 1..])
    {
      hide Without;
      ghost var all := Contents();
      AfterFirst(nodes);
      WithoutAt(all, k);
      assert current == head <==> k == 0;
      hide IsRing;
      Unlink(current, k);
      if current == head {
        head := head.next;
      }
      nodes := nodes[..k] + nodes[k + 1..];
      assert Values(nodes) == all[..k] + all[k + 1..];
    }

    /** Drops the first occurrence of `item`, keeping the order of the rest. */
    method Remove(item: T)
      requires Valid()
      modifies this, nodes
      ensures Valid() && Contents() == Without(old(Contents()), item)
      ensures forall i :: 0 <= i < |nodes| ==> nodes[i] in old(nodes)
    {
      if head == null {
        return;
      }
      AfterFirst(nodes);
      if head == head.next {
        if head.t == item {
          head, nodes := null, [];
        }
        return;
      }
      var current := head;
      ghost var k := 0;
      ghost var all := Contents();
      while true
        invariant 0 <= k < |nodes| && current == nodes[k]
        invariant item !in all[..k]
        decreases |nodes| - k
      {
        if current.t == item {
          Cut(current, k);
          return;
        }
        assert JoinedAt(nodes, k);
        current := current.next;
        k := k + 1;
        if current == head { break; }
      }
      WithoutNone(all, item);
    }

    /** Rotates until the first element is at the head again: every element is
        met once, in order, and the ring is as it was. */
    method Tour() returns (met: seq<T>)
      requires Valid() && forall i, j :: 0 <= i < j < |Contents()| ==> Contents()[i] != Contents()[j]
      modifies this
      ensures Valid() && nodes == old(nodes) && met == Contents()
    {
      hide IsRing;
      ghost var all, was := Contents(), nodes;
      met := [];
      if head == null { return; }
      var root := head.t;
      var current := root;
      while true
        invariant |met| < |all| && current == all[|met|] && met == all[..|met|]
        invariant Valid() && nodes == was[|met|..] + was[..|met|]
        decreases |all| - |met|
      {
        Turned(was, |met|);
        met := met + [current];
        Rotate();
        current := head.t;
        assert current == if |met| < |all| then all[|met|] else all[0];
        if current == root { break; }
      }
      assert |met| == |all|;
    }

    method RemoveAll()
      requires Valid()
      modifies this, nodes
      ensures Valid() && Contents() == []
    {
      while head != null
        invariant Valid() && forall i :: 0 <= i < |nodes| ==> nodes[i] in old(nodes)
        decreases |nodes|
      {
        RemoveHead();
      }
    }
  }

  lemma {:induction false} WithoutAt<T>(s: seq<T>, k: nat)
    requires k < |s| && s[k] !in s[..k]
    ensures Without(s, s[k]) == s[..k] + s[k + 1..]
  {
    if k > 0 {
      assert s[0] == s[..k][0];
      assert s[1..][..k - 1] == s[..k][1..];
      WithoutAt(s[1..], k - 1);
      assert s[..k] == [s[0]] + s[1..][..k - 1];
    }
  }

  lemma {:induction false} WithoutNone<T>(s: seq<T>, x: T)
    requires x !in s
    ensures Without(s, x) == s
  {
    if s != [] { WithoutNone(s[1..], x); }
  }
}
