/** The array heap of PriorityQueue as values: what bubbling up and down does
    to the order and to the contents. */
module Heap {

  datatype Entry<V> = Entry(priority: int, value: V)

  function Parent(i: nat): (p: nat)
    requires i > 0
    ensures p < i
  {
    (i - 1) / 2
  }

  /** No entry is before its parent. */
  ghost predicate EdgeOk<V>(h: seq<Entry<V>>, k: nat)
  {
    0 < k < |h| ==> h[Parent(k)].priority <= h[k].priority
  }

  ghost predicate Ordered<V>(h: seq<Entry<V>>)
  {
    forall k :: 0 < k < |h| ==> EdgeOk(h, k)
  }

  function Swapped<V>(h: seq<Entry<V>>, i: nat, j: nat): (r: seq<Entry<V>>)
    requires i < |h| && j < |h|
    ensures |r| == |h| && multiset(r) == multiset(h)
  {
    h[i := h[j]][j := h[i]]
  }

  /** BubbleUp: to the root, swapping wherever the parent is later. */
  function Up<V>(h: seq<Entry<V>>, i: nat): (r: seq<Entry<V>>)
    requires i < |h|
    ensures |r| == |h| && multiset(r) == multiset(h)
    decreases i
  {
    if i == 0 then h
    else
      var p := Parent(i);
      Up(if h[p].priority > h[i].priority then Swapped(h, p, i) else h, p)
  }

  /** The index of the earliest of a node and its children. */
  function Smallest<V>(h: seq<Entry<V>>, i: nat): (s: nat)
    requires i < |h|
    ensures s < |h| && (s == i || s == 2 * i + 1 || s == 2 * i + 2)
    ensures h[s].priority <= h[i].priority
    ensures 2 * i + 1 < |h| ==> h[s].priority <= h[2 * i + 1].priority
    ensures 2 * i + 2 < |h| ==> h[s].priority <= h[2 * i + 2].priority
  {
    var left, right := 2 * i + 1, 2 * i + 2;
    if left >= |h| then i
    else
      var s := if h[left].priority < h[i].priority then left else i;
      if right < |h| && h[right].priority < h[s].priority then right else s
  }

  /** BubbleDown: swapping with the earlier child while that is earlier. */
  function Down<V>(h: seq<Entry<V>>, i: nat): (r: seq<Entry<V>>)
    requires i < |h|
    ensures |r| == |h| && multiset(r) == multiset(h)
    decreases |h| - i
  {
    var s := Smallest(h, i);
    if s == i then h else Down(Swapped(h, i, s), s)
  }

  // ---------------------------------------------------------------- order

  /** Ordered but for the edge above `i`, where the subtree under `i` is late
      enough for its grandparent. */
  ghost predicate UpHole<V>(h: seq<Entry<V>>, i: nat)
  {
    && (forall k :: 0 < k < |h| && k != i ==> EdgeOk(h, k))
    && (forall c :: 0 < c < |h| && Parent(c) == i && 0 < i < |h| ==> h[Parent(i)].priority <= h[c].priority)
  }

  lemma OrderedIsUpHole<V>(h: seq<Entry<V>>, i: nat)
    requires Ordered(h) && i < |h|
    ensures UpHole(h, i)
  {
    forall c | 0 < c < |h| && Parent(c) == i && 0 < i ensures h[Parent(i)].priority <= h[c].priority {
      assert EdgeOk(h, c) && EdgeOk(h, i);
    }
  }

  lemma {:induction false} UpOrders<V>(h: seq<Entry<V>>, i: nat)
    requires i < |h| && UpHole(h, i)
    ensures Ordered(Up(h, i))
    decreases i
  {
    if i > 0 {
      var p := Parent(i);
      if h[p].priority > h[i].priority {
        var g := Swapped(h, p, i);
        forall k | 0 < k < |g| && k != p ensures EdgeOk(g, k) {
          if k != i { assert EdgeOk(h, k); }
        }
        forall c | 0 < c < |g| && Parent(c) == p && 0 < p < |g| ensures g[Parent(p)].priority <= g[c].priority {
          assert EdgeOk(h, p);
          if c != i { assert EdgeOk(h, c); }
        }
        UpOrders(g, p);
      } else {
        forall k | 0 < k < |h| ensures EdgeOk(h, k) {}
        OrderedIsUpHole(h, p);
        UpOrders(h, p);
      }
    }
  }

  /** Ordered but for the edges below `i` and the edge above `t`, where the
      children of `i` are late enough for its parent. */
  ghost predicate DownHole<V>(h: seq<Entry<V>>, i: nat, t: nat)
  {
    && (forall k :: 0 < k < |h| && k != t && Parent(k) != i ==> EdgeOk(h, k))
    && (forall c :: 0 < c < |h| && Parent(c) == i && 0 < i < |h| ==> h[Parent(i)].priority <= h[c].priority)
  }

  lemma DownStep<V>(h: seq<Entry<V>>, i: nat, t: nat)
    requires t <= i < |h| && DownHole(h, i, t) && Smallest(h, i) != i
    ensures DownHole(Swapped(h, i, Smallest(h, i)), Smallest(h, i), t)
  {
    hide Smallest, Parent;
    var s := Smallest(h, i);
    var g := Swapped(h, i, s);
    ChildrenOf(s, i);
    forall k | 0 < k < |g| && k != t && Parent(k) != s ensures EdgeOk(g, k) {
      ChildrenOf(k, i);
      if k != s && Parent(k) != i { assert EdgeOk(h, k); }
    }
    forall c | 0 < c < |g| && Parent(c) == s ensures g[Parent(s)].priority <= g[c].priority {
      ChildrenOf(c, s);
      assert EdgeOk(h, c);
    }
  }

  /** Bubbling down repairs every edge but the one above `t` and touches
      nothing before `i`. */
  lemma {:induction false} DownRepairs<V>(h: seq<Entry<V>>, i: nat, t: nat)
    requires t <= i < |h| && DownHole(h, i, t)
    ensures forall k :: 0 < k < |h| && k != t ==> EdgeOk(Down(h, i), k)
    ensures forall k :: 0 <= k < i ==> Down(h, i)[k] == h[k]
    ensures Down(h, i)[i] == h[Smallest(h, i)]
    decreases |h| - i
  {
    hide Smallest, EdgeOk, DownHole, Swapped;
    var s := Smallest(h, i);
    if s == i {
      NoHole(h, i, t);
    } else {
      DownStep(h, i, t);
      SwapMoves(h, i, s);
      DownRepairs(Swapped(h, i, s), s, t);
    }
  }

  /** Nothing is left to repair where the parent is the earliest. */
  lemma NoHole<V>(h: seq<Entry<V>>, i: nat, t: nat)
    requires i < |h| && DownHole(h, i, t) && Smallest(h, i) == i
    ensures forall k :: 0 < k < |h| && k != t ==> EdgeOk(h, k)
  {
    forall k | 0 < k < |h| && k != t ensures EdgeOk(h, k) {
      if Parent(k) == i { ChildrenOf(k, i); }
    }
    hide Smallest, Parent;
  }

  lemma ChildrenOf(k: nat, i: nat)
    requires k > 0
    ensures Parent(k) == i <==> k == 2 * i + 1 || k == 2 * i + 2
  {
  }

  lemma SwapMoves<V>(h: seq<Entry<V>>, i: nat, s: nat)
    requires i < s < |h|
    ensures Swapped(h, i, s)[i] == h[s] && forall k :: 0 <= k < i ==> Swapped(h, i, s)[k] == h[k]
  {
  }

  // ---------------------------------------------------------------- the operations

  function Inserted<V>(h: seq<Entry<V>>, e: Entry<V>): seq<Entry<V>> { Up(h + [e], |h|) }

  function Replaced<V>(h: seq<Entry<V>>, i: nat): (r: seq<Entry<V>>)
    requires i < |h| - 1
    ensures |r| == |h| - 1
  {
    h[..|h| - 1][i := h[|h| - 1]]
  }

  /** RemoveAt: the last entry takes the place and bubbles down, never up. */
  function RemovedAt<V>(h: seq<Entry<V>>, i: nat): seq<Entry<V>>
    requires i < |h|
  {
    if i == |h| - 1 then h[..i] else Down(Replaced(h, i), i)
  }

  /** InsertOrChangePriority on an entry that is there. */
  function Changed<V>(h: seq<Entry<V>>, i: nat, priority: int): seq<Entry<V>>
    requires i < |h|
  {
    var g := h[i := h[i].(priority := priority)];
    if i == 0 then Down(g, 0)
    else if priority < g[Parent(i)].priority then Up(g, i)
    else if priority > g[Parent(i)].priority then Down(g, i)
    else g
  }

  lemma InsertContents<V>(h: seq<Entry<V>>, e: Entry<V>)
    ensures multiset(Inserted(h, e)) == multiset(h) + multiset{e}
  {
  }

  lemma ChangeContents<V>(h: seq<Entry<V>>, i: nat, priority: int)
    requires i < |h|
    ensures multiset(Changed(h, i, priority)) == multiset(h) - multiset{h[i]} + multiset{h[i].(priority := priority)}
  {
  }

  lemma InsertOrders<V>(h: seq<Entry<V>>, e: Entry<V>)
    requires Ordered(h)
    ensures Ordered(Inserted(h, e))
  {
    var g := h + [e];
    forall k | 0 < k < |g| && k != |h| ensures EdgeOk(g, k) { assert EdgeOk(h, k); }
    UpOrders(g, |h|);
  }

  lemma RemoveContents<V>(h: seq<Entry<V>>, i: nat)
    requires i < |h|
    ensures multiset(RemovedAt(h, i)) == multiset(h) - multiset{h[i]}
  {
    var n := |h| - 1;
    assert h == h[..n] + [h[n]];
  }

  lemma ReplacedHole<V>(h: seq<Entry<V>>, i: nat, e: Entry<V>)
    requires Ordered(h) && i < |h|
    ensures DownHole(h[i := e], i, i)
  {
    var g := h[i := e];
    forall k | 0 < k < |g| && k != i && Parent(k) != i ensures EdgeOk(g, k) { assert EdgeOk(h, k); }
    forall c | 0 < c < |g| && Parent(c) == i && 0 < i ensures g[Parent(i)].priority <= g[c].priority {
      assert EdgeOk(h, c) && EdgeOk(h, i);
    }
  }

  /** Replacing an entry of an ordered heap and bubbling down gives an ordered
      heap exactly when the new entry is not before its parent. */
  lemma ReplaceOrdersExactly<V>(h: seq<Entry<V>>, i: nat, e: Entry<V>)
    requires Ordered(h) && i < |h|
    ensures Ordered(Down(h[i := e], i)) <==> i == 0 || h[Parent(i)].priority <= e.priority
  {
    var g := h[i := e];
    ReplacedHole(h, i, e);
    DownRepairs(g, i, i);
    var r, s := Down(g, i), Smallest(g, i);
    assert Ordered(r) <==> EdgeOk(r, i);
    if i > 0 {
      assert r[Parent(i)] == g[Parent(i)] == h[Parent(i)];
      assert s != i ==> Parent(s) == i;
    }
  }

  /** Taking out any entry keeps the heap ordered exactly when the last entry
      is not before the parent of the place it is moved to. */
  lemma RemoveOrdersExactly<V>(h: seq<Entry<V>>, i: nat)
    requires Ordered(h) && i < |h|
    ensures Ordered(RemovedAt(h, i)) <==>
            i == 0 || i == |h| - 1 || h[Parent(i)].priority <= h[|h| - 1].priority
  {
    hide Ordered, Down;
    var n := |h| - 1;
    var front := h[..n];
    FrontOrdered(h);
    if i < n { ReplaceOrdersExactly(front, i, h[n]); }
  }

  lemma FrontOrdered<V>(h: seq<Entry<V>>)
    requires Ordered(h) && h != []
    ensures Ordered(h[..|h| - 1])
  {
    var front := h[..|h| - 1];
    forall k | 0 < k < |front| ensures EdgeOk(front, k) { assert EdgeOk(h, k); }
  }

  lemma ChangeOrders<V>(h: seq<Entry<V>>, i: nat, priority: int)
    requires Ordered(h) && i < |h|
    ensures Ordered(Changed(h, i, priority))
  {
    var e := h[i].(priority := priority);
    var g := h[i := e];
    ReplaceOrdersExactly(h, i, e);
    ReplacedHole(h, i, e);
    if i > 0 && priority <= h[Parent(i)].priority {
      forall k | 0 < k < |g| && k != i ensures EdgeOk(g, k) {}
      UpOrders(g, i);
      if priority == h[Parent(i)].priority { assert EdgeOk(g, i); }
    }
  }

  /** In an ordered heap nothing is before the first entry. */
  lemma {:induction false} FirstIsLeast<V>(h: seq<Entry<V>>, i: nat)
    requires Ordered(h) && i < |h|
    ensures h[0].priority <= h[i].priority
    decreases i
  {
    if i > 0 {
      FirstIsLeast(h, Parent(i));
      assert EdgeOk(h, i);
    }
  }
}
