/** PriorityQueue, the timeout queue over it, and the timer that is armed for
    the first entry. */
module Timers {
  import opened Heap
  import opened Scheduler

  /** The map and the heap name each other, so values are unique. */
  ghost predicate Agree<V(!new)>(heap: seq<Entry<V>>, index: map<V, nat>)
  {
    && (forall i :: 0 <= i < |heap| ==> heap[i].value in index && index[heap[i].value] == i)
    && (forall v :: v in index ==> index[v] < |heap| && heap[index[v]].value == v)
  }

  /** The last entry in the place of the one removed. */
  lemma RemovalAgrees<V(!new)>(heap: seq<Entry<V>>, index: map<V, nat>, offset: nat)
    requires Agree(heap, index) && offset < |heap|
    ensures var size, left := |heap| - 1, index - {heap[offset].value};
            if offset == size then Agree(heap[..size], left)
            else Agree(heap[..size][offset := heap[size]], left[heap[size].value := offset])
  {
    var size := |heap| - 1;
    assert heap[size].value in index && heap[offset].value in index;
  }

  lemma InsertionAgrees<V(!new)>(heap: seq<Entry<V>>, index: map<V, nat>, e: Entry<V>)
    requires Agree(heap, index) && e.value !in index
    ensures Agree(heap + [e], index[e.value := |heap|])
  {
  }

  /** A min-heap with a map from each value to its place. */
  class PriorityQueue<V(==, !new)> {
    var heap: seq<Entry<V>>
    var index: map<V, nat>

    ghost predicate Valid()
      reads this
    {
      Agree(heap, index)
    }

    constructor ()
      ensures Valid() && heap == []
    {
      heap, index := [], map[];
    }

    method Swap(i: nat, j: nat)
      requires Valid() && i < |heap| && j < |heap|
      modifies this
      ensures Valid() && heap == Swapped(old(heap), i, j)
    {
      var temp := heap[i];
      heap := heap[i := heap[j]];
      heap := heap[j := temp];
      index := index[heap[i].value := i];
      index := index[heap[j].value := j];
    }

    method BubbleUp(offset: nat)
      requires Valid() && offset < |heap|
      modifies this
      ensures Valid() && heap == Up(old(heap), offset)
    {
      hide Valid, Swapped;
      var o: nat := offset;
      while o != 0
        invariant o < |heap| && Valid() && Up(heap, o) == Up(old(heap), offset)
      {
        var parent := (o - 1) / 2;
        if heap[parent].priority > heap[o].priority {
          Swap(parent, o);
        }
        o := parent;
      }
    }

    method BubbleDown(offset: nat)
      requires Valid() && offset < |heap|
      modifies this
      ensures Valid() && heap == Down(old(heap), offset)
    {
      hide Valid, Swapped;
      var o: nat := offset;
      while true
        invariant o < |heap| && Valid() && Down(heap, o) == Down(old(heap), offset)
        decreases |heap| - o
      {
        var left := 2 * o + 1;
        if left >= |heap| { return; }
        var smallest := o;
        if heap[left].priority < heap[o].priority { smallest := left; }
        var right := left + 1;
        if right < |heap| && heap[right].priority < heap[smallest].priority { smallest := right; }
        if o == smallest { return; }
        Swap(o, smallest);
        o := smallest;
      }
    }

    /** Inserts a value that is not there, as it requires of its callers. */
    method Insert(priority: int, value: V)
      requires Valid() && value !in index
      modifies this
      ensures Valid() && heap == Inserted(old(heap), Entry(priority, value))
    {
      InsertionAgrees(heap, index, Entry(priority, value));
      hide Agree, Up;
      heap := heap + [Entry(priority, value)];
      index := index[value := |heap| - 1];
      BubbleUp(|heap| - 1);
    }

    /** The last entry moves to `offset`, whose entry goes. */
    method Replace(offset: nat)
      requires Valid() && offset < |heap| - 1
      modifies this
      ensures Valid() && heap == Replaced(old(heap), offset)
    {
      RemovalAgrees(heap, index, offset);
      hide Agree;
      var size := |heap| - 1;
      index := index - {heap[offset].value};
      var entry := heap[size];
      index := index[entry.value := offset];
      heap := heap[..size][offset := entry];
    }

    method RemoveAt(offset: nat)
      requires Valid() && offset < |heap|
      modifies this
      ensures Valid() && heap == RemovedAt(old(heap), offset)
    {
      if offset == |heap| - 1 {
        RemovalAgrees(heap, index, offset);
        hide Agree;
        index := index - {heap[offset].value};
        heap := heap[..offset];
      } else {
        hide Valid, Down;
        Replace(offset);
        BubbleDown(offset);
      }
    }

    method RemoveMinimum()
      requires Valid() && heap != []
      modifies this
      ensures Valid() && heap == RemovedAt(old(heap), 0)
    {
      RemoveAt(0);
    }

    method RemoveByValue(value: V) returns (found: bool)
      requires Valid()
      modifies this
      ensures Valid() && (found <==> value in old(index))
      ensures heap == if found then RemovedAt(old(heap), old(index)[value]) else old(heap)
    {
      if value in index {
        RemoveAt(index[value]);
        return true;
      }
      return false;
    }

    /** Overwrites the priority of an entry in its place. */
    method SetPriority(priority: int, value: V) returns (offset: nat)
      requires Valid() && value in index
      modifies this
      ensures Valid() && offset == old(index)[value] && offset < |old(heap)| && old(heap)[offset].value == value
      ensures heap == old(heap)[offset := old(heap)[offset].(priority := priority)]
    {
      offset := index[value];
      heap := heap[offset := Entry(priority, value)];
    }

    method InsertOrChangePriority(priority: int, value: V) returns (inserted: bool)
      requires Valid()
      modifies this
      ensures Valid() && (inserted <==> value !in old(index))
      ensures !inserted ==> old(index)[value] < |old(heap)|
      ensures heap == if inserted then Inserted(old(heap), Entry(priority, value))
                      else Changed(old(heap), old(index)[value], priority)
    {
      hide Valid, Up, Down;
      if value !in index {
        Insert(priority, value);
        return true;
      }
      var offset := SetPriority(priority, value);
      if offset == 0 {
        BubbleDown(offset);
      } else {
        var parent := (offset - 1) / 2;
        var diff := heap[offset].priority - heap[parent].priority;
        if diff < 0 {
          BubbleUp(offset);
        } else if diff > 0 {
          BubbleDown(offset);
        }
      }
      return false;
    }
  }

  // ---------------------------------------------------------------- the armed timer

  /** it_value of an itimerspec; all zero disarms the timer. */
  datatype TimerSpec = TimerSpec(sec: int, nsec: int)

  const DISARMED := TimerSpec(0, 0)

  function SpecFor(heap: seq<Entry<Port>>): TimerSpec
  {
    if heap == [] then DISARMED
    else TimerSpec(heap[0].priority / 1000, (heap[0].priority % 1000) * 1000000)
  }

  /** The absolute time at which a timer goes off. */
  function Millis(t: TimerSpec): int { t.sec * 1000 + t.nsec / 1000000 }

  ghost predicate NoneNegative(heap: seq<Entry<Port>>) { forall e :: e in multiset(heap) ==> e.priority >= 0 }

  /** The timer set for a heap goes off at its first entry's deadline, except
      that a deadline of 0 leaves it disarmed. */
  lemma ArmedForFirst(heap: seq<Entry<Port>>)
    requires NoneNegative(heap)
    ensures SpecFor(heap) == DISARMED <==> heap == [] || heap[0].priority == 0
    ensures heap != [] ==> Millis(SpecFor(heap)) == heap[0].priority
  {
    if heap != [] {
      var p := heap[0].priority;
      assert heap[0] in multiset(heap);
      assert p == (p / 1000) * 1000 + p % 1000;
      assert (p % 1000) * 1000000 / 1000000 == p % 1000;
    }
  }

  /** Where the queue holds a port, or -1. */
  function PlaceOf(heap: seq<Entry<Port>>, port: Port): (at: int)
    ensures -1 <= at < |heap|
    ensures if at >= 0 then heap[at].value == port else forall i :: 0 <= i < |heap| ==> heap[i].value != port
  {
    if heap == [] then -1
    else if heap[0].value == port then 0
    else
      var at := PlaceOf(heap[1..], port);
      if at < 0 then -1 else at + 1
  }

  lemma PlaceIsIndex(heap: seq<Entry<Port>>, index: map<Port, nat>, port: Port)
    requires Agree(heap, index)
    ensures PlaceOf(heap, port) == if port in index then index[port] else -1
  {
  }

  /** What a timer message makes of the queue: a negative deadline cancels. */
  function Updated(heap: seq<Entry<Port>>, at: int, port: Port, deadline: int): seq<Entry<Port>>
    requires at < |heap|
  {
    if at >= 0 then if deadline < 0 then RemovedAt(heap, at) else Changed(heap, at, deadline)
    else if deadline < 0 then heap else Inserted(heap, Entry(deadline, port))
  }

  /** The removal that a cancellation makes does not break the order. */
  predicate SafeToCancel(heap: seq<Entry<Port>>, at: nat)
    requires at < |heap|
  {
    at == 0 || at == |heap| - 1 || heap[Parent(at)].priority <= heap[|heap| - 1].priority
  }

  /** A timer message keeps the queue ordered unless it cancels a deadline whose
      place the last one may not take, and then it never does. */
  lemma UpdateOrdersExactly(heap: seq<Entry<Port>>, at: int, port: Port, deadline: int)
    requires Ordered(heap) && at < |heap|
    ensures Ordered(Updated(heap, at, port, deadline)) <==> deadline >= 0 || at < 0 || SafeToCancel(heap, at)
  {
    hide Ordered, Up, Down;
    if at >= 0 {
      RemoveOrdersExactly(heap, at);
      ChangeOrders(heap, at, deadline);
    } else {
      InsertOrders(heap, Entry(deadline, port));
    }
  }

  lemma UpdateNoneNegative(heap: seq<Entry<Port>>, at: int, port: Port, deadline: int)
    requires NoneNegative(heap) && at < |heap|
    ensures NoneNegative(Updated(heap, at, port, deadline))
  {
    hide Inserted, Changed, RemovedAt;
    if at >= 0 {
      RemoveContents(heap, at);
      ChangeContents(heap, at, deadline);
    } else {
      InsertContents(heap, Entry(deadline, port));
    }
  }

  // ---------------------------------------------------------------- the queue as a map

  /** No port is in the queue twice. */
  ghost predicate Unique(heap: seq<Entry<Port>>) { UniqueIn(multiset(heap)) }

  ghost predicate UniqueIn(entries: multiset<Entry<Port>>)
  {
    && (forall e :: e in entries ==> entries[e] == 1)
    && (forall e, f :: e in entries && f in entries && e.value == f.value ==> e == f)
  }

  /** The deadline of each port in the queue. */
  function Deadlines(heap: seq<Entry<Port>>): map<Port, int>
  {
    if heap == [] then map[]
    else Deadlines(heap[..|heap| - 1])[heap[|heap| - 1].value := heap[|heap| - 1].priority]
  }

  /** The map holds exactly these entries. */
  ghost predicate Maps(m: map<Port, int>, entries: multiset<Entry<Port>>)
  {
    forall e :: e in entries <==> e.value in m && m[e.value] == e.priority
  }

  lemma {:induction false} DeadlinesMap(heap: seq<Entry<Port>>)
    requires Unique(heap)
    ensures Maps(Deadlines(heap), multiset(heap))
  {
    if heap != [] {
      var front, last := heap[..|heap| - 1], heap[|heap| - 1];
      assert heap == front + [last];
      UniqueFront(multiset(front), last);
      DeadlinesMap(front);
      MapsMore(Deadlines(front), multiset(front), last);
    }
  }

  lemma UniqueFront(entries: multiset<Entry<Port>>, e: Entry<Port>)
    requires UniqueIn(entries + multiset{e})
    ensures UniqueIn(entries) && forall f :: f in entries ==> f.value != e.value
  {
    var all := entries + multiset{e};
    forall f | f in entries ensures entries[f] == 1 && f.value != e.value {
      assert f in all && e in all && all[f] == entries[f] + if f == e then 1 else 0;
    }
    forall f, g | f in entries && g in entries && f.value == g.value ensures f == g { assert f in all && g in all; }
  }

  lemma MapsMore(m: map<Port, int>, entries: multiset<Entry<Port>>, e: Entry<Port>)
    requires Maps(m, entries) && UniqueIn(entries) && forall f :: f in entries ==> f.value != e.value
    ensures Maps(m[e.value := e.priority], entries + multiset{e}) && UniqueIn(entries + multiset{e})
  {
    var all := entries + multiset{e};
    var more := m[e.value := e.priority];
    forall f ensures f in all <==> f.value in more && more[f.value] == f.priority {
      assert f in all <==> f in entries || f == e;
    }
  }

  lemma MapsLess(m: map<Port, int>, entries: multiset<Entry<Port>>, e: Entry<Port>)
    requires Maps(m, entries) && UniqueIn(entries) && e in entries
    ensures Maps(m - {e.value}, entries - multiset{e}) && UniqueIn(entries - multiset{e})
    ensures forall f :: f in entries - multiset{e} ==> f.value != e.value
  {
    var left := entries - multiset{e};
    forall f ensures f in left <==> f in entries && f != e { assert left[f] == entries[f] - if f == e then 1 else 0; }
  }

  lemma MapsWithout(m: map<Port, int>, entries: multiset<Entry<Port>>, port: Port)
    requires Maps(m, entries) && forall f :: f in entries ==> f.value != port
    ensures Maps(m - {port}, entries)
  {
  }

  lemma MapsMoved(m: map<Port, int>, entries: multiset<Entry<Port>>, e: Entry<Port>, priority: int)
    requires Maps(m, entries) && UniqueIn(entries) && e in entries
    ensures var moved := entries - multiset{e} + multiset{e.(priority := priority)};
            Maps(m[e.value := priority], moved) && UniqueIn(moved)
  {
    hide Maps, UniqueIn;
    MapsLess(m, entries, e);
    MapsMore(m - {e.value}, entries - multiset{e}, e.(priority := priority));
    assert m[e.value := priority] == (m - {e.value})[e.value := priority];
  }

  lemma SameMap(a: map<Port, int>, b: map<Port, int>, entries: multiset<Entry<Port>>)
    requires Maps(a, entries) && Maps(b, entries)
    ensures a == b
  {
    forall p | p in a ensures p in b && b[p] == a[p] { assert Entry(a[p], p) in entries; }
    forall p | p in b ensures p in a { assert Entry(b[p], p) in entries; }
  }

  /** What a timer message makes of the deadlines. */
  function Set(m: map<Port, int>, port: Port, deadline: int): map<Port, int>
  {
    if deadline >= 0 then m[port := deadline] else m - {port}
  }

  lemma UpdateMaps(heap: seq<Entry<Port>>, port: Port, deadline: int)
    requires Unique(heap) && Maps(Deadlines(heap), multiset(heap))
    ensures var g := Updated(heap, PlaceOf(heap, port), port, deadline);
            Unique(g) && Maps(Set(Deadlines(heap), port, deadline), multiset(g))
  {
    if PlaceOf(heap, port) >= 0 {
      UpdateListed(heap, port, deadline);
    } else {
      UpdateUnlisted(heap, port, deadline);
    }
  }

  lemma UpdateListed(heap: seq<Entry<Port>>, port: Port, deadline: int)
    requires Unique(heap) && Maps(Deadlines(heap), multiset(heap)) && PlaceOf(heap, port) >= 0
    ensures var g := Updated(heap, PlaceOf(heap, port), port, deadline);
            Unique(g) && Maps(Set(Deadlines(heap), port, deadline), multiset(g))
  {
    hide Inserted, Changed, RemovedAt, Deadlines, UniqueIn, Maps;
    var at, m, entries := PlaceOf(heap, port), Deadlines(heap), multiset(heap);
    assert heap[at] in entries && heap[at].value == port;
    if deadline >= 0 {
      ChangeContents(heap, at, deadline);
      MapsMoved(m, entries, heap[at], deadline);
    } else {
      RemoveContents(heap, at);
      MapsLess(m, entries, heap[at]);
    }
  }

  lemma UpdateUnlisted(heap: seq<Entry<Port>>, port: Port, deadline: int)
    requires Unique(heap) && Maps(Deadlines(heap), multiset(heap)) && PlaceOf(heap, port) < 0
    ensures var g := Updated(heap, PlaceOf(heap, port), port, deadline);
            Unique(g) && Maps(Set(Deadlines(heap), port, deadline), multiset(g))
  {
    hide Inserted, Changed, RemovedAt, Deadlines, UniqueIn, Maps;
    var m, entries := Deadlines(heap), multiset(heap);
    NotListed(heap, port);
    if deadline >= 0 {
      InsertContents(heap, Entry(deadline, port));
      MapsMore(m, entries, Entry(deadline, port));
    } else {
      MapsWithout(m, entries, port);
    }
  }

  /** A timer message sets the deadline of its port, or takes it out; no other
      port is touched. */
  lemma UpdateMeans(heap: seq<Entry<Port>>, port: Port, deadline: int)
    requires Unique(heap)
    ensures var g := Updated(heap, PlaceOf(heap, port), port, deadline);
            Unique(g) && Deadlines(g) == Set(Deadlines(heap), port, deadline)
  {
    hide Updated, PlaceOf, Deadlines, Unique, Maps, Set;
    var g := Updated(heap, PlaceOf(heap, port), port, deadline);
    DeadlinesMap(heap);
    UpdateMaps(heap, port, deadline);
    DeadlinesMap(g);
    SameMap(Deadlines(g), Set(Deadlines(heap), port, deadline), multiset(g));
  }

  lemma NotListed(heap: seq<Entry<Port>>, port: Port)
    requires PlaceOf(heap, port) < 0
    ensures forall f :: f in multiset(heap) ==> f.value != port
  {
    forall f | f in multiset(heap) ensures f.value != port { assert f in heap; }
  }

  /** A timeout takes out exactly the port of the first entry. */
  lemma ExpireMeans(heap: seq<Entry<Port>>)
    requires Unique(heap) && heap != []
    ensures var g := RemovedAt(heap, 0);
            Unique(g) && heap[0].value in Deadlines(heap) && Deadlines(heap)[heap[0].value] == heap[0].priority
            && Deadlines(g) == Deadlines(heap) - {heap[0].value}
  {
    hide RemovedAt, Deadlines, UniqueIn;
    DeadlinesMap(heap);
    assert heap[0] in multiset(heap);
    MapsLess(Deadlines(heap), multiset(heap), heap[0]);
    RemoveContents(heap, 0);
    DeadlinesMap(RemovedAt(heap, 0));
    SameMap(Deadlines(RemovedAt(heap, 0)), Deadlines(heap) - {heap[0].value}, multiset(RemovedAt(heap, 0)));
  }

  lemma {:induction false} AgreeUnique(heap: seq<Entry<Port>>, index: map<Port, nat>)
    requires Agree(heap, index)
    ensures Unique(heap)
  {
    DistinctUnique(heap);
  }

  lemma {:induction false} DistinctUnique(heap: seq<Entry<Port>>)
    requires forall i, j :: 0 <= i < j < |heap| ==> heap[i].value != heap[j].value
    ensures Unique(heap)
  {
    if heap != [] {
      var front, last := heap[..|heap| - 1], heap[|heap| - 1];
      DistinctUnique(front);
      assert heap == front + [last];
      assert forall f :: f in multiset(front) ==> f in front;
      DeadlinesMap(front);
      MapsMore(Deadlines(front), multiset(front), last);
    }
  }

  /** TimeoutQueue::UpdateTimeout. */
  method UpdateTimeout(queue: PriorityQueue<Port>, port: Port, deadline: int)
    requires queue.Valid()
    modifies queue
    ensures queue.Valid() && queue.heap == Updated(old(queue.heap), PlaceOf(old(queue.heap), port), port, deadline)
    ensures Deadlines(queue.heap) == Set(old(Deadlines(queue.heap)), port, deadline)
  {
    AgreeUnique(queue.heap, queue.index);
    UpdateMeans(queue.heap, port, deadline);
    hide Unique, Deadlines;
    hide Up, Down, PlaceOf, Agree;
    PlaceIsIndex(queue.heap, queue.index, port);
    if deadline < 0 {
      var found := queue.RemoveByValue(port);
    } else {
      var inserted := queue.InsertOrChangePriority(deadline, port);
    }
  }

  class TimeoutTimer {
    const queue: PriorityQueue<Port>
    var armed: TimerSpec

    /** The timer is set for the first entry of the queue. */
    ghost predicate Valid()
      reads this, queue
    {
      queue.Valid() && NoneNegative(queue.heap) && armed == SpecFor(queue.heap)
    }

    constructor ()
      ensures Valid() && fresh(queue) && queue.heap == [] && armed == DISARMED
    {
      queue := new PriorityQueue<Port>();
      armed := DISARMED;
    }

    method UpdateTimerFd()
      modifies this
      ensures armed == SpecFor(queue.heap)
    {
      armed := DISARMED;
      if queue.heap != [] {
        var millis := queue.heap[0].priority;
        armed := TimerSpec(millis / 1000, (millis % 1000) * 1000000);
      }
    }

    /** A timer message: the queue is updated and the timer set again. */
    method HandleMessage(port: Port, deadline: int)
      requires Valid()
      modifies this, queue
      ensures Valid()
      ensures queue.heap == Updated(old(queue.heap), PlaceOf(old(queue.heap), port), port, deadline)
      ensures Deadlines(queue.heap) == Set(old(Deadlines(queue.heap)), port, deadline)
    {
      hide NoneNegative, Updated, PlaceOf, Deadlines;
      UpdateNoneNegative(queue.heap, PlaceOf(queue.heap, port), port, deadline);
      UpdateTimeout(queue, port, deadline);
      UpdateTimerFd();
    }

    /** The timer event. The kernel raises it only for an armed timer whose time
        has come, so the port that is told is never told early. */
    method HandleEvent(now: int) returns (told: seq<Entry<Port>>)
      requires Valid() && armed != DISARMED && Millis(armed) <= now
      modifies this, queue
      ensures Valid()
      ensures old(queue.heap) != [] && told == [old(queue.heap)[0]]
      ensures told[0] in multiset(old(queue.heap)) && told[0].priority <= now
      ensures Deadlines(queue.heap) == old(Deadlines(queue.heap)) - {told[0].value}
      ensures queue.heap == RemovedAt(old(queue.heap), 0)
      ensures multiset(queue.heap) == multiset(old(queue.heap)) - multiset{told[0]}
      ensures Ordered(old(queue.heap)) ==> Ordered(queue.heap)
      ensures Ordered(old(queue.heap)) ==>
                forall e :: e in multiset(old(queue.heap)) ==> told[0].priority <= e.priority
    {
      hide Ordered, Down, Deadlines, Unique;
      ghost var heap := queue.heap;
      ArmedForFirst(heap);
      AgreeUnique(heap, queue.index);
      if heap != [] { ExpireMeans(heap); }
      told := [];
      if queue.heap != [] {
        RemoveContents(heap, 0);
        if Ordered(heap) { RemoveOrdersExactly(heap, 0); FirstOfAll(heap); }
        told := [queue.heap[0]];
        queue.RemoveMinimum();
      }
      UpdateTimerFd();
    }
  }

  lemma FirstOfAll(heap: seq<Entry<Port>>)
    requires Ordered(heap) && heap != []
    ensures forall e :: e in multiset(heap) ==> heap[0].priority <= e.priority
  {
    forall e | e in multiset(heap) ensures heap[0].priority <= e.priority {
      assert e in heap;
      var i :| 0 <= i < |heap| && heap[i] == e;
      FirstIsLeast(heap, i);
    }
  }

  // ---------------------------------------------------------------- what a cancellation does later

  /** What happens to a queue: a request, a cancellation or a timeout. */
  datatype Move = Ask(port: Port, deadline: nat) | Cancel(port: Port) | Expire

  function Moved(heap: seq<Entry<Port>>, m: Move): seq<Entry<Port>>
  {
    match m
    case Ask(port, deadline) => Updated(heap, PlaceOf(heap, port), port, deadline)
    case Cancel(port) => Updated(heap, PlaceOf(heap, port), port, -1)
    case Expire => if heap == [] then heap else RemovedAt(heap, 0)
  }

  function After(heap: seq<Entry<Port>>, moves: seq<Move>): seq<Entry<Port>>
    decreases |moves|
  {
    if moves == [] then heap else After(Moved(heap, moves[0]), moves[1..])
  }

  lemma {:induction false} AfterAppend(heap: seq<Entry<Port>>, a: seq<Move>, b: seq<Move>)
    ensures After(heap, a + b) == After(After(heap, a), b)
    decreases |a|
  {
    hide Moved;
    if a == [] {
      assert a + b == b;
    } else {
      assert (a + b)[1..] == a[1..] + b;
      AfterAppend(Moved(heap, a[0]), a[1..], b);
    }
  }

  lemma AfterOne(heap: seq<Entry<Port>>, m: Move)
    ensures After(heap, [m]) == Moved(heap, m) && After(heap, []) == heap
  {
    assert [m][1..] == [];
  }

  lemma ExpireMoves(heap: seq<Entry<Port>>, expired: bool)
    ensures After(heap, if expired then [Expire] else []) ==
            if expired && heap != [] then RemovedAt(heap, 0) else heap
  {
    AfterOne(heap, Expire);
  }

  /** The timer is armed for no later than any deadline. */
  ghost predicate ArmedForEarliest(heap: seq<Entry<Port>>)
  {
    forall i :: 0 <= i < |heap| ==> heap[0].priority <= heap[i].priority
  }

  predicate NoCancels(moves: seq<Move>) { forall i :: 0 <= i < |moves| ==> !moves[i].Cancel? }

  /** The move cancels nothing, or where that is safe. */
  predicate SafeMove(heap: seq<Entry<Port>>, m: Move)
  {
    m.Cancel? && PlaceOf(heap, m.port) >= 0 ==> SafeToCancel(heap, PlaceOf(heap, m.port))
  }

  /** Every cancellation of the run is safe when it is made. */
  predicate AllSafe(heap: seq<Entry<Port>>, moves: seq<Move>)
    decreases |moves|
  {
    moves != [] ==> SafeMove(heap, moves[0]) && AllSafe(Moved(heap, moves[0]), moves[1..])
  }

  /** A move keeps the queue ordered if and only if it is safe. */
  lemma MoveOrders(heap: seq<Entry<Port>>, m: Move)
    requires Ordered(heap)
    ensures Ordered(Moved(heap, m)) <==> SafeMove(heap, m)
  {
    hide Ordered, Updated, RemovedAt;
    match m {
      case Ask(port, deadline) => UpdateOrdersExactly(heap, PlaceOf(heap, port), port, deadline);
      case Cancel(port) => UpdateOrdersExactly(heap, PlaceOf(heap, port), port, -1);
      case Expire => if heap != [] { RemoveOrdersExactly(heap, 0); }
    }
  }

  lemma {:induction false} OrderStays(heap: seq<Entry<Port>>, moves: seq<Move>)
    requires Ordered(heap) && AllSafe(heap, moves)
    ensures Ordered(After(heap, moves)) && ArmedForEarliest(After(heap, moves))
    decreases |moves|
  {
    hide Ordered, Moved, SafeMove;
    if moves == [] {
      forall i | 0 <= i < |heap| ensures heap[0].priority <= heap[i].priority { FirstIsLeast(heap, i); }
    } else {
      MoveOrders(heap, moves[0]);
      OrderStays(Moved(heap, moves[0]), moves[1..]);
    }
  }

  lemma {:induction false} NoCancelsSafe(heap: seq<Entry<Port>>, moves: seq<Move>)
    requires NoCancels(moves)
    ensures AllSafe(heap, moves)
    decreases |moves|
  {
    if moves != [] { NoCancelsSafe(Moved(heap, moves[0]), moves[1..]); }
  }

  lemma {:induction false} RunOn(heap: seq<Entry<Port>>, moves: seq<Move>, more: seq<Move>)
    ensures After(heap, moves + more) == After(After(heap, moves), more)
    ensures AllSafe(heap, moves + more) <==> AllSafe(heap, moves) && AllSafe(After(heap, moves), more)
    decreases |moves|
  {
    hide Moved, SafeMove;
    if moves == [] {
      assert moves + more == more;
    } else {
      assert (moves + more)[1..] == moves[1..] + more;
      RunOn(Moved(heap, moves[0]), moves[1..], more);
    }
  }

  /** The port told at each move of a run, if one is. */
  function ToldAt(heap: seq<Entry<Port>>, m: Move): seq<Port>
  {
    if m.Expire? && heap != [] then [heap[0].value] else []
  }

  /** What moves, read in turn, make of a map of deadlines; `told` are the ports
      that were told at each. */
  function Meant(m: map<Port, int>, moves: seq<Move>, told: seq<seq<Port>>): map<Port, int>
    requires |moves| == |told|
    decreases |moves|
  {
    if moves == [] then m
    else
      var next := match moves[0]
        case Ask(port, deadline) => m[port := deadline]
        case Cancel(port) => m - {port}
        case Expire => m - (set p | p in told[0]);
      Meant(next, moves[1..], told[1..])
  }

  function ToldIn(heap: seq<Entry<Port>>, moves: seq<Move>): (told: seq<seq<Port>>)
    ensures |told| == |moves|
    decreases |moves|
  {
    if moves == [] then [] else [ToldAt(heap, moves[0])] + ToldIn(Moved(heap, moves[0]), moves[1..])
  }

  /** Over any run the queue holds exactly the deadlines that the moves, read in
      turn, leave pending: each asked for last, not cancelled and not yet told. */
  lemma {:induction false} RunMeans(heap: seq<Entry<Port>>, moves: seq<Move>)
    requires Unique(heap)
    ensures Unique(After(heap, moves))
    ensures Deadlines(After(heap, moves)) == Meant(Deadlines(heap), moves, ToldIn(heap, moves))
    decreases |moves|
  {
    hide Unique, Deadlines, Updated, RemovedAt, PlaceOf;
    if moves != [] {
      match moves[0] {
        case Ask(port, deadline) => UpdateMeans(heap, port, deadline);
        case Cancel(port) => UpdateMeans(heap, port, -1);
        case Expire =>
          if heap != [] {
            ExpireMeans(heap);
            assert (set p | p in [heap[0].value]) == {heap[0].value};
          } else {
            assert Deadlines(heap) - (set p | p in ToldAt(heap, Expire)) == Deadlines(heap);
          }
      }
      var told := ToldIn(heap, moves);
      assert told[1..] == ToldIn(Moved(heap, moves[0]), moves[1..]);
      RunMeans(Moved(heap, moves[0]), moves[1..]);
    }
  }

  /** An entry that is before its parent, with `late` after all entries. */
  ghost predicate Broken(heap: seq<Entry<Port>>, j: nat, late: int)
  {
    && 0 < j < |heap| && heap[j].priority < heap[Parent(j)].priority < late
    && forall i :: 0 <= i < |heap| ==> heap[i].priority <= late
  }

  /** Sinking the latest entry moves the fault up or leaves it where it is. */
  lemma {:induction false} FaultStays(heap: seq<Entry<Port>>, i: nat, j: nat, late: int) returns (j': nat)
    requires Broken(heap, j, late) && i < |heap| && heap[i].priority == late && i != j
    ensures Broken(Down(heap, i), j', late)
    decreases |heap| - i
  {
    hide Down;
    var s := Smallest(heap, i);
    DownUnfolds(heap, i);
    if s == i {
      j' := j;
    } else if s == Parent(j) {
      FaultFollows(heap, i, j, late);
      j' := s;
    } else {
      j' := FaultStays(Swapped(heap, i, s), s, j, late);
    }
  }

  /** When the later of the two is moved up, the earlier one follows it. */
  lemma FaultFollows(heap: seq<Entry<Port>>, i: nat, j: nat, late: int)
    requires Broken(heap, j, late) && i < |heap| && heap[i].priority == late
    requires Smallest(heap, i) == Parent(j) != i
    ensures Broken(Down(heap, i), Parent(j), late)
  {
    hide Down, Swapped, Smallest;
    var p := Parent(j);
    var g := Swapped(heap, i, p);
    var c := Smallest(g, p);
    var f := Swapped(g, p, c);
    DownUnfolds(heap, i);
    DownUnfolds(g, p);
    ChildOf(j);
    ChildOf(p);
    SwappedAt(heap, i, p);
    hide Parent;
    assert g[p].priority == late && g[j] == heap[j] && g[c].priority <= heap[j].priority;
    SwappedAt(g, p, c);
    assert f[i] == heap[p] && f[p] == g[c];
    BoundedSwap(heap, i, p, late);
    BoundedSwap(g, p, c, late);
    DownLeaves(f, c);
    DownBounded(f, c, late);
  }

  lemma ChildOf(j: nat)
    requires j > 0
    ensures j == 2 * Parent(j) + 1 || j == 2 * Parent(j) + 2
  {
  }

  lemma SwappedAt(heap: seq<Entry<Port>>, i: nat, j: nat)
    requires i < |heap| && j < |heap|
    ensures Swapped(heap, i, j)[i] == heap[j] && Swapped(heap, i, j)[j] == heap[i]
    ensures forall k :: 0 <= k < |heap| && k != i && k != j ==> Swapped(heap, i, j)[k] == heap[k]
  {
  }

  lemma BoundedSwap(heap: seq<Entry<Port>>, i: nat, j: nat, late: int)
    requires i < |heap| && j < |heap| && forall k :: 0 <= k < |heap| ==> heap[k].priority <= late
    ensures forall k :: 0 <= k < |heap| ==> Swapped(heap, i, j)[k].priority <= late
  {
  }

  lemma DownUnfolds(heap: seq<Entry<Port>>, i: nat)
    requires i < |heap|
    ensures var s := Smallest(heap, i); Down(heap, i) == if s == i then heap else Down(Swapped(heap, i, s), s)
  {
  }

  lemma {:induction false} DownLeaves(heap: seq<Entry<Port>>, i: nat)
    requires i < |heap|
    ensures forall k :: 0 <= k < i ==> Down(heap, i)[k] == heap[k]
    decreases |heap| - i
  {
    var s := Smallest(heap, i);
    if s != i { DownLeaves(Swapped(heap, i, s), s); }
  }

  lemma {:induction false} DownBounded(heap: seq<Entry<Port>>, i: nat, late: int)
    requires i < |heap| && forall k :: 0 <= k < |heap| ==> heap[k].priority <= late
    ensures forall k :: 0 <= k < |heap| ==> Down(heap, i)[k].priority <= late
    decreases |heap| - i
  {
    var s := Smallest(heap, i);
    if s != i { DownBounded(Swapped(heap, i, s), s, late); }
  }

  /** How many entries are before `late`. */
  function Early(heap: seq<Entry<Port>>, late: int): nat
  {
    if heap == [] then 0 else (if heap[0].priority < late then 1 else 0) + Early(heap[1..], late)
  }

  lemma {:induction false} EarlyReplaced(heap: seq<Entry<Port>>, i: nat, e: Entry<Port>, late: int)
    requires i < |heap|
    ensures Early(heap[i := e], late) ==
            Early(heap, late) - (if heap[i].priority < late then 1 else 0) + (if e.priority < late then 1 else 0)
  {
    if i > 0 {
      EarlyReplaced(heap[1..], i - 1, e, late);
      assert heap[i := e][1..] == heap[1..][i - 1 := e];
    }
  }

  lemma {:induction false} EarlySinking(heap: seq<Entry<Port>>, i: nat, late: int)
    requires i < |heap|
    ensures Early(Down(heap, i), late) == Early(heap, late)
    decreases |heap| - i
  {
    var s := Smallest(heap, i);
    if s != i {
      EarlyReplaced(heap, i, heap[s], late);
      EarlyReplaced(heap[i := heap[s]], s, heap[i], late);
      EarlySinking(Swapped(heap, i, s), s, late);
    }
  }

  /** A fault comes out: postponing the first entry often enough arms the timer
      for a deadline although an earlier one is pending. */
  lemma {:induction false} FaultComesOut(heap: seq<Entry<Port>>, j: nat, late: nat) returns (moves: seq<Move>)
    requires Broken(heap, j, late)
    ensures NoCancels(moves) && !ArmedForEarliest(After(heap, moves))
    decreases Early(heap, late)
  {
    hide Moved, Parent;
    if heap[0].priority > heap[j].priority {
      moves := [];
    } else {
      var m := Ask(heap[0].value, late);
      var j' := Postpone(heap, j, late);
      var rest := FaultComesOut(Moved(heap, m), j', late);
      moves := [m] + rest;
      assert moves[1..] == rest;
    }
  }

  /** Postponing the first entry to `late` keeps a fault. */
  lemma Postpone(heap: seq<Entry<Port>>, j: nat, late: nat) returns (j': nat)
    requires Broken(heap, j, late) && heap[0].priority <= heap[j].priority
    ensures var next := Moved(heap, Ask(heap[0].value, late));
            Broken(next, j', late) && Early(next, late) < Early(heap, late)
  {
    var e := heap[0].(priority := late);
    assert Moved(heap, Ask(heap[0].value, late)) == Down(heap[0 := e], 0);
    hide Moved, Down, Early;
    EarlyReplaced(heap, 0, e, late);
    EarlySinking(heap[0 := e], 0, late);
    j' := FaultStays(heap[0 := e], 0, j, late);
  }

  /** Cancelling in an ordered queue: the timer is right ever after, whatever
      requests and timeouts follow, exactly when the last entry may take the
      place of the cancelled one. */
  lemma CancelRightExactly(heap: seq<Entry<Port>>, at: nat)
    requires Ordered(heap) && at < |heap|
    ensures SafeToCancel(heap, at) <==>
            forall moves :: NoCancels(moves) ==> ArmedForEarliest(After(RemovedAt(heap, at), moves))
  {
    hide Ordered, RemovedAt, After, ArmedForEarliest, AllSafe, NoCancels;
    var left := RemovedAt(heap, at);
    RemoveOrdersExactly(heap, at);
    if SafeToCancel(heap, at) {
      forall moves | NoCancels(moves) ensures ArmedForEarliest(After(left, moves)) {
        NoCancelsSafe(left, moves);
        OrderStays(left, moves);
      }
    } else {
      var late := CancelBreaks(heap, at);
      var moves := FaultComesOut(left, at, late);
    }
  }

  /** After the first `k` moves and then `more`, requests and timeouts only, the
      timer is armed for the earliest deadline. */
  ghost predicate RightAfter(heap: seq<Entry<Port>>, moves: seq<Move>, k: nat, more: seq<Move>)
  {
    k <= |moves| && NoCancels(more) ==> ArmedForEarliest(After(heap, moves[..k] + more))
  }

  /** A whole run of requests, cancellations and timeouts: the timer is armed for
      the earliest deadline at every point of it, and stays so through whatever
      requests and timeouts come instead from there on, if and only if every
      cancellation was safe when it was made. */
  lemma RunRightExactly(heap: seq<Entry<Port>>, moves: seq<Move>)
    requires Ordered(heap)
    ensures AllSafe(heap, moves) <==> forall k: nat, more: seq<Move> :: RightAfter(heap, moves, k, more)
  {
    hide Ordered, After, ArmedForEarliest, AllSafe, NoCancels;
    if AllSafe(heap, moves) {
      forall k: nat, more: seq<Move> ensures RightAfter(heap, moves, k, more) {
        if k <= |moves| && NoCancels(more) { SafePrefix(heap, moves, k, more); }
      }
    } else {
      var k, more := FirstUnsafe(heap, moves);
      assert !RightAfter(heap, moves, k, more);
    }
  }

  lemma SafePrefix(heap: seq<Entry<Port>>, moves: seq<Move>, k: nat, more: seq<Move>)
    requires Ordered(heap) && AllSafe(heap, moves) && k <= |moves| && NoCancels(more)
    ensures ArmedForEarliest(After(heap, moves[..k] + more))
  {
    hide Ordered, After, ArmedForEarliest, AllSafe, NoCancels;
    assert moves == moves[..k] + moves[k..];
    RunOn(heap, moves[..k], moves[k..]);
    NoCancelsSafe(After(heap, moves[..k]), more);
    RunOn(heap, moves[..k], more);
    OrderStays(heap, moves[..k] + more);
  }

  /** After the first cancellation that is not safe, requests alone bring it out. */
  lemma {:induction false} FirstUnsafe(heap: seq<Entry<Port>>, moves: seq<Move>) returns (k: nat, more: seq<Move>)
    requires Ordered(heap) && !AllSafe(heap, moves)
    ensures k <= |moves| && NoCancels(more) && !ArmedForEarliest(After(heap, moves[..k] + more))
    decreases |moves|
  {
    hide Ordered, Moved, ArmedForEarliest, NoCancels, SafeMove;
    var m := moves[0];
    MoveOrders(heap, m);
    if SafeMove(heap, m) {
      k, more := FirstUnsafe(Moved(heap, m), moves[1..]);
      k := k + 1;
      assert (moves[..k] + more)[1..] == moves[1..][..k - 1] + more;
    } else {
      k := 1;
      more := UnsafeComesOut(heap, m);
      assert (moves[..1] + more)[1..] == more;
    }
  }

  lemma UnsafeComesOut(heap: seq<Entry<Port>>, m: Move) returns (more: seq<Move>)
    requires Ordered(heap) && !SafeMove(heap, m)
    ensures NoCancels(more) && !ArmedForEarliest(After(Moved(heap, m), more))
  {
    hide Ordered, RemovedAt, After, ArmedForEarliest, NoCancels, SafeToCancel;
    var at := PlaceOf(heap, m.port);
    var late := CancelBreaks(heap, at);
    more := FaultComesOut(RemovedAt(heap, at), at, late);
  }

  lemma CancelBreaks(heap: seq<Entry<Port>>, at: nat) returns (late: nat)
    requires Ordered(heap) && at < |heap| && !SafeToCancel(heap, at)
    ensures Broken(RemovedAt(heap, at), at, late)
  {
    hide Ordered, Down, Swapped, Smallest;
    var n := |heap| - 1;
    var g := heap[..n][at := heap[n]];
    late := LateFor(g);
    DownUnfolds(g, at);
    DownLeaves(g, at);
    DownBounded(g, at, late);
    var s := Smallest(g, at);
    if s != at {
      SwappedAt(g, at, s);
      DownLeaves(Swapped(g, at, s), s);
    }
  }

  lemma {:induction false} LateFor(heap: seq<Entry<Port>>) returns (late: nat)
    ensures forall i :: 0 <= i < |heap| ==> heap[i].priority < late
  {
    if heap == [] {
      late := 0;
    } else {
      late := LateFor(heap[1..]);
      if heap[0].priority >= late { late := heap[0].priority + 1; }
    }
  }

  // ---------------------------------------------------------------- a run that goes wrong

  /** A queue with these deadlines, each for a port of that number. */
  function Of(deadlines: seq<int>): seq<Entry<Port>>
  {
    seq(|deadlines|, i requires 0 <= i < |deadlines| => Entry(deadlines[i], Port(deadlines[i])))
  }

  const DEADLINES := [1, 10, 3, 11, 12, 5, 4]

  /** Asking for these deadlines in turn builds this queue. */
  lemma BuiltInTurn(k: nat)
    requires k < |DEADLINES|
    ensures Inserted(Of(DEADLINES[..k]), Entry(DEADLINES[k], Port(DEADLINES[k]))) == Of(DEADLINES[..k + 1])
  {
    hide Ordered, Inserted;
    DeadlinesOrdered();
    PrefixOrdered(DEADLINES, k);
    PrefixOrdered(DEADLINES, k + 1);
    assert DEADLINES[..k] + [DEADLINES[k]] == DEADLINES[..k + 1];
    StaysLast(DEADLINES[..k], DEADLINES[k]);
  }

  lemma DeadlinesOrdered()
    ensures Ordered(Of(DEADLINES))
  {
    forall i | 0 < i < |DEADLINES| ensures EdgeOk(Of(DEADLINES), i) {
      assert i == 1 || i == 2 || i == 3 || i == 4 || i == 5 || i == 6;
    }
  }

  lemma PrefixOrdered(ds: seq<int>, k: nat)
    requires Ordered(Of(ds)) && k <= |ds|
    ensures Ordered(Of(ds[..k]))
  {
    forall i | 0 < i < k ensures EdgeOk(Of(ds[..k]), i) { assert EdgeOk(Of(ds), i); }
  }

  /** A deadline not before its parent stays at the end. */
  lemma StaysLast(ds: seq<int>, d: int)
    requires Ordered(Of(ds)) && Ordered(Of(ds + [d]))
    ensures Inserted(Of(ds), Entry(d, Port(d))) == Of(ds + [d])
  {
    var h := Of(ds + [d]);
    assert h == Of(ds) + [Entry(d, Port(d))];
    UpIdle(h, |ds|);
  }

  lemma {:induction false} UpIdle(h: seq<Entry<Port>>, i: nat)
    requires Ordered(h) && i < |h|
    ensures Up(h, i) == h
    decreases i
  {
    if i > 0 {
      assert EdgeOk(h, i);
      UpIdle(h, Parent(i));
    }
  }

  /** Two cancellations and one timeout later, the queue would arm the timer for
      5 although 4 is pending. */
  lemma CancellingCanMissTheEarliest()
    ensures RemovedAt(Of(DEADLINES), 3) == Of([1, 10, 3, 4, 12, 5])
    ensures RemovedAt(Of([1, 10, 3, 4, 12, 5]), 2) == Of([1, 10, 5, 4, 12])
    ensures RemovedAt(Of([1, 10, 5, 4, 12]), 0) == Of([5, 10, 12, 4])
    ensures Millis(SpecFor(Of([5, 10, 12, 4]))) == 5 && Entry(4, Port(4)) in Of([5, 10, 12, 4])
  {
    var h := Of(DEADLINES);
    assert h[..6][3 := h[6]] == Of([1, 10, 3, 4, 12, 5]);
    var g := Of([1, 10, 3, 4, 12, 5]);
    assert g[..5][2 := g[5]] == Of([1, 10, 5, 4, 12]);
    var f := Of([1, 10, 5, 4, 12]);
    assert f[..4][0 := f[4]] == Of([12, 10, 5, 4]);
    assert Swapped(Of([12, 10, 5, 4]), 0, 2) == Of([5, 10, 12, 4]);
    assert Smallest(Of([12, 10, 5, 4]), 0) == 2;
    assert Down(Of([5, 10, 12, 4]), 2) == Of([5, 10, 12, 4]);
    assert Of([5, 10, 12, 4])[3] == Entry(4, Port(4));
  }
}
