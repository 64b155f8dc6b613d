/** The notification scheduler of a listening descriptor, as values: per-port
    token budgets and the round-robin ring of ports that may be notified. */
module Scheduler {
  import opened Ring

  datatype Port = Port(id: int)

  const ILLEGAL_PORT := Port(0)

  /** The amount a port starts with on a descriptor with several listeners. */
  const INITIAL: int := 4

  datatype Account = Account(reading: bool, tokens: int)
  {
    predicate Ready() { reading && tokens > 0 }
  }

  datatype Multi = Multi(ports: map<Port, Account>, ring: seq<Port>)

  const EMPTY := Multi(map[], [])

  ghost predicate Distinct<T>(s: seq<T>) { forall i, j :: 0 <= i < j < |s| ==> s[i] != s[j] }

  /** The ring holds, without duplicates, exactly the ready ports. */
  ghost predicate Coherent(m: Multi)
  {
    && Distinct(m.ring)
    && (forall p :: p in m.ring <==> p in m.ports && m.ports[p].Ready())
    && (forall p :: p in m.ports ==> p != ILLEGAL_PORT)
  }

  /** Putting an account back, with the ring following its readiness. */
  function Update(m: Multi, p: Port, a: Account): Multi
  {
    var was := p in m.ports && m.ports[p].Ready();
    Multi(m.ports[p := a],
          if was && !a.Ready() then Without(m.ring, p)
          else if !was && a.Ready() then m.ring + [p]
          else m.ring)
  }

  function SetReading(m: Multi, p: Port, reading: bool): Multi
  {
    Update(m, p, Account(reading, if p in m.ports then m.ports[p].tokens else INITIAL))
  }

  function Remove(m: Multi, p: Port): Multi
  {
    if p !in m.ports then m
    else Multi(m.ports - {p}, if m.ports[p].Ready() then Without(m.ring, p) else m.ring)
  }

  /** A broadcast: every port loses a token, those that run out leave the ring. */
  function NotifyAll(m: Multi): Multi
  {
    var ports := map p | p in m.ports :: m.ports[p].(tokens := m.ports[p].tokens - 1);
    Multi(ports, StillReady(m.ring, ports))
  }

  function StillReady(ring: seq<Port>, ports: map<Port, Account>): seq<Port>
  {
    if ring == [] then []
    else (if ring[0] in ports && ports[ring[0]].tokens > 0 then [ring[0]] else []) + StillReady(ring[1..], ports)
  }

  function Return(m: Multi, p: Port, count: nat): Multi
    requires p in m.ports
  {
    Update(m, p, m.ports[p].(tokens := m.ports[p].tokens + count))
  }

  /** The port to notify next, if there is one. */
  function Next(m: Multi): Port { if m.ring == [] then ILLEGAL_PORT else m.ring[0] }

  /** One notification: the head loses a token and leaves or goes to the end. */
  function Notify(m: Multi): Multi
  {
    if m.ring == [] || m.ring[0] !in m.ports then m
    else
      var p := m.ring[0];
      var a := m.ports[p].(tokens := m.ports[p].tokens - 1);
      Multi(m.ports[p := a], m.ring[1..] + if a.tokens <= 0 then [] else [p])
  }

  function Mask(m: Multi): int { if m.ring == [] then 0 else 1 }

  // ---------------------------------------------------------------- every operation keeps the ring

  lemma {:induction false} WithoutKeeps(s: seq<Port>, x: Port)
    requires Distinct(s)
    ensures Distinct(Without(s, x))
    ensures forall y :: y in Without(s, x) <==> y in s && y != x
  {
    if s != [] {
      WithoutKeeps(s[1..], x);
      if s[0] != x {
        var t := Without(s[1..], x);
        assert s[0] !in s[1..];
        assert Without(s, x) == [s[0]] + t;
      } else {
        assert x !in s[1..];
      }
    }
  }

  lemma RingReady(m: Multi, i: nat)
    requires Coherent(m) && i < |m.ring|
    ensures m.ring[i] != ILLEGAL_PORT && m.ring[i] in m.ports && m.ports[m.ring[i]].Ready()
  {
    var p := m.ring[i];
    assert p in m.ring;
  }

  lemma UpdateKeeps(m: Multi, p: Port, a: Account)
    requires Coherent(m) && p != ILLEGAL_PORT
    ensures Coherent(Update(m, p, a))
  {
    WithoutKeeps(m.ring, p);
  }

  lemma RemoveKeeps(m: Multi, p: Port)
    requires Coherent(m)
    ensures Coherent(Remove(m, p))
  {
    WithoutKeeps(m.ring, p);
  }

  lemma {:induction false} StillReadyKeeps(ring: seq<Port>, ports: map<Port, Account>)
    requires Distinct(ring)
    ensures Distinct(StillReady(ring, ports))
    ensures forall p :: p in StillReady(ring, ports) <==> p in ring && p in ports && ports[p].tokens > 0
  {
    if ring != [] {
      StillReadyKeeps(ring[1..], ports);
      assert ring[0] !in ring[1..];
    }
  }

  /** A broadcast under way: the ports in `todo` have not been reached. */
  ghost predicate Ticking(m: Multi, now: Multi, todo: set<Port>)
  {
    && now.ports.Keys == m.ports.Keys && todo <= m.ports.Keys
    && (forall p :: p in m.ports ==>
          now.ports[p] == if p in todo then m.ports[p] else m.ports[p].(tokens := m.ports[p].tokens - 1))
    && now.ring == StillReady(m.ring, now.ports)
  }

  /** One port of a broadcast. */
  function Tick(m: Multi, p: Port): Multi
    requires p in m.ports
  {
    var a := m.ports[p].(tokens := m.ports[p].tokens - 1);
    Multi(m.ports[p := a], if m.ports[p].Ready() && a.tokens <= 0 then Without(m.ring, p) else m.ring)
  }

  lemma {:induction false} StillReadyAfter(ring: seq<Port>, ports: map<Port, Account>, p: Port, a: Account)
    requires Distinct(ring) && p in ports
    ensures a.tokens > 0 && ports[p].tokens > 0 ==> StillReady(ring, ports[p := a]) == StillReady(ring, ports)
    ensures p !in ring ==> StillReady(ring, ports[p := a]) == StillReady(ring, ports)
  {
    if ring != [] { StillReadyAfter(ring[1..], ports, p, a); }
  }

  lemma {:induction false} RunsOut(ring: seq<Port>, ports: map<Port, Account>, p: Port, a: Account)
    requires Distinct(ring) && p in ports && a.tokens <= 0
    ensures StillReady(ring, ports[p := a]) == Without(StillReady(ring, ports), p)
  {
    if ring != [] {
      var rest := StillReady(ring[1..], ports);
      assert ring[0] !in ring[1..];
      if ring[0] == p {
        StillReadyAfter(ring[1..], ports, p, a);
        StillReadyKeeps(ring[1..], ports);
        WithoutNone(rest, p);
        assert ([p] + rest)[1..] == rest && [] + rest == rest;
      } else {
        RunsOut(ring[1..], ports, p, a);
        assert ([ring[0]] + rest)[1..] == rest && [] + rest == rest;
      }
    }
  }

  lemma {:induction false} StillReadyAll(ring: seq<Port>, ports: map<Port, Account>)
    requires forall i :: 0 <= i < |ring| ==> ring[i] in ports && ports[ring[i]].tokens > 0
    ensures StillReady(ring, ports) == ring
  {
    if ring != [] { StillReadyAll(ring[1..], ports); }
  }

  lemma TickStep(m: Multi, now: Multi, todo: set<Port>, p: Port)
    requires Coherent(m) && Ticking(m, now, todo) && p in todo
    ensures Ticking(m, Tick(now, p), todo - {p})
  {
    var a := Tick(now, p).ports[p];
    StillReadyAfter(m.ring, now.ports, p, a);
    StillReadyKeeps(m.ring, now.ports);
    if a.tokens <= 0 {
      RunsOut(m.ring, now.ports, p, a);
      if !now.ports[p].Ready() { WithoutNone(now.ring, p); }
    }
  }

  lemma TickingDone(m: Multi, now: Multi)
    requires Ticking(m, now, {})
    ensures now == NotifyAll(m)
  {
    assert now.ports == NotifyAll(m).ports;
  }

  lemma TickingStart(m: Multi)
    requires Coherent(m)
    ensures Ticking(m, m, m.ports.Keys)
  {
    forall i | 0 <= i < |m.ring| ensures m.ring[i] in m.ports && m.ports[m.ring[i]].tokens > 0 {
      RingReady(m, i);
    }
    StillReadyAll(m.ring, m.ports);
  }

  lemma NotifyAllKeeps(m: Multi)
    requires Coherent(m)
    ensures Coherent(NotifyAll(m))
  {
    StillReadyKeeps(m.ring, NotifyAll(m).ports);
  }

  lemma NotifyKeeps(m: Multi)
    requires Coherent(m)
    ensures Coherent(Notify(m))
    ensures Next(m) == ILLEGAL_PORT <==> Mask(m) == 0
  {
    if m.ring != [] {
      var p := m.ring[0];
      assert p in m.ring && p !in m.ring[1..];
      forall q ensures q in Notify(m).ring <==> q in Notify(m).ports && Notify(m).ports[q].Ready() {
        assert q in m.ring <==> q == p || q in m.ring[1..];
      }
    }
  }

  // ---------------------------------------------------------------- runs and the books

  datatype Op =
    | SetMask(port: Port, reading: bool)
    | Close(port: Port)
    | CloseAll
    | One
    | All
    | GiveBack(port: Port, count: nat)

  /** What the handler asserts of its callers. */
  predicate Legal(m: Multi, op: Op)
  {
    match op
    case SetMask(p, _) => p != ILLEGAL_PORT
    case GiveBack(p, _) => p in m.ports
    case _ => true
  }

  function Exec(m: Multi, op: Op): Multi
    requires Legal(m, op)
  {
    match op
    case SetMask(p, reading) => SetReading(m, p, reading)
    case Close(p) => Remove(m, p)
    case CloseAll => EMPTY
    case One => Notify(m)
    case All => NotifyAll(m)
    case GiveBack(p, count) => Return(m, p, count)
  }

  /** Messages posted to a port and tokens it gave back, since it registered. */
  datatype Book = Book(sent: nat, returned: nat)

  type Books = map<Port, Book>

  function Record(books: Books, m: Multi, op: Op): Books
  {
    match op
    case SetMask(p, _) => if p in m.ports then books else books[p := Book(0, 0)]
    case Close(p) => books - {p}
    case CloseAll => map[]
    case One => if Next(m) in books then Sent(books, Next(m)) else books
    case All => map p | p in books :: Book(books[p].sent + 1, books[p].returned)
    case GiveBack(p, count) =>
      if p in books then books[p := Book(books[p].sent, books[p].returned + count)] else books
  }

  function Sent(books: Books, p: Port): Books
    requires p in books
  {
    books[p := Book(books[p].sent + 1, books[p].returned)]
  }

  ghost predicate Balanced(m: Multi, books: Books)
  {
    && m.ports.Keys == books.Keys
    && forall p :: p in books ==> m.ports[p].tokens + books[p].sent - books[p].returned == INITIAL
  }

  lemma ExecKeeps(m: Multi, op: Op)
    requires Coherent(m) && Legal(m, op)
    ensures Coherent(Exec(m, op))
  {
    match op
    case SetMask(p, reading) => UpdateKeeps(m, p, SetReading(m, p, reading).ports[p]);
    case Close(p) => RemoveKeeps(m, p);
    case CloseAll =>
    case One => NotifyKeeps(m);
    case All => NotifyAllKeeps(m);
    case GiveBack(p, count) => UpdateKeeps(m, p, Return(m, p, count).ports[p]);
  }

  lemma ExecBalances(m: Multi, books: Books, op: Op)
    requires Coherent(m) && Legal(m, op) && Balanced(m, books)
    ensures Balanced(Exec(m, op), Record(books, m, op))
  {
    if op.One? && m.ring != [] { assert m.ring[0] in m.ring; }
  }

  /** A run: the state and the books after each operation in turn. */
  ghost predicate IsRun(ops: seq<Op>, states: seq<(Multi, Books)>)
  {
    && |states| == |ops| + 1 && states[0] == (EMPTY, map[])
    && forall i :: 0 <= i < |ops| ==>
         Legal(states[i].0, ops[i]) && Stepped(states[i], ops[i], states[i + 1])
  }

  ghost predicate Stepped(a: (Multi, Books), op: Op, b: (Multi, Books))
  {
    Legal(a.0, op) && b == (Exec(a.0, op), Record(a.1, a.0, op))
  }

  /** Over every run the ring is exactly the ready ports, and each registered
      port's tokens plus what it was sent minus what it returned stay at the
      initial amount. */
  lemma {:induction false} RunsConserve(ops: seq<Op>, states: seq<(Multi, Books)>, i: nat)
    requires IsRun(ops, states) && i <= |ops|
    ensures Coherent(states[i].0) && Balanced(states[i].0, states[i].1)
    decreases i
  {
    if i > 0 {
      RunsConserve(ops, states, i - 1);
      assert Stepped(states[i - 1], ops[i - 1], states[i]);
      ExecKeeps(states[i - 1].0, ops[i - 1]);
      ExecBalances(states[i - 1].0, states[i - 1].1, ops[i - 1]);
    }
  }

  /** The upper bound that TokenCounter::Return asserts holds on a run exactly
      when the port has not returned more than it was sent. */
  lemma TokenBoundExact(ops: seq<Op>, states: seq<(Multi, Books)>, i: nat)
    requires IsRun(ops, states) && i < |ops| && ops[i].GiveBack?
    ensures var p := ops[i].port;
            && p in states[i].1 && p in states[i + 1].0.ports
            && (states[i + 1].0.ports[p].tokens <= INITIAL <==>
                states[i].1[p].returned + ops[i].count <= states[i].1[p].sent)
  {
    RunsConserve(ops, states, i);
    RunsConserve(ops, states, i + 1);
    assert Stepped(states[i], ops[i], states[i + 1]);
  }

  // ---------------------------------------------------------------- what a run makes of each port

  /** Where a port stands: whether it reads, and its messages and returned tokens
      since it registered. */
  datatype Standing = Unknown | Listens(reading: bool, sent: nat, returned: nat)

  /** What an operation means for the port `p`, when it is the turn of `next`. */
  function Then(s: Standing, op: Op, next: Port, p: Port): Standing
  {
    match op
    case SetMask(q, reading) =>
      if q != p then s else if s.Unknown? then Listens(reading, 0, 0) else s.(reading := reading)
    case Close(q) => if q == p then Unknown else s
    case CloseAll => Unknown
    case One => if s.Listens? && next == p then s.(sent := s.sent + 1) else s
    case All => if s.Listens? then s.(sent := s.sent + 1) else s
    case GiveBack(q, count) => if s.Listens? && q == p then s.(returned := s.returned + count) else s
  }

  /** The operations of a run, read in turn for one port. */
  function Read(ops: seq<Op>, nexts: seq<Port>, p: Port): Standing
    requires |ops| == |nexts|
  {
    if ops == [] then Unknown
    else
      var n := |ops| - 1;
      Then(Read(ops[..n], nexts[..n], p), ops[n], nexts[n], p)
  }

  /** The port has an account exactly if it is known, and the account is that of
      its standing. */
  predicate AccountIs(m: Multi, p: Port, s: Standing)
  {
    if p in m.ports then s.Listens? && m.ports[p] == Account(s.reading, INITIAL - s.sent + s.returned) else s.Unknown?
  }

  /** Every operation does to each port what it means for it. */
  lemma ExecExactly(m: Multi, op: Op, p: Port, s: Standing)
    requires Coherent(m) && Legal(m, op) && AccountIs(m, p, s)
    ensures AccountIs(Exec(m, op), p, Then(s, op, Next(m), p))
  {
    if op.One? && m.ring != [] { assert m.ring[0] in m.ring; }
  }

  lemma SetsReading(m: Multi, p: Port, reading: bool)
    requires Coherent(m) && p != ILLEGAL_PORT
    ensures var n := SetReading(m, p, reading);
            && n.ports == m.ports[p := Account(reading, if p in m.ports then m.ports[p].tokens else INITIAL)]
            && (!reading ==> p !in n.ring)
  {
    UpdateKeeps(m, p, Account(reading, if p in m.ports then m.ports[p].tokens else INITIAL));
  }

  /** The ports whose turn it was at each point of a run. */
  ghost function NextsOf(states: seq<(Multi, Books)>, i: nat): (nexts: seq<Port>)
    requires i <= |states|
    ensures |nexts| == i
  {
    seq(i, k requires 0 <= k < i => Next(states[k].0))
  }

  /** Over every run, each port is registered, reads and has tokens exactly as the
      operations, read in turn, say: it reads if its last set-mask asked for it. */
  lemma {:induction false} RunsExactly(ops: seq<Op>, states: seq<(Multi, Books)>, i: nat, p: Port)
    requires IsRun(ops, states) && i <= |ops|
    ensures AccountIs(states[i].0, p, Read(ops[..i], NextsOf(states, i), p))
    decreases i
  {
    hide Coherent, Exec, AccountIs, Then;
    if i == 0 {
      NoAccounts(p);
    } else {
      RunsExactly(ops, states, i - 1, p);
      RunsConserve(ops, states, i - 1);
      var before, op := states[i - 1].0, ops[i - 1];
      assert Stepped(states[i - 1], op, states[i]);
      assert ops[..i][..i - 1] == ops[..i - 1] && NextsOf(states, i)[..i - 1] == NextsOf(states, i - 1);
      ExecExactly(before, op, p, Read(ops[..i - 1], NextsOf(states, i - 1), p));
    }
  }

  lemma NoAccounts(p: Port)
    ensures AccountIs(EMPTY, p, Unknown)
  {
  }

  /** A port can be notified after an operation exactly if it then reads and has
      been sent less than it started with and gave back; after a set-mask of 0 it
      never is. */
  lemma ReadyExactly(m: Multi, op: Op, p: Port, s: Standing)
    requires Coherent(m) && Legal(m, op) && AccountIs(m, p, s)
    ensures var t := Then(s, op, Next(m), p);
            p in Exec(m, op).ring <==> t.Listens? && t.reading && t.sent < INITIAL + t.returned
    ensures op == SetMask(p, false) ==> p !in Exec(m, op).ring
  {
    ExecKeeps(m, op);
    ExecExactly(m, op, p, s);
    hide Exec;
  }

  // ---------------------------------------------------------------- fairness

  /** How many stand before `p` in the ring. */
  function Ahead(ring: seq<Port>, p: Port): nat
  {
    if ring == [] || ring[0] == p then 0 else 1 + Ahead(ring[1..], p)
  }

  lemma {:induction false} AheadOfLast(ring: seq<Port>, p: Port, last: seq<Port>)
    requires p in ring
    ensures Ahead(ring + last, p) == Ahead(ring, p) < |ring|
  {
    assert (ring + last)[0] == ring[0];
    if ring[0] != p {
      assert (ring + last)[1..] == ring[1..] + last;
      AheadOfLast(ring[1..], p, last);
    }
  }

  lemma {:induction false} AheadWithout(ring: seq<Port>, p: Port, q: Port)
    requires p in ring && p != q
    ensures Ahead(Without(ring, q), p) <= Ahead(ring, p)
  {
    if ring[0] != p && ring[0] != q { AheadWithout(ring[1..], p, q); }
  }

  lemma {:induction false} AheadStillReady(ring: seq<Port>, ports: map<Port, Account>, p: Port)
    requires p in StillReady(ring, ports)
    ensures Ahead(StillReady(ring, ports), p) <= Ahead(ring, p)
  {
    var rest := StillReady(ring[1..], ports);
    if ring[0] != p {
      AheadStillReady(ring[1..], ports, p);
      assert ([ring[0]] + rest)[1..] == rest && [] + rest == rest;
    } else if !(p in ports && ports[p].tokens > 0) {
      NotStillReady(ring[1..], ports, p);
    }
  }

  lemma {:induction false} NotStillReady(ring: seq<Port>, ports: map<Port, Account>, p: Port)
    requires !(p in ports && ports[p].tokens > 0)
    ensures p !in StillReady(ring, ports)
  {
    if ring != [] { NotStillReady(ring[1..], ports, p); }
  }

  /** While a port stays in the ring nothing gets before it, and each notification
      brings it one place on, until it is its turn. */
  lemma NobodyOvertakes(m: Multi, op: Op, p: Port)
    requires Coherent(m) && Legal(m, op) && p in m.ring && p in Exec(m, op).ring
    ensures !(op.One? && Next(m) == p) ==>
              Ahead(Exec(m, op).ring, p) + (if op.One? then 1 else 0) <= Ahead(m.ring, p)
  {
    AheadOfLast(m.ring, p, []);
    assert m.ring + [] == m.ring;
    match op
    case SetMask(q, _) => UpdateOvertakes(m, q, Exec(m, op).ports[q], p);
    case GiveBack(q, _) => UpdateOvertakes(m, q, Exec(m, op).ports[q], p);
    case Close(q) => WithoutKeeps(m.ring, q); if p != q { AheadWithout(m.ring, p, q); }
    case CloseAll =>
    case All => AheadStillReady(m.ring, NotifyAll(m).ports, p);
    case One =>
      RingReady(m, 0);
      if m.ring[0] != p { AheadOfLast(m.ring[1..], p, Notify(m).ring[|m.ring| - 1..]); }
  }

  lemma UpdateOvertakes(m: Multi, q: Port, a: Account, p: Port)
    requires Coherent(m) && p in m.ring && p in Update(m, q, a).ring
    ensures Ahead(Update(m, q, a).ring, p) <= Ahead(m.ring, p)
  {
    AheadOfLast(m.ring, p, [q]);
    if p != q { AheadWithout(m.ring, p, q); } else { WithoutKeeps(m.ring, q); }
  }

  function Ones(ops: seq<Op>): nat { if ops == [] then 0 else (if ops[0].One? then 1 else 0) + Ones(ops[1..]) }

  ghost predicate StaysReady(states: seq<(Multi, Books)>, a: nat, b: nat, p: Port)
    requires b < |states|
  {
    forall k :: a <= k <= b ==> p in states[k].0.ring
  }

  /** In every run, whatever else happens meanwhile, a port that stays ready is
      notified by the time there have been more notifications than there were
      ports before it. */
  lemma {:induction false} NobodyStarves(ops: seq<Op>, states: seq<(Multi, Books)>, a: nat, b: nat, p: Port)
    requires IsRun(ops, states) && a <= b <= |ops| && StaysReady(states, a, b, p)
    requires Ones(ops[a..b]) > Ahead(states[a].0.ring, p)
    ensures exists k :: a <= k < b && ops[k].One? && Next(states[k].0) == p
    decreases b - a
  {
    hide Coherent, Exec, Ahead, Next;
    if a < b && !(ops[a].One? && Next(states[a].0) == p) {
      RunsConserve(ops, states, a);
      assert Stepped(states[a], ops[a], states[a + 1]);
      assert ops[a..b][1..] == ops[a + 1..b];
      NobodyOvertakes(states[a].0, ops[a], p);
      NobodyStarves(ops, states, a + 1, b, p);
    }
  }

  /** The state after `k` notifications with nothing else happening. */
  function After(m: Multi, k: nat): Multi { if k == 0 then m else Notify(After(m, k - 1)) }

  /** The ports notified by the first `k` notifications. */
  function Served(m: Multi, k: nat): (s: seq<Port>)
    ensures |s| == k
  {
    if k == 0 then [] else Served(m, k - 1) + [Next(After(m, k - 1))]
  }

  lemma {:induction false} AfterCoherent(m: Multi, k: nat)
    requires Coherent(m)
    ensures Coherent(After(m, k))
  {
    if k > 0 { AfterCoherent(m, k - 1); NotifyKeeps(After(m, k - 1)); }
  }

  /** With `n` ready readers, `n` notifications in a row serve each once, in
      ring order. */
  lemma {:induction false} RoundServesAll(m: Multi, k: nat)
    requires Coherent(m) && k <= |m.ring|
    ensures Served(m, k) == m.ring[..k]
    ensures m.ring[k..] <= After(m, k).ring
    decreases k
  {
    hide Coherent, Notify, Next;
    if k > 0 {
      RoundServesAll(m, k - 1);
      AfterCoherent(m, k - 1);
      var a, rest := After(m, k - 1), m.ring[k - 1..];
      assert a.ring[..|rest|] == rest && rest[0] == m.ring[k - 1];
      NotifyTurns(a);
      assert a.ring[1..][..|rest| - 1] == rest[1..] == m.ring[k..];
    }
  }

  lemma NotifyTurns(m: Multi)
    requires Coherent(m) && m.ring != []
    ensures Next(m) == m.ring[0] && m.ring[1..] <= Notify(m).ring
  {
    RingReady(m, 0);
  }

  function Total(ring: seq<Port>, ports: map<Port, Account>): int
  {
    if ring == [] then 0
    else (if ring[0] in ports then ports[ring[0]].tokens else 0) + Total(ring[1..], ports)
  }

  lemma {:induction false} TotalAppend(a: seq<Port>, b: seq<Port>, ports: map<Port, Account>)
    ensures Total(a + b, ports) == Total(a, ports) + Total(b, ports)
  {
    if a == [] {
      assert a + b == b;
    } else {
      assert (a + b)[1..] == a[1..] + b;
      TotalAppend(a[1..], b, ports);
    }
  }

  lemma {:induction false} TotalElsewhere(ring: seq<Port>, ports: map<Port, Account>, p: Port, a: Account)
    requires p !in ring
    ensures Total(ring, ports[p := a]) == Total(ring, ports)
  {
    if ring != [] { TotalElsewhere(ring[1..], ports, p, a); }
  }

  lemma {:induction false} TotalAtLeast(ring: seq<Port>, ports: map<Port, Account>)
    requires forall i :: 0 <= i < |ring| ==> ring[i] in ports && ports[ring[i]].tokens > 0
    ensures Total(ring, ports) >= |ring|
  {
    if ring != [] {
      TotalAtLeast(ring[1..], ports);
    }
  }

  lemma NotifySpendsOne(m: Multi)
    requires Coherent(m) && m.ring != []
    ensures Total(Notify(m).ring, Notify(m).ports) == Total(m.ring, m.ports) - 1
  {
    var p := m.ring[0];
    assert p in m.ring && p !in m.ring[1..];
    var a := m.ports[p].(tokens := m.ports[p].tokens - 1);
    TotalElsewhere(m.ring[1..], m.ports, p, a);
    TotalAppend(m.ring[1..], if a.tokens <= 0 then [] else [p], m.ports[p := a]);
    assert [p][1..] == [];
    assert Total([p], m.ports[p := a]) == a.tokens;
  }

  /** Exactly as many notifications as there are tokens among the ready readers
      are delivered before the mask becomes 0. */
  lemma {:induction false} AllTokensSpent(m: Multi, k: nat)
    requires Coherent(m)
    ensures Mask(After(m, k)) != 0 <==> k < Total(m.ring, m.ports)
    ensures k <= Total(m.ring, m.ports) ==> Total(After(m, k).ring, After(m, k).ports) == Total(m.ring, m.ports) - k
    decreases k
  {
    var a := After(m, k);
    AfterCoherent(m, k);
    if k > 0 {
      AllTokensSpent(m, k - 1);
      AfterCoherent(m, k - 1);
      if After(m, k - 1).ring != [] { NotifySpendsOne(After(m, k - 1)); }
    }
    forall i | 0 <= i < |a.ring| ensures a.ring[i] in a.ports && a.ports[a.ring[i]].tokens > 0 {
      RingReady(a, i);
    }
    TotalAtLeast(a.ring, a.ports);
  }

  /** A round in progress: of the readers `all`, the first `r` have been served
      once more than the others, which have `hi` tokens left. */
  ghost predicate InRound(all: seq<Port>, m: Multi, hi: nat, r: nat)
  {
    && Distinct(all) && r < |all| && (hi == 0 ==> r == 0)
    && TokensInRound(all, m.ports, hi, r) && m.ring == RingInRound(all, hi, r)
  }

  ghost predicate TokensInRound(all: seq<Port>, ports: map<Port, Account>, hi: nat, r: nat)
  {
    forall i :: 0 <= i < |all| ==> all[i] in ports && ports[all[i]].tokens == if i < r then hi - 1 else hi
  }

  ghost function RingInRound(all: seq<Port>, hi: nat, r: nat): seq<Port>
    requires r < |all|
  {
    if hi == 0 then [] else all[r..] + if hi > 1 then all[..r] else []
  }

  /** The reader whose turn it is heads the ring; served, it leaves the ring or
      goes to its end. */
  lemma RingTurns(all: seq<Port>, hi: nat, r: nat)
    requires r < |all| && hi > 0
    ensures var ring := RingInRound(all, hi, r);
            && ring != [] && ring[0] == all[r]
            && ring[1..] + (if hi > 1 then [all[r]] else []) ==
               if r + 1 < |all| then RingInRound(all, hi, r + 1) else RingInRound(all, hi - 1, 0)
  {
    var served := if hi > 1 then all[..r] else [];
    Turned(all[r], all[r + 1..], served, if hi > 1 then [all[r]] else []);
    assert all[r..] == [all[r]] + all[r + 1..];
    if r + 1 < |all| {
      assert all[..r + 1] == all[..r] + [all[r]];
    } else {
      assert all[r + 1..] == [] && all[..r] + [all[r]] == all && all[0..] == all && all[..0] == [];
    }
  }

  lemma Turned(p: Port, waiting: seq<Port>, served: seq<Port>, again: seq<Port>)
    ensures ([p] + waiting + served)[1..] + again == waiting + (served + again)
  {
  }

  lemma TokensTurn(all: seq<Port>, ports: map<Port, Account>, hi: nat, r: nat, a: Account)
    requires Distinct(all) && r < |all| && hi > 0 && TokensInRound(all, ports, hi, r) && a.tokens == hi - 1
    ensures if r + 1 < |all| then TokensInRound(all, ports[all[r] := a], hi, r + 1)
            else TokensInRound(all, ports[all[r] := a], hi - 1, 0)
  {
  }

  lemma RoundStep(all: seq<Port>, m: Multi, hi: nat, r: nat) returns (hi': nat, r': nat)
    requires InRound(all, m, hi, r) && hi > 0
    ensures InRound(all, Notify(m), hi', r')
    ensures Next(m) == all[r]
    ensures forall p :: p in m.ports && p != all[r] ==> Notify(m).ports[p] == m.ports[p]
  {
    hide RingInRound, Distinct;
    var p := all[r];
    assert p in m.ports && m.ports[p].tokens == hi;
    hide TokensInRound;
    RingTurns(all, hi, r);
    TokensTurn(all, m.ports, hi, r, m.ports[p].(tokens := hi - 1));
    if r + 1 < |all| {
      hi', r' := hi, r + 1;
    } else {
      hi', r' := hi - 1, 0;
    }
  }

  function Count(s: seq<Port>, p: Port): nat
  {
    if s == [] then 0 else Count(s[..|s| - 1], p) + if s[|s| - 1] == p then 1 else 0
  }

  /** A port's notifications are the tokens it has spent. */
  lemma {:induction false} ServedIsSpent(m: Multi, k: nat, p: Port)
    requires Coherent(m) && p in m.ports
    ensures p in After(m, k).ports && Count(Served(m, k), p) == m.ports[p].tokens - After(m, k).ports[p].tokens
    decreases k
  {
    hide Coherent, Notify, Next;
    if k > 0 {
      ServedIsSpent(m, k - 1, p);
      AfterCoherent(m, k - 1);
      NotifyCharges(After(m, k - 1), p);
      assert Served(m, k)[..k - 1] == Served(m, k - 1);
      assert Served(m, k)[k - 1] == Next(After(m, k - 1));
    }
  }

  lemma NotifyCharges(m: Multi, p: Port)
    requires Coherent(m) && p in m.ports
    ensures p in Notify(m).ports
    ensures Notify(m).ports[p].tokens == m.ports[p].tokens - if Next(m) == p then 1 else 0
  {
    if m.ring != [] { RingReady(m, 0); }
  }

  lemma {:induction false} EqualTokensRound(m: Multi, t: nat, k: nat) returns (hi: nat, r: nat)
    requires Coherent(m) && m.ring != []
    requires forall p :: p in m.ring ==> m.ports[p].tokens == t
    requires k <= Total(m.ring, m.ports)
    ensures InRound(m.ring, After(m, k), hi, r)
    decreases k
  {
    hide Notify, Total;
    if k == 0 {
      hi, r := t, 0;
      RoundStarts(m, t);
    } else {
      hi, r := EqualTokensRound(m, t, k - 1);
      AllTokensSpent(m, k - 1);
      assert After(m, k - 1).ring != [];
      hi, r := RoundStep(m.ring, After(m, k - 1), hi, r);
    }
  }

  lemma RoundStarts(m: Multi, t: nat)
    requires Coherent(m) && m.ring != []
    requires forall p :: p in m.ring ==> m.ports[p].tokens == t
    ensures InRound(m.ring, m, t, 0)
  {
    forall i | 0 <= i < |m.ring| ensures m.ring[i] in m.ports && m.ports[m.ring[i]].tokens == t {
      assert m.ring[i] in m.ring;
    }
    RingReady(m, 0);
    assert m.ring[0..] == m.ring && m.ring[..0] == [];
  }

  /** Round robin is fair at every prefix: from equal tokens, no reader has been
      notified more than once oftener than another. */
  lemma FairAtEveryPrefix(m: Multi, t: nat, k: nat, p: Port, q: Port)
    requires Coherent(m) && p in m.ring && q in m.ring
    requires forall x :: x in m.ring ==> m.ports[x].tokens == t
    requires k <= Total(m.ring, m.ports)
    ensures -1 <= Count(Served(m, k), p) - Count(Served(m, k), q) <= 1
  {
    var hi, r := EqualTokensRound(m, t, k);
    ServedIsSpent(m, k, p);
    ServedIsSpent(m, k, q);
    var i :| 0 <= i < |m.ring| && m.ring[i] == p;
    var j :| 0 <= j < |m.ring| && m.ring[j] == q;
  }
}
