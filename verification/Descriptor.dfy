/** DescriptorInfoMultipleMixin: the port entries on the heap, the map from
    ports to them and the ring of those that are ready. Every operation is
    proved to do what `Scheduler` says. */
module Descriptor {
  import opened Ring
  import opened Scheduler

  /** TokenCounter<4> and the reading flag of one listener. */
  class PortEntry {
    const port: Port
    var isReading: bool
    var tokens: int

    constructor (port: Port, isReading: bool)
      ensures this.port == port && this.isReading == isReading && tokens == INITIAL
    {
      this.port, this.isReading, tokens := port, isReading, INITIAL;
    }

    function Account(): Account
      reads this
    {
      Scheduler.Account(isReading, tokens)
    }

    predicate IsReady()
      reads this
    {
      tokens > 0 && isReading
    }
  }

  function Ports(es: seq<PortEntry>): (s: seq<Port>)
    ensures |s| == |es|
  {
    seq(|es|, i requires 0 <= i < |es| => es[i].port)
  }

  function Accounts(m: map<Port, PortEntry>): (a: map<Port, Account>)
    reads m.Values
    ensures a.Keys == m.Keys
  {
    map p | p in m :: m[p].Account()
  }

  /** Keys and entries name each other, and the ring holds entries of the map. */
  ghost predicate Named(m: map<Port, PortEntry>, ring: seq<PortEntry>)
  {
    && (forall p :: p in m ==> m[p].port == p)
    && (forall i :: 0 <= i < |ring| ==> ring[i].port in m && m[ring[i].port] == ring[i])
  }

  lemma {:induction false} PortsWithout(es: seq<PortEntry>, e: PortEntry)
    requires forall i :: 0 <= i < |es| ==> (es[i].port == e.port <==> es[i] == e)
    ensures Ports(Without(es, e)) == Without(Ports(es), e.port)
  {
    if es != [] {
      PortsWithout(es[1..], e);
      assert Ports(es)[1..] == Ports(es[1..]);
      assert Ports([es[0]] + Without(es[1..], e)) == [es[0].port] + Ports(Without(es[1..], e));
    }
  }

  lemma {:induction false} WithoutSubset<T>(s: seq<T>, x: T)
    ensures forall i :: 0 <= i < |Without(s, x)| ==> Without(s, x)[i] in s
  {
    if s != [] { WithoutSubset(s[1..], x); }
  }

  /** The accounts after only one entry changed. */
  lemma Charged(m: map<Port, PortEntry>, was: map<Port, Account>, e: PortEntry)
    requires e.port in m && m[e.port] == e && was.Keys == m.Keys
    requires forall p :: p in m && p != e.port ==> m[p].Account() == was[p]
    ensures Accounts(m) == was[e.port := e.Account()]
  {
  }

  ghost predicate NoneDeleted(m: map<Port, PortEntry>, deleted: set<PortEntry>)
  {
    forall p :: p in m ==> m[p] !in deleted
  }

  class DescriptorInfoMultiple {
    const activeReaders: CircularLinkedList<PortEntry>
    var tokensMap: map<Port, PortEntry>
    ghost var deleted: set<PortEntry>

    ghost predicate Valid()
      reads this, activeReaders, activeReaders.nodes, tokensMap.Values
    {
      && activeReaders.Valid() && Named(tokensMap, activeReaders.Contents())
      && Coherent(View()) && NoneDeleted(tokensMap, deleted)
    }

    ghost function View(): Multi
      reads this, activeReaders, tokensMap.Values
    {
      Multi(Accounts(tokensMap), Ports(activeReaders.Contents()))
    }

    constructor ()
      ensures Valid() && View() == EMPTY && fresh(activeReaders)
    {
      activeReaders := new CircularLinkedList<PortEntry>();
      tokensMap, deleted := map[], {};
    }

    method Mask() returns (mask: int)
      requires Valid()
      ensures mask == Scheduler.Mask(View())
    {
      var has := activeReaders.HasHead();
      mask := if has then 1 else 0;
    }

    /** The ring has become that of `m`, whose accounts the entries have. */
    lemma Follows(m: Multi)
      requires activeReaders.Valid() && Coherent(m) && NoneDeleted(tokensMap, deleted)
      requires Named(tokensMap, activeReaders.Contents())
      requires Accounts(tokensMap) == m.ports && Ports(activeReaders.Contents()) == m.ring
      ensures Valid() && View() == m
    {
    }

    lemma EntryOf(p: Port)
      requires p in tokensMap
      ensures p in View().ports && View().ports[p] == tokensMap[p].Account()
    {
    }

    /** Changes one entry of the map. */
    method Charge(e: PortEntry, isReading: bool, tokens: int)
      requires e.port in tokensMap && tokensMap[e.port] == e && forall p :: p in tokensMap ==> tokensMap[p].port == p
      modifies e
      ensures e.isReading == isReading && e.tokens == tokens
      ensures Accounts(tokensMap) == old(Accounts(tokensMap))[e.port := Account(isReading, tokens)]
    {
      ghost var was := Accounts(tokensMap);
      e.isReading, e.tokens := isReading, tokens;
      Charged(tokensMap, was, e);
    }

    /** NextNotifyDartPort. */
    method NextNotifyDartPort() returns (port: Port)
      requires Valid()
      modifies activeReaders, activeReaders.nodes, tokensMap.Values
      ensures Valid() && View() == Notify(old(View())) && port == Next(old(View()))
    {
      hide Coherent, Accounts, Named, NoneDeleted, CircularLinkedList.Valid, CircularLinkedList.Contents;
      ghost var ring, m := activeReaders.Contents(), View();
      NotifyKeeps(m);
      var has := activeReaders.HasHead();
      if !has {
        return ILLEGAL_PORT;
      }
      var e := activeReaders.Head();
      RingNamed(tokensMap, ring);
      PortsTurn(ring);
      EntryOf(e.port);
      ghost var m' := Notify(m);
      assert m'.ports == Accounts(tokensMap)[e.port := Account(e.isReading, e.tokens - 1)];
      assert m'.ring == Ports(ring[1..] + if e.tokens - 1 <= 0 then [] else [e]);
      hide Ports, Notify;
      ServeHead(e);
      Follows(m');
      return e.port;
    }

    /** The head is charged and leaves the ring or goes to its end. */
    method ServeHead(e: PortEntry)
      requires activeReaders.Valid() && activeReaders.Contents() != [] && activeReaders.Contents()[0] == e
      requires e.port in tokensMap && tokensMap[e.port] == e && forall p :: p in tokensMap ==> tokensMap[p].port == p
      modifies activeReaders, activeReaders.nodes, e
      ensures activeReaders.Valid()
      ensures Accounts(tokensMap) == old(Accounts(tokensMap))[e.port := old(Account(e.isReading, e.tokens - 1))]
      ensures var ring := old(activeReaders.Contents());
              activeReaders.Contents() == ring[1..] + if old(e.tokens) - 1 <= 0 then [] else [ring[0]]
    {
      hide Accounts, CircularLinkedList.Valid, CircularLinkedList.Contents;
      Charge(e, e.isReading, e.tokens - 1);
      if e.tokens <= 0 {
        activeReaders.RemoveHead();
      } else {
        activeReaders.Rotate();
      }
    }

    /** Takes an entry out of the ring. */
    method Unready(e: PortEntry)
      requires activeReaders.Valid() && Named(tokensMap, activeReaders.Contents())
      requires e.port in tokensMap && tokensMap[e.port] == e
      modifies activeReaders, activeReaders.nodes
      ensures activeReaders.Valid() && Named(tokensMap, activeReaders.Contents())
      ensures Ports(activeReaders.Contents()) == Without(old(Ports(activeReaders.Contents())), e.port)
      ensures forall i :: 0 <= i < |activeReaders.nodes| ==> activeReaders.nodes[i] in old(activeReaders.nodes)
    {
      hide CircularLinkedList.Valid, CircularLinkedList.Contents;
      ghost var ring := activeReaders.Contents();
      PortsWithout(ring, e);
      WithoutSubset(ring, e);
      activeReaders.Remove(e);
    }

    /** Puts an entry at the end of the ring. */
    method MakeReady(e: PortEntry)
      requires activeReaders.Valid() && Named(tokensMap, activeReaders.Contents())
      requires e.port in tokensMap && tokensMap[e.port] == e
      modifies activeReaders, activeReaders.nodes
      ensures activeReaders.Valid() && Named(tokensMap, activeReaders.Contents())
      ensures Ports(activeReaders.Contents()) == old(Ports(activeReaders.Contents())) + [e.port]
      ensures Accounts(tokensMap) == old(Accounts(tokensMap))
      ensures fresh(set n | n in activeReaders.nodes && n !in old(activeReaders.nodes))
    {
      hide Accounts, CircularLinkedList.Valid, CircularLinkedList.Contents;
      ghost var ring := activeReaders.Contents();
      var first := activeReaders.Add(e);
      assert Ports(ring + [e]) == Ports(ring) + [e.port];
    }

    /** Changes an entry and lets the ring follow its readiness. */
    method Put(e: PortEntry, isReading: bool, tokens: int)
      requires Valid() && e.port in tokensMap && tokensMap[e.port] == e
      modifies activeReaders, activeReaders.nodes, tokensMap.Values
      ensures Valid() && View() == Update(old(View()), e.port, Account(isReading, tokens))
      ensures fresh(set n | n in activeReaders.nodes && n !in old(activeReaders.nodes))
    {
      hide Coherent, Accounts, CircularLinkedList.Valid, CircularLinkedList.Contents;
      ghost var m := View();
      PortsNonZero(m, e.port);
      UpdateKeeps(m, e.port, Account(isReading, tokens));
      EntryOf(e.port);
      var wasReady := e.IsReady();
      Charge(e, isReading, tokens);
      hide NoneDeleted, Named, Ports;
      Settle(e, wasReady, e.IsReady());
      Follows(Update(m, e.port, Account(isReading, tokens)));
    }

    /** The ring follows an entry's readiness. */
    method Settle(e: PortEntry, wasReady: bool, isReady: bool)
      requires activeReaders.Valid() && Named(tokensMap, activeReaders.Contents())
      requires e.port in tokensMap && tokensMap[e.port] == e
      modifies activeReaders, activeReaders.nodes
      ensures activeReaders.Valid() && Named(tokensMap, activeReaders.Contents())
      ensures var ring := old(Ports(activeReaders.Contents()));
              Ports(activeReaders.Contents()) ==
                if wasReady && !isReady then Without(ring, e.port)
                else if !wasReady && isReady then ring + [e.port]
                else ring
      ensures fresh(set n | n in activeReaders.nodes && n !in old(activeReaders.nodes))
    {
      hide Named, Ports, CircularLinkedList.Valid, CircularLinkedList.Contents;
      if wasReady && !isReady {
        Unready(e);
      } else if !wasReady && isReady {
        MakeReady(e);
      }
    }

    /** A new entry for a port that is not registered. */
    method Register(port: Port, isReading: bool)
      requires Valid() && port != ILLEGAL_PORT && port !in tokensMap
      modifies this`tokensMap, activeReaders, activeReaders.nodes
      ensures Valid() && View() == SetReading(old(View()), port, isReading)
    {
      hide Coherent, Accounts, Named, Update, CircularLinkedList.Valid, CircularLinkedList.Contents;
      var e := new PortEntry(port, isReading);
      ghost var m := View();
      UpdateKeeps(m, port, e.Account());
      Listed(tokensMap, activeReaders.Contents(), e);
      tokensMap := tokensMap[port := e];
      if e.IsReady() {
        MakeReady(e);
      }
      ghost var m' := SetReading(m, port, isReading);
      NewPort(m, port, e.Account());
      hide Ports;
      Follows(m');
    }

    /** SetPortAndMask with mask 0 or 1 << kInEvent. */
    method SetPortAndMask(port: Port, mask: int)
      requires Valid() && port != ILLEGAL_PORT && (mask == 0 || mask == 1)
      modifies this`tokensMap, activeReaders, activeReaders.nodes, tokensMap.Values
      ensures Valid() && View() == SetReading(old(View()), port, mask == 1)
      ensures var was := old(View()).ports;
              View().ports == was[port := Account(mask == 1, if port in was then was[port].tokens else INITIAL)]
      ensures mask == 0 ==> port !in View().ring
    {
      SetsReading(View(), port, mask == 1);
      hide Coherent, Update, CircularLinkedList.Valid, CircularLinkedList.Contents;
      if port in tokensMap {
        EntryOf(port);
        Put(tokensMap[port], mask == 1, tokensMap[port].tokens);
      } else {
        Register(port, mask == 1);
      }
    }

    /** Takes an entry that is not in the ring out of the map and deletes it. */
    method Forget(port: Port)
      requires Named(tokensMap, activeReaders.Contents()) && NoneDeleted(tokensMap, deleted)
      requires port in tokensMap && port !in Ports(activeReaders.Contents())
      modifies this
      ensures Named(tokensMap, activeReaders.Contents()) && NoneDeleted(tokensMap, deleted)
      ensures tokensMap == old(tokensMap) - {port}
      ensures Accounts(tokensMap) == old(Accounts(tokensMap)) - {port}
      ensures deleted == old(deleted) + {old(tokensMap)[port]}
    {
      hide Named, NoneDeleted, Accounts;
      Unlisted(tokensMap, activeReaders.Contents(), port, deleted);
      deleted := deleted + {tokensMap[port]};
      tokensMap := tokensMap - {port};
    }

    method RemovePort(port: Port)
      requires Valid()
      modifies this, activeReaders, activeReaders.nodes
      ensures Valid() && View() == Remove(old(View()), port) && tokensMap == old(tokensMap) - {port}
      ensures deleted == old(deleted) + (if port in old(tokensMap) then {old(tokensMap)[port]} else {})
    {
      hide Coherent, Accounts, Named, NoneDeleted, Ports, Without;
      hide CircularLinkedList.Valid, CircularLinkedList.Contents;
      if port in tokensMap {
        var e := tokensMap[port];
        ghost var m := View();
        Entries(tokensMap, activeReaders.Contents(), port);
        EntryOf(port);
        RemoveKeeps(m, port);
        RingLeaves(m, port);
        if e.IsReady() {
          Unready(e);
        }
        assert Ports(activeReaders.Contents()) == Remove(m, port).ring;
        Forget(port);
        Follows(Remove(m, port));
      }
    }

    /** ReturnTokens, for a port that is registered. */
    method ReturnTokens(port: Port, count: nat)
      requires Valid() && port in tokensMap
      modifies activeReaders, activeReaders.nodes, tokensMap.Values
      ensures Valid() && View() == Return(old(View()), port, count)
    {
      var e := tokensMap[port];
      EntryOf(port);
      hide Coherent, CircularLinkedList.Valid, CircularLinkedList.Contents, Update;
      Put(e, e.isReading, e.tokens + count);
    }

    /** NotifyAllDartPorts: every port is posted to once and loses a token. */
    method NotifyAllDartPorts() returns (posted: seq<Port>)
      requires Valid()
      modifies activeReaders, activeReaders.nodes, tokensMap.Values
      ensures Valid() && View() == NotifyAll(old(View()))
      ensures Distinct(posted) && forall p :: p in posted <==> p in tokensMap
    {
      hide Coherent, Accounts, Ticking, NoneDeleted, CircularLinkedList.Valid, CircularLinkedList.Contents;
      ghost var m := View();
      NotifyAllKeeps(m);
      TickingStart(m);
      posted := [];
      var todo := tokensMap.Keys;
      while todo != {}
        invariant todo <= tokensMap.Keys && Ticking(m, View(), todo)
        invariant Distinct(posted) && forall p :: p in posted <==> p in tokensMap && p !in todo
        invariant activeReaders.Valid() && Named(tokensMap, activeReaders.Contents())
        invariant forall i :: 0 <= i < |activeReaders.nodes| ==> activeReaders.nodes[i] in old(activeReaders.nodes)
        decreases todo
      {
        var p :| p in todo;
        var e := tokensMap[p];
        posted := posted + [p];
        TickStep(m, View(), todo, p);
        TickEntry(e);
        todo := todo - {p};
      }
      TickingDone(m, View());
      Follows(NotifyAll(m));
    }

    method TickEntry(e: PortEntry)
      requires activeReaders.Valid() && Named(tokensMap, activeReaders.Contents())
      requires e.port in tokensMap && tokensMap[e.port] == e
      modifies activeReaders, activeReaders.nodes, e
      ensures activeReaders.Valid() && Named(tokensMap, activeReaders.Contents())
      ensures View() == Tick(old(View()), e.port)
      ensures forall i :: 0 <= i < |activeReaders.nodes| ==> activeReaders.nodes[i] in old(activeReaders.nodes)
    {
      hide Accounts, CircularLinkedList.Valid, CircularLinkedList.Contents;
      EntryOf(e.port);
      var wasReady := e.IsReady();
      Charge(e, e.isReading, e.tokens - 1);
      if wasReady && e.tokens <= 0 {
        Unready(e);
      }
    }

    /** RemoveAllPorts: every entry is deleted once, and the final sweep of the
        ring, which would delete what it finds, finds nothing. */
    method RemoveAllPorts()
      requires Valid()
      modifies this, activeReaders, activeReaders.nodes
      ensures Valid() && View() == EMPTY
      ensures forall e :: e in deleted <==>
                e in old(deleted) || (e.port in old(tokensMap) && old(tokensMap)[e.port] == e)
    {
      hide Coherent, Accounts, CircularLinkedList.Valid, CircularLinkedList.Contents;
      var todo := tokensMap.Keys;
      CoherentDistinct(View());
      while todo != {}
        invariant todo <= tokensMap.Keys && tokensMap == old(tokensMap)
        invariant activeReaders.Valid() && Named(tokensMap, activeReaders.Contents())
        invariant Distinct(Ports(activeReaders.Contents()))
        invariant forall p :: p in Ports(activeReaders.Contents()) ==> p in todo
        invariant forall i :: 0 <= i < |activeReaders.nodes| ==> activeReaders.nodes[i] in old(activeReaders.nodes)
        invariant forall p :: p in todo ==> tokensMap[p] !in deleted
        invariant forall e :: e in deleted <==>
                    e in old(deleted) || (e.port in tokensMap && e.port !in todo && tokensMap[e.port] == e)
        decreases todo
      {
        var p :| p in todo;
        var e := tokensMap[p];
        WithoutKeeps(Ports(activeReaders.Contents()), p);
        Unready(e);
        assert e !in deleted;
        deleted := deleted + {e};
        todo := todo - {p};
      }
      NothingIn(Ports(activeReaders.Contents()));
      tokensMap := map[];
      Sweep();
      EmptyCoherent();
      Follows(EMPTY);
    }

    /** active_readers_.RemoveAll(DeletePortEntry). */
    method Sweep()
      requires activeReaders.Valid() && activeReaders.Contents() == []
      modifies activeReaders, activeReaders.nodes
      ensures activeReaders.Valid() && activeReaders.Contents() == []
    {
      activeReaders.RemoveAll();
    }

    /** The debug walk of SetPortAndMask: every reader in the ring is ready, and
        the ring is restored. */
    method WalkRing() returns (count: nat)
      requires Valid()
      modifies activeReaders
      ensures Valid() && View() == old(View()) && count == |View().ring|
    {
      hide Coherent, Accounts, NoneDeleted, CircularLinkedList.Valid;
      ghost var all, m := activeReaders.Contents(), View();
      CoherentDistinct(m);
      assert forall i :: 0 <= i < |all| ==> Ports(all)[i] == all[i].port;
      var met := activeReaders.Tour();
      Follows(m);
      for k := 0 to |met|
        modifies {}
      {
        RingReady(m, k);
        EntryOf(met[k].port);
        assert met[k].IsReady();
      }
      count := |met|;
    }

    /** The debug check: as many ready entries in the map as there are readers. */
    method CheckReaders() returns (readyCount: int)
      requires Valid()
      modifies activeReaders
      ensures Valid() && View() == old(View()) && readyCount == 0
    {
      hide Coherent, Accounts, Named, NoneDeleted, CircularLinkedList.Valid, CircularLinkedList.Contents;
      readyCount := WalkRing();
      ghost var m := View();
      var todo := tokensMap.Keys;
      ghost var met: set<Port> := {};
      while todo != {}
        invariant todo <= tokensMap.Keys
        invariant met == (set p | p in m.ports && p !in todo && m.ports[p].Ready())
        invariant readyCount == |m.ring| - |met|
        modifies {}
        decreases todo
      {
        var p :| p in todo;
        EntryOf(p);
        if tokensMap[p].IsReady() {
          readyCount := readyCount - 1;
          met := met + {p};
        }
        todo := todo - {p};
      }
      ReadyIsRing(m, met);
    }
  }

  lemma ReadyIsRing(m: Multi, met: set<Port>)
    requires Coherent(m) && met == (set p | p in m.ports && m.ports[p].Ready())
    ensures |met| == |m.ring|
  {
    assert met == set p | p in m.ring;
    DistinctSize(m.ring);
  }

  lemma {:induction false} DistinctSize(s: seq<Port>)
    requires Distinct(s)
    ensures |set p | p in s| == |s|
  {
    if s != [] {
      DistinctSize(s[1..]);
      assert (set p | p in s) == {s[0]} + set p | p in s[1..];
    }
  }

  lemma CoherentDistinct(m: Multi)
    requires Coherent(m)
    ensures Distinct(m.ring) && forall p :: p in m.ring ==> p in m.ports
  {
  }

  lemma NothingIn(s: seq<Port>)
    ensures (forall p :: p !in s) ==> s == []
  {
    if s != [] { assert s[0] in s; }
  }

  lemma EmptyCoherent()
    ensures Coherent(EMPTY) && Accounts(map[]) == EMPTY.ports && Ports([]) == EMPTY.ring
  {
  }

  lemma RingNamed(m: map<Port, PortEntry>, ring: seq<PortEntry>)
    requires Named(m, ring) && ring != []
    ensures ring[0].port in m && m[ring[0].port] == ring[0] && (forall p :: p in m ==> m[p].port == p)
    ensures Named(m, ring[1..] + []) && Named(m, ring[1..] + [ring[0]])
  {
  }

  lemma PortsTurn(ring: seq<PortEntry>)
    requires ring != []
    ensures Ports(ring)[0] == ring[0].port && Ports(ring[1..] + []) == Ports(ring)[1..] + []
    ensures Ports(ring[1..] + [ring[0]]) == Ports(ring)[1..] + [ring[0].port]
  {
  }

  lemma Entries(m: map<Port, PortEntry>, ring: seq<PortEntry>, p: Port)
    requires Named(m, ring) && p in m
    ensures m[p].port == p
  {
  }

  lemma Listed(m: map<Port, PortEntry>, ring: seq<PortEntry>, e: PortEntry)
    requires Named(m, ring) && e.port !in m
    ensures Named(m[e.port := e], ring)
    ensures Accounts(m[e.port := e]) == Accounts(m)[e.port := e.Account()]
  {
  }

  lemma Unlisted(m: map<Port, PortEntry>, ring: seq<PortEntry>, p: Port, deleted: set<PortEntry>)
    requires Named(m, ring) && p in m && p !in Ports(ring) && NoneDeleted(m, deleted)
    ensures Named(m - {p}, ring) && NoneDeleted(m - {p}, deleted + {m[p]})
    ensures Accounts(m - {p}) == Accounts(m) - {p}
  {
    forall i | 0 <= i < |ring| ensures ring[i].port != p {
      assert Ports(ring)[i] == ring[i].port;
    }
  }

  lemma NewPort(m: Multi, p: Port, a: Account)
    requires p !in m.ports
    ensures Update(m, p, a) == Multi(m.ports[p := a], if a.Ready() then m.ring + [p] else m.ring)
  {
  }

  lemma PortsNonZero(m: Multi, p: Port)
    requires Coherent(m) && p in m.ports
    ensures p != ILLEGAL_PORT
  {
  }

  /** A port that is removed is no longer in the ring. */
  lemma RingLeaves(m: Multi, p: Port)
    requires Coherent(m) && p in m.ports
    ensures p !in Remove(m, p).ring
  {
    RemoveKeeps(m, p);
  }
}
