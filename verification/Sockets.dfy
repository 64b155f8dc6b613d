/** What the event handlers of Linux and macOS have in common: descriptors, the
    messages about them, and the account of what each port was sent. */
module Sockets {
  import opened Basics
  import opened Scheduler
  import Timers

  datatype Fd = Fd(number: nat)

  /** Bits of an event mask: 1 << kInEvent and 1 << kOutEvent. */
  const IN: int := 1
  const OUT: int := 2

  /** A descriptor with one port and 16 initial tokens, or a listening one. */
  datatype Desc =
    | Single(port: Port, mask: int, tokens: int)
    | Multiple(multi: Multi)
  {
    predicate IsListening() { Multiple? }
  }

  const NEW_SINGLE := Single(ILLEGAL_PORT, 0, 16)
  const NEW_MULTIPLE := Multiple(EMPTY)

  function MaskOf(d: Desc): int
  {
    match d
    case Single(_, mask, tokens) => if tokens <= 0 then 0 else mask
    case Multiple(m) => Scheduler.Mask(m)
  }

  /** A descriptor without ports, of the kind asked for. */
  function NewDesc(listening: bool): (d: Desc)
    ensures d.IsListening() == listening && PortsOf(d) == {}
  {
    if listening then NEW_MULTIPLE else NEW_SINGLE
  }

  /** The port whose turn it is. */
  function NextPort(d: Desc): Port
  {
    match d case Single(port, _, _) => port case Multiple(m) => Next(m)
  }

  // ---------------------------------------------------------------- messages

  datatype Command =
    | ShutdownRead
    | ShutdownWrite
    | Close(port: Port, last: bool)     // `last`: the registry says no socket is left
    | ReturnToken(port: Port, count: nat)
    | SetEventMask(port: Port, events: int)

  datatype Message =
    | Timer(port: Port, deadline: int)
    | Shutdown
    | Socket(fd: Fd, listening: bool, command: Command)

  /** What a message means for the timers. */
  function MoveOf(m: Message): seq<Timers.Move>
  {
    if !m.Timer? then [] else [if m.deadline >= 0 then Timers.Ask(m.port, m.deadline) else Timers.Cancel(m.port)]
  }

  function MovesIn(ms: seq<Message>): seq<Timers.Move>
  {
    if ms == [] then [] else MovesIn(ms[..|ms| - 1]) + MoveOf(ms[|ms| - 1])
  }

  lemma MessageMoves(heap: seq<Timers.Heap.Entry<Port>>, m: Message)
    ensures Timers.After(heap, MoveOf(m)) ==
            if m.Timer? then Timers.Updated(heap, Timers.PlaceOf(heap, m.port), m.port, m.deadline) else heap
  {
    if m.Timer? { Timers.AfterOne(heap, MoveOf(m)[0]); } else { Timers.AfterOne(heap, Timers.Expire); }
  }

  /** What the handler asserts about a command, given the descriptor it is for. */
  predicate Allowed(d: Desc, c: Command)
  {
    match (d, c)
    case (_, ShutdownRead) => !d.IsListening()
    case (_, ShutdownWrite) => !d.IsListening()
    case (Single(p, _, _), Close(port, _)) =>
      if port == ILLEGAL_PORT then MaskOf(d) == 0 else p == ILLEGAL_PORT || p == port
    case (Multiple(m), Close(port, last)) => last ==> Remove(m, port).ports == map[]
    case (Single(p, _, _), ReturnToken(port, _)) => p == port
    case (Multiple(m), ReturnToken(port, _)) => port in m.ports
    case (Single(p, _, _), SetEventMask(port, events)) =>
      port != ILLEGAL_PORT && (p == ILLEGAL_PORT || p == port) && 0 <= events <= IN + OUT
    case (Multiple(m), SetEventMask(port, events)) => port != ILLEGAL_PORT && (events == 0 || events == IN)
  }

  /** The close command that goes with its descriptor. */
  predicate Closes(d: Desc, c: Command) { c.Close? && (d.Single? || c.last) }

  /** The events that a port can be told. */
  datatype EventMask = EventMask(input: bool, output: bool, error: bool, close: bool)
  {
    predicate IsNone() { !input && !output && !error && !close }
  }

  const CLOSE_EVENT := EventMask(false, false, false, true)
  const ERROR_EVENT := EventMask(false, false, true, false)

  /** What is posted: events to each of some ports, that a descriptor is destroyed,
      or that a time has come. */
  datatype Notice = Posted(ports: set<Port>, mask: EventMask) | Destroyed(port: Port) | TimedOut(port: Port)

  /** No event is posted to the port that does not exist. */
  predicate NoneIllegal(notices: seq<Notice>)
  {
    forall n :: n in notices && n.Posted? ==> ILLEGAL_PORT !in n.ports
  }

  // ---------------------------------------------------------------- one after the other

  /** What `take` makes of a handler, one message or turn after the other; None
      where one of them is refused. */
  function InTurn<H, M>(take: (H, M) -> Maybe<H>, h: H, ms: seq<M>): Maybe<H>
  {
    if ms == [] then Some(h)
    else match InTurn(take, h, ms[..|ms| - 1])
      case None => None
      case Some(g) => take(g, ms[|ms| - 1])
  }

  lemma {:induction false} BrokenOff<H, M>(take: (H, M) -> Maybe<H>, h: H, ms: seq<M>, i: nat)
    requires i <= |ms| && InTurn(take, h, ms[..i]).None?
    ensures InTurn(take, h, ms).None?
    decreases |ms| - i
  {
    if i < |ms| {
      assert ms[..i + 1][..i] == ms[..i];
      BrokenOff(take, h, ms, i + 1);
    } else {
      assert ms[..i] == ms;
    }
  }

  /** What is posted for a batch of events, each looked up in `known`. */
  function ToldBy<K, E>(tells: (K, E) -> seq<Notice>, known: K, batch: seq<E>): seq<Notice>
  {
    if batch == [] then []
    else ToldBy(tells, known, batch[..|batch| - 1]) + tells(known, batch[|batch| - 1])
  }

  // ---------------------------------------------------------------- what happens to a descriptor

  /** A command is obeyed, the next port is told, or all are. */
  datatype Act = Obeys(command: Command) | Tell(mask: EventMask) | TellAll(mask: EventMask) | Idle

  predicate Permitted(d: Desc, a: Act) { a.Obeys? ==> Allowed(d, a.command) }

  function Acted(d: Desc, a: Act): Desc
    requires Permitted(d, a)
  {
    match d
    case Single(port, mask, tokens) =>
      (match a
       case Obeys(Close(p, _)) => if p == ILLEGAL_PORT then d else Single(ILLEGAL_PORT, 0, tokens)
       case Obeys(ReturnToken(_, count)) => Single(port, mask, tokens + count)
       case Obeys(SetEventMask(p, events)) => Single(p, events, tokens)
       case Obeys(_) => d
       case Idle => d
       case _ => Single(port, mask, tokens - 1))
    case Multiple(m) => if OpOf(a).None? then d else Multiple(Exec(m, OpOf(a).value))
  }

  /** The same as an operation of the scheduler. */
  function OpOf(a: Act): Maybe<Op>
  {
    match a
    case Obeys(Close(p, _)) => if p == ILLEGAL_PORT then None else Some(Op.Close(p))
    case Obeys(ReturnToken(p, count)) => Some(GiveBack(p, count))
    case Obeys(SetEventMask(p, events)) => Some(SetMask(p, events == IN))
    case Obeys(_) => None
    case Tell(_) => Some(One)
    case TellAll(_) => Some(All)
    case Idle => None
  }

  /** The ports that a descriptor has. */
  function PortsOf(d: Desc): set<Port>
  {
    match d
    case Single(port, _, _) => if port == ILLEGAL_PORT then {} else {port}
    case Multiple(m) => m.ports.Keys
  }

  /** What is posted at once, and what after the kernel has been told. */
  function PostsFirst(d: Desc, a: Act): seq<Notice>
  {
    if a.TellAll? then [Posted(PortsOf(d), a.mask)] else []
  }

  function PostsLast(d: Desc, a: Act): seq<Notice>
  {
    match a
    case Tell(mask) => [Posted({NextPort(d)}, mask)]
    case Obeys(Close(port, _)) => [Destroyed(port)]
    case _ => []
  }

  lemma PostsClose(d: Desc, c: Command)
    ensures PostsLast(d, Obeys(c)) == if c.Close? then [Destroyed(c.port)] else []
  {
  }

  /** Only a returned token or a new mask can make a descriptor one to watch, or to
      watch for something else. */
  lemma AsksForMore(d: Desc, books: Books, a: Act)
    requires DescOk(d, books) && Permitted(d, a)
    ensures !(a.Obeys? && (a.command.ReturnToken? || a.command.SetEventMask?)) ==>
              MaskOf(Acted(d, a)) == 0 || MaskOf(Acted(d, a)) == MaskOf(d)
  {
    if d.Multiple? { NoneReady(d.multi.ring); }
  }

  lemma NoneReady(ring: seq<Port>)
    ensures ring == [] ==> forall ports :: StillReady(ring, ports) == []
  {
  }

  /** A descriptor has the ports that have set a mask and have not closed. */
  lemma PortsExactly(d: Desc, books: Books, a: Act, p: Port)
    requires DescOk(d, books) && Permitted(d, a)
    ensures p in PortsOf(Acted(d, a)) <==>
              || (a.Obeys? && a.command.SetEventMask? && a.command.port == p)
              || (p in PortsOf(d) && !(a.Obeys? && a.command.Close? && a.command.port == p))
  {
    if d.Multiple? { ListenersExactly(d.multi, books, a); }
  }

  /** What each act makes of the ports of a listening descriptor. */
  lemma ListenersExactly(m: Multi, books: Books, a: Act)
    requires DescOk(Multiple(m), books) && Permitted(Multiple(m), a)
    ensures var after := Acted(Multiple(m), a).multi.ports;
            match a
            case Obeys(SetEventMask(p, events)) =>
              after == m.ports[p := Account(events == IN, if p in m.ports then m.ports[p].tokens else INITIAL)]
            case Obeys(ReturnToken(p, count)) =>
              after == m.ports[p := Account(m.ports[p].reading, m.ports[p].tokens + count)]
            case Obeys(Close(p, _)) => after == m.ports - {p}
            case Tell(_) =>
              after == if Next(m) in m.ports then m.ports[Next(m) := Account(true, m.ports[Next(m)].tokens - 1)]
                       else m.ports
            case TellAll(_) => after == map p | p in m.ports :: Account(m.ports[p].reading, m.ports[p].tokens - 1)
            case _ => after == m.ports
  {
    if m.ring != [] { RingReady(m, 0); }
  }

  // ---------------------------------------------------------------- descriptors with one port

  /** What acts, one after the other, make of a descriptor; None where one is not
      permitted. */
  function ActedAll(d: Desc, acts: seq<Act>): Maybe<Desc>
  {
    InTurn((e: Desc, a: Act) => if Permitted(e, a) then Some(Acted(e, a)) else None, d, acts)
  }

  /** Tokens returned, less those taken. */
  function Returned(acts: seq<Act>): int
  {
    if acts == [] then 0
    else
      Returned(acts[..|acts| - 1]) + match acts[|acts| - 1]
                                     case Obeys(ReturnToken(_, count)) => count
                                     case Tell(_) => -1
                                     case TellAll(_) => -1
                                     case _ => 0
  }

  /** The last word on who is told and of what. */
  function LastWord(acts: seq<Act>): (Port, int)
  {
    if acts == [] then (ILLEGAL_PORT, 0)
    else match acts[|acts| - 1]
      case Obeys(SetEventMask(port, events)) => (port, events)
      case Obeys(Close(port, _)) => if port == ILLEGAL_PORT then LastWord(acts[..|acts| - 1]) else (ILLEGAL_PORT, 0)
      case _ => LastWord(acts[..|acts| - 1])
  }

  /** Over every run, a descriptor with one port has the port and the events last
      asked for, and 16 tokens less those taken and not returned. */
  lemma {:induction false} SingleRuns(acts: seq<Act>)
    requires ActedAll(NEW_SINGLE, acts).Some?
    ensures ActedAll(NEW_SINGLE, acts) == Some(Single(LastWord(acts).0, LastWord(acts).1, 16 + Returned(acts)))
    decreases |acts|
  {
    if acts != [] { SingleRuns(acts[..|acts| - 1]); }
  }

  /** The books of a listening descriptor after it. */
  function Booked(books: Books, d: Desc, a: Act): Books
  {
    if d.Multiple? && OpOf(a).Some? then Record(books, d.multi, OpOf(a).value) else books
  }

  /** A descriptor and its books: of a listening one, the ring is right, and each
      port's tokens, messages and returned tokens are in balance. */
  ghost predicate DescOk(d: Desc, books: Books)
  {
    match d
    case Single(port, mask, _) => 0 <= mask <= IN + OUT && (mask != 0 ==> port != ILLEGAL_PORT)
    case Multiple(m) => Coherent(m) && Balanced(m, books)
  }

  lemma ActedOk(d: Desc, books: Books, a: Act)
    requires DescOk(d, books) && Permitted(d, a)
    ensures DescOk(Acted(d, a), Booked(books, d, a)) && Acted(d, a).Single? == d.Single?
    ensures a.Obeys? && Closes(d, a.command) ==> MaskOf(Acted(d, a)) == 0
  {
    hide Coherent, Balanced;
    if d.Multiple? && OpOf(a).Some? {
      ExecKeeps(d.multi, OpOf(a).value);
      ExecBalances(d.multi, books, OpOf(a).value);
    }
    if d.Multiple? && a.Obeys? && a.command.Close? && a.command.last { LastOne(d.multi, books, a.command.port); }
  }

  lemma LastOne(m: Multi, books: Books, p: Port)
    requires Coherent(m) && Remove(m, p).ports == map[]
    ensures Remove(m, p).ring == [] && (p == ILLEGAL_PORT ==> m.ring == [])
  {
    RemoveKeeps(m, p);
    var n := Remove(m, p);
    if n.ring != [] { RingReady(n, 0); }
  }

  /** A descriptor with one port owes nothing: at most 16 messages are out. */
  predicate Funded(d: Desc) { d.Single? ==> d.tokens >= 0 }

  /** What is told only while it is watched is never told without a token. */
  lemma ActedFunded(d: Desc, a: Act)
    requires Permitted(d, a) && Funded(d) && (a.Tell? || a.TellAll? ==> MaskOf(d) != 0)
    ensures Funded(Acted(d, a))
  {
  }

  lemma TellOk(d: Desc, books: Books)
    requires DescOk(d, books) && MaskOf(d) != 0
    ensures NextPort(d) != ILLEGAL_PORT && NextPort(d) in PortsOf(d)
  {
    if d.Multiple? { RingReady(d.multi, 0); }
  }

  lemma ListeningMask(d: Desc)
    ensures d.IsListening() ==> MaskOf(d) == 0 || MaskOf(d) == IN
  {
  }

  /** What the mask of a descriptor is after a set-mask command. */
  lemma Asked(d: Desc, books: Books, c: Command)
    requires Allowed(d, c) && DescOk(d, books) && c.SetEventMask?
    ensures d.Single? && d.tokens > 0 ==> MaskOf(Acted(d, Obeys(c))) == c.events
    ensures d.Multiple? && c.events == IN && (c.port in d.multi.ports ==> d.multi.ports[c.port].tokens > 0) ==>
              MaskOf(Acted(d, Obeys(c))) == IN
    ensures d.Multiple? && c.events == 0 ==> c.port !in Acted(d, Obeys(c)).multi.ring
  {
    if d.Multiple? {
      var m, p := d.multi, c.port;
      ExecKeeps(m, SetMask(p, c.events == IN));
      var after := Exec(m, SetMask(p, c.events == IN));
      assert after.ports[p].Ready() <==> p in after.ring;
    }
  }

  /** What the account of a port says in any state: it never has more tokens than
      it started with exactly if it has not returned more than it was sent. */
  lemma TokensWithinBound(m: Multi, books: Books, p: Port)
    requires DescOk(Multiple(m), books) && p in m.ports
    ensures p in books && (m.ports[p].tokens <= INITIAL <==> books[p].returned <= books[p].sent)
  {
  }

  lemma NewOk(listening: bool)
    ensures DescOk(NewDesc(listening), map[]) && MaskOf(NewDesc(listening)) == 0
  {
  }

  lemma NotListening(d: Desc, c: Command)
    requires Allowed(d, c) && (c.ShutdownRead? || c.ShutdownWrite?)
    ensures !d.IsListening()
  {
  }
}
