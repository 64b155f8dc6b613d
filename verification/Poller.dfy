/** The epoll event handler: the descriptors it manages, what it has registered
    with the kernel for them, and its timer. The kernel may refuse any ADD. */
module Poller {
  import opened Basics
  import opened Heap
  import opened Scheduler
  import opened Timers
  import opened Sockets

  /** What epoll is asked to watch besides EPOLLRDHUP. */
  datatype Interest = Interest(input: bool, output: bool, edgeTriggered: bool)

  function InterestOf(d: Desc): Interest
  {
    var mask := MaskOf(d);
    Interest(mask == IN || mask == IN + OUT, mask == OUT || mask == IN + OUT, !d.IsListening())
  }

  /** The bits of one epoll event. */
  datatype Polled = Polled(input: bool, output: bool, error: bool, hangup: bool)

  /** GetPollEvents: an error only counts when there is input with it. */
  function GetPollEvents(e: Polled): EventMask
  {
    if e.error then EventMask(false, false, e.input, false)
    else EventMask(e.input, e.output, false, e.hangup)
  }

  datatype PollEvent = Interrupt | TimerExpired | Io(fd: Fd, polled: Polled)

  // ---------------------------------------------------------------- the handler as a value

  datatype Answer = NotAsked | Accepted | Refused

  /** One EPOLL_CTL_ADD and the answer to it. */
  datatype AddCall = AddCall(fd: Fd, accepted: bool)

  /** `answers` are those that the kernel will give to the next ADDs, `adds` those
      it has given, `books` what each port of a listening descriptor was sent,
      `posted` all that was posted. */
  datatype Handler = Handler(sockets: map<Fd, Desc>, books: map<Fd, Books>, epoll: map<Fd, Interest>,
                             adds: seq<AddCall>, answers: seq<bool>, posted: seq<Notice>,
                             heap: seq<Entry<Port>>, shutdown: bool)
  {
    predicate Has(fd: Fd) { fd in sockets && fd in books }

    /** The answer to the next ADD. */
    predicate Accepts() { answers == [] || answers[0] }
  }

  const NO_SOCKETS := Handler(map[], map[], map[], [], [], [], [], false)

  function Put(h: Handler, fd: Fd, a: Act): (g: Handler)
    requires h.Has(fd) && Permitted(h.sockets[fd], a)
    ensures g.Has(fd)
  {
    h.(sockets := h.sockets[fd := Acted(h.sockets[fd], a)],
       books := h.books[fd := Booked(h.books[fd], h.sockets[fd], a)],
       posted := h.posted + PostsFirst(h.sockets[fd], a))
  }

  /** AddToEpollInstance; when it is refused, the ports are told of a close. */
  function Add(h: Handler, fd: Fd): (g: Handler)
    requires h.Has(fd)
    ensures g.Has(fd)
  {
    var g := h.(answers := if h.answers == [] then [] else h.answers[1..],
                adds := h.adds + [AddCall(fd, h.Accepts())]);
    if h.Accepts() then g.(epoll := h.epoll[fd := InterestOf(h.sockets[fd])]) else Put(g, fd, TellAll(CLOSE_EVENT))
  }

  function Delete(h: Handler, fd: Fd): Handler { h.(epoll := h.epoll - {fd}) }

  /** UpdateEpollInstance. */
  function Settle(h: Handler, oldMask: int, fd: Fd): (g: Handler)
    requires h.Has(fd)
    ensures g.Has(fd)
  {
    var newMask := MaskOf(h.sockets[fd]);
    if oldMask != 0 && newMask == 0 then Delete(h, fd)
    else if oldMask == 0 && newMask != 0 then Add(h, fd)
    else if oldMask != 0 && newMask != 0 && oldMask != newMask then Add(Delete(h, fd), fd)
    else h
  }

  /** Something happens to a descriptor, and the kernel is told. */
  function Change(h: Handler, fd: Fd, a: Act): (g: Handler)
    requires h.Has(fd) && Permitted(h.sockets[fd], a)
    ensures g.Has(fd)
  {
    var g := Settle(Put(h, fd, a), MaskOf(h.sockets[fd]), fd);
    g.(posted := g.posted + PostsLast(h.sockets[fd], a))
  }

  function DescFor(sockets: map<Fd, Desc>, fd: Fd, listening: bool): Desc
  {
    if fd in sockets then sockets[fd] else NewDesc(listening)
  }

  /** GetDescriptorInfo. */
  function Known(h: Handler, fd: Fd, listening: bool): (g: Handler)
    requires fd in h.sockets ==> fd in h.books
    ensures g.Has(fd)
  {
    if fd in h.sockets then h
    else h.(sockets := h.sockets[fd := DescFor(h.sockets, fd, listening)], books := h.books[fd := map[]])
  }

  function Commanded(h: Handler, fd: Fd, listening: bool, c: Command): Handler
    requires (fd in h.sockets ==> fd in h.books) && Allowed(DescFor(h.sockets, fd, listening), c)
  {
    var g := Known(h, fd, listening);
    if c.ShutdownRead? || c.ShutdownWrite? then g
    else
      var k := Change(g, fd, Obeys(c));
      if Closes(g.sockets[fd], c) then k.(sockets := k.sockets - {fd}, books := k.books - {fd}) else k
  }

  /** One message; None where it breaks what the handler asserts of its senders. */
  function Deliver(h: Handler, m: Message): Maybe<Handler>
  {
    match m
    case Timer(port, deadline) => Some(h.(heap := Updated(h.heap, PlaceOf(h.heap, port), port, deadline)))
    case Shutdown => Some(h.(shutdown := true))
    case Socket(fd, listening, c) =>
      if (fd in h.sockets ==> fd in h.books) && Allowed(DescFor(h.sockets, fd, listening), c)
      then Some(Commanded(h, fd, listening, c)) else None
  }

  function DeliverAll(h: Handler, ms: seq<Message>): Maybe<Handler> { InTurn(Deliver, h, ms) }

  /** What an event does to its descriptor. */
  function ActOf(polled: Polled): Act
  {
    var mask := GetPollEvents(polled);
    if mask.error then TellAll(mask) else if mask.IsNone() then Idle else Tell(mask)
  }

  function Poll(h: Handler, e: PollEvent): Handler
  {
    match e
    case Interrupt => h
    case TimerExpired =>
      if h.heap == [] then h
      else h.(heap := RemovedAt(h.heap, 0), posted := h.posted + [TimedOut(h.heap[0].value)])
    case Io(fd, polled) => if h.Has(fd) then Change(h, fd, ActOf(polled)) else h
  }

  function PollAll(h: Handler, batch: seq<PollEvent>): Handler
  {
    if batch == [] then h else Poll(PollAll(h, batch[..|batch| - 1]), batch[|batch| - 1])
  }

  /** What is posted for an event, by its bits alone: an error with input to all
      ports; input, output or a hangup without an error to the one whose turn it
      is; and for a timeout to the port that comes first. */
  function TellsOf(h: Handler, e: PollEvent): seq<Notice>
  {
    match e
    case Interrupt => []
    case TimerExpired => if h.heap == [] then [] else [TimedOut(h.heap[0].value)]
    case Io(fd, Polled(input, output, error, hangup)) =>
      if fd !in h.sockets then []
      else if error && input then [Posted(PortsOf(h.sockets[fd]), ERROR_EVENT)]
      else if !error && (input || output || hangup) then
        [Posted({NextPort(h.sockets[fd])}, EventMask(input, output, false, hangup))]
      else []
  }

  function Told(h: Handler, batch: seq<PollEvent>): seq<Notice> { ToldBy(TellsOf, h, batch) }

  // ---------------------------------------------------------------- coherence

  /** The kernel's answer to the last ADD of a descriptor. */
  function LastAnswer(adds: seq<AddCall>, fd: Fd): Answer
  {
    if adds == [] then NotAsked
    else if adds[|adds| - 1].fd == fd then (if adds[|adds| - 1].accepted then Accepted else Refused)
    else LastAnswer(adds[..|adds| - 1], fd)
  }

  /** What holds of one descriptor: registered exactly if it has a mask and its
      last ADD was accepted, and then with the interest of that mask. */
  ghost predicate FdOk(h: Handler, fd: Fd)
  {
    && h.Has(fd) && DescOk(h.sockets[fd], h.books[fd])
    && (fd in h.epoll <==> MaskOf(h.sockets[fd]) != 0 && LastAnswer(h.adds, fd) == Accepted)
    && (fd in h.epoll ==> h.epoll[fd] == InterestOf(h.sockets[fd]))
    && (MaskOf(h.sockets[fd]) != 0 ==> LastAnswer(h.adds, fd) != NotAsked)
  }

  ghost predicate Coherence(h: Handler)
  {
    && h.sockets.Keys == h.books.Keys && h.epoll.Keys <= h.sockets.Keys
    && forall fd :: fd in h.sockets ==> FdOk(h, fd)
  }

  /** Nothing but `fd` differs. */
  ghost predicate OnlyChanged(h: Handler, g: Handler, fd: Fd)
  {
    && g.sockets.Keys == h.sockets.Keys && g.books.Keys == h.books.Keys
    && g.heap == h.heap && g.shutdown == h.shutdown
    && forall x :: x != fd ==>
         && (x in h.sockets ==> g.sockets[x] == h.sockets[x]) && (x in h.books ==> g.books[x] == h.books[x])
         && (x in g.epoll <==> x in h.epoll) && (x in h.epoll ==> g.epoll[x] == h.epoll[x])
         && LastAnswer(g.adds, x) == LastAnswer(h.adds, x)
  }

  lemma OnlyChangedTrans(h: Handler, g: Handler, k: Handler, fd: Fd)
    requires OnlyChanged(h, g, fd) && OnlyChanged(g, k, fd)
    ensures OnlyChanged(h, k, fd)
  {
  }

  lemma LastAnswerAfter(adds: seq<AddCall>, fd: Fd, accepted: bool)
    ensures LastAnswer(adds + [AddCall(fd, accepted)], fd) == if accepted then Accepted else Refused
    ensures forall x :: x != fd ==> LastAnswer(adds + [AddCall(fd, accepted)], x) == LastAnswer(adds, x)
  {
    assert (adds + [AddCall(fd, accepted)])[..|adds|] == adds;
  }

  lemma PutOk(h: Handler, fd: Fd, a: Act)
    requires h.Has(fd) && DescOk(h.sockets[fd], h.books[fd]) && Permitted(h.sockets[fd], a)
    ensures var g := Put(h, fd, a);
            && OnlyChanged(h, g, fd) && DescOk(g.sockets[fd], g.books[fd])
            && g.sockets[fd].Single? == h.sockets[fd].Single? && g.epoll == h.epoll && g.adds == h.adds
  {
    ActedOk(h.sockets[fd], h.books[fd], a);
  }

  lemma AddOk(h: Handler, fd: Fd)
    requires h.Has(fd) && DescOk(h.sockets[fd], h.books[fd]) && fd !in h.epoll && MaskOf(h.sockets[fd]) != 0
    ensures var g := Add(h, fd);
            && OnlyChanged(h, g, fd) && FdOk(g, fd) && g.sockets[fd].Single? == h.sockets[fd].Single?
            && (g.sockets[fd] == h.sockets[fd] || LastAnswer(g.adds, fd) == Refused)
  {
    hide DescOk, MaskOf, InterestOf, LastAnswer, OnlyChanged, Put;
    var g := h.(answers := if h.answers == [] then [] else h.answers[1..],
                adds := h.adds + [AddCall(fd, h.Accepts())]);
    LoggedOk(h, g, fd, h.Accepts());
    if h.Accepts() {
      RegisteredOk(g, fd);
    } else {
      PutOk(g, fd, TellAll(CLOSE_EVENT));
    }
    OnlyChangedTrans(h, g, Add(h, fd), fd);
  }

  lemma LoggedOk(h: Handler, g: Handler, fd: Fd, accepted: bool)
    requires g == h.(answers := g.answers, adds := h.adds + [AddCall(fd, accepted)])
    ensures OnlyChanged(h, g, fd) && LastAnswer(g.adds, fd) == if accepted then Accepted else Refused
  {
    LastAnswerAfter(h.adds, fd, accepted);
  }

  lemma RegisteredOk(h: Handler, fd: Fd)
    requires fd in h.sockets
    ensures OnlyChanged(h, h.(epoll := h.epoll[fd := InterestOf(h.sockets[fd])]), fd)
  {
  }

  lemma DeletedOk(h: Handler, fd: Fd)
    ensures OnlyChanged(h, Delete(h, fd), fd)
  {
  }

  /** The registration follows the mask, whatever the kernel answers. */
  lemma SettleOk(h: Handler, was: Desc, fd: Fd)
    requires h.Has(fd) && DescOk(h.sockets[fd], h.books[fd]) && was.Single? == h.sockets[fd].Single?
    requires fd in h.epoll <==> MaskOf(was) != 0 && LastAnswer(h.adds, fd) == Accepted
    requires fd in h.epoll ==> h.epoll[fd] == InterestOf(was)
    requires MaskOf(was) != 0 ==> LastAnswer(h.adds, fd) != NotAsked
    ensures var g := Settle(h, MaskOf(was), fd);
            && OnlyChanged(h, g, fd) && FdOk(g, fd) && g.sockets[fd].Single? == h.sockets[fd].Single?
            && (MaskOf(h.sockets[fd]) == 0 ==> fd !in g.epoll)
            && (g.sockets[fd] == h.sockets[fd] || LastAnswer(g.adds, fd) == Refused)
  {
    SameMask(was, h.sockets[fd]);
    hide DescOk, MaskOf, InterestOf, Add, LastAnswer, OnlyChanged;
    NothingChanged(h, fd);
    DeletedOk(h, fd);
    var mask := MaskOf(h.sockets[fd]);
    if MaskOf(was) == 0 && mask != 0 { AddOk(h, fd); }
    if MaskOf(was) != 0 && mask != 0 && MaskOf(was) != mask {
      AddOk(Delete(h, fd), fd);
      OnlyChangedTrans(h, Delete(h, fd), Add(Delete(h, fd), fd), fd);
    }
  }

  lemma NothingChanged(h: Handler, fd: Fd)
    ensures OnlyChanged(h, h, fd)
  {
  }

  lemma SameMask(a: Desc, b: Desc)
    requires a.Single? == b.Single?
    ensures MaskOf(a) == MaskOf(b) ==> InterestOf(a) == InterestOf(b)
  {
  }

  /** Whatever happens to a descriptor, the registrations stay right and the
      books balanced. */
  lemma ChangeKeeps(h: Handler, fd: Fd, a: Act)
    requires Coherence(h) && fd in h.sockets && Permitted(h.sockets[fd], a)
    ensures var g := Change(h, fd, a);
            && Coherence(g) && OnlyChanged(h, g, fd) && g.sockets[fd].Single? == h.sockets[fd].Single?
            && (MaskOf(Acted(h.sockets[fd], a)) == 0 ==> fd !in g.epoll)
            && (g.sockets[fd] == Acted(h.sockets[fd], a) || LastAnswer(g.adds, fd) == Refused)
  {
    hide DescOk, MaskOf, InterestOf, Settle, LastAnswer, OnlyChanged;
    assert FdOk(h, fd);
    PutOk(h, fd, a);
    var g := Settle(Put(h, fd, a), MaskOf(h.sockets[fd]), fd);
    SettleOk(Put(h, fd, a), h.sockets[fd], fd);
    OnlyChangedTrans(h, Put(h, fd, a), g, fd);
    PostedOk(g, Change(h, fd, a), fd);
    OnlyChangedTrans(h, g, Change(h, fd, a), fd);
    StaysCoherent(h, Change(h, fd, a), fd);
  }

  lemma PostedOk(h: Handler, g: Handler, fd: Fd)
    requires g == h.(posted := g.posted)
    ensures OnlyChanged(h, g, fd) && (FdOk(h, fd) ==> FdOk(g, fd))
  {
    hide DescOk, MaskOf, InterestOf, LastAnswer;
  }

  lemma StaysCoherent(h: Handler, g: Handler, fd: Fd)
    requires Coherence(h) && OnlyChanged(h, g, fd) && FdOk(g, fd)
    ensures Coherence(g)
  {
    hide DescOk, MaskOf, InterestOf, LastAnswer;
    forall x | x in g.sockets ensures FdOk(g, x) { if x != fd { assert FdOk(h, x); } }
  }

  lemma KnownKeeps(h: Handler, fd: Fd, listening: bool)
    requires Coherence(h)
    ensures Coherence(Known(h, fd, listening))
    ensures Known(h, fd, listening).sockets[fd] == DescFor(h.sockets, fd, listening)
  {
    var g := Known(h, fd, listening);
    if fd !in h.sockets {
      NewOk(listening);
      hide DescOk, InterestOf, LastAnswer;
      forall x | x in g.sockets ensures FdOk(g, x) { if x != fd { assert FdOk(h, x); } }
    }
  }

  lemma CommandKeeps(h: Handler, fd: Fd, listening: bool, c: Command)
    requires Coherence(h) && Allowed(DescFor(h.sockets, fd, listening), c)
    ensures Coherence(Commanded(h, fd, listening, c))
    ensures Closes(DescFor(h.sockets, fd, listening), c) ==>
              fd !in Commanded(h, fd, listening, c).sockets && fd !in Commanded(h, fd, listening, c).epoll
  {
    hide DescOk, MaskOf, InterestOf, Acted, Allowed, Change, Known, FdOk;
    KnownKeeps(h, fd, listening);
    var g := Known(h, fd, listening);
    if !(c.ShutdownRead? || c.ShutdownWrite?) {
      ChangeKeeps(g, fd, Obeys(c));
      assert FdOk(g, fd);
      ClosedMask(g, fd, c);
      if Closes(g.sockets[fd], c) { DropKeeps(Change(g, fd, Obeys(c)), fd); }
    }
  }

  lemma ClosedMask(h: Handler, fd: Fd, c: Command)
    requires FdOk(h, fd) && Allowed(h.sockets[fd], c)
    ensures Closes(h.sockets[fd], c) ==> MaskOf(Acted(h.sockets[fd], Obeys(c))) == 0
  {
    ActedOk(h.sockets[fd], h.books[fd], Obeys(c));
  }

  lemma DropKeeps(h: Handler, fd: Fd)
    requires Coherence(h) && fd !in h.epoll
    ensures Coherence(h.(sockets := h.sockets - {fd}, books := h.books - {fd}))
  {
    hide DescOk, MaskOf, InterestOf, LastAnswer;
    var g := h.(sockets := h.sockets - {fd}, books := h.books - {fd});
    forall x | x in g.sockets ensures FdOk(g, x) { assert FdOk(h, x); }
  }

  lemma DeliverKeeps(h: Handler, m: Message)
    requires Coherence(h)
    ensures Deliver(h, m).Some? ==> Coherence(Deliver(h, m).value)
  {
    hide DescOk, MaskOf, InterestOf, Allowed, Commanded, FdOk;
    match m
    case Socket(fd, listening, c) =>
      if Allowed(DescFor(h.sockets, fd, listening), c) { CommandKeeps(h, fd, listening, c); }
    case Timer(port, deadline) => SameButHeap(h, Deliver(h, m).value);
    case Shutdown => SameButHeap(h, Deliver(h, m).value);
  }

  lemma SameButHeap(h: Handler, g: Handler)
    requires Coherence(h) && g == h.(heap := g.heap, shutdown := g.shutdown, posted := g.posted)
    ensures Coherence(g)
  {
    hide DescOk, MaskOf, InterestOf, LastAnswer;
    forall x | x in g.sockets ensures FdOk(g, x) { assert FdOk(h, x); }
  }

  lemma {:induction false} DeliverAllKeeps(h: Handler, ms: seq<Message>)
    requires Coherence(h)
    ensures DeliverAll(h, ms).Some? ==> Coherence(DeliverAll(h, ms).value)
    decreases |ms|
  {
    hide Coherence, Deliver;
    if ms != [] {
      DeliverAllKeeps(h, ms[..|ms| - 1]);
      if DeliverAll(h, ms[..|ms| - 1]).Some? { DeliverKeeps(DeliverAll(h, ms[..|ms| - 1]).value, ms[|ms| - 1]); }
    }
  }

  lemma PollKeeps(h: Handler, e: PollEvent)
    requires Coherence(h)
    ensures Coherence(Poll(h, e))
  {
    hide DescOk, MaskOf, InterestOf, Change, FdOk, ActOf;
    match e
    case Io(fd, polled) => if h.Has(fd) { PermittedAct(h.sockets[fd], polled); ChangeKeeps(h, fd, ActOf(polled)); }
    case TimerExpired => SameButHeap(h, Poll(h, e));
    case Interrupt =>
  }

  /** A descriptor after anything that happens to it: what that makes of it; an ADD
      exactly if its mask is new and not 0; and if that is refused, its ports are
      sent a close, and charged for it. */
  lemma ChangeDoes(h: Handler, fd: Fd, a: Act)
    requires h.Has(fd) && Permitted(h.sockets[fd], a)
    ensures var d, g := h.sockets[fd], Change(h, fd, a);
            var e := Acted(d, a);
            var asked := MaskOf(e) != 0 && MaskOf(e) != MaskOf(d);
            var refused := asked && !h.Accepts();
            && g.adds == h.adds + (if asked then [AddCall(fd, h.Accepts())] else [])
            && g.sockets == h.sockets[fd := if refused then Acted(e, TellAll(CLOSE_EVENT)) else e]
            && g.posted == h.posted + PostsFirst(d, a) + (if refused then [Posted(PortsOf(e), CLOSE_EVENT)] else [])
                           + PostsLast(d, a)
  {
    hide MaskOf, Settle, Acted, Booked, PostsLast, PostsFirst;
    var k := Put(h, fd, a);
    SettleDoes(k, MaskOf(h.sockets[fd]), fd);
    assert k.sockets[fd := Acted(k.sockets[fd], TellAll(CLOSE_EVENT))] ==
           h.sockets[fd := Acted(k.sockets[fd], TellAll(CLOSE_EVENT))];
  }

  lemma AddDoes(h: Handler, fd: Fd)
    requires h.Has(fd)
    ensures var d, g := h.sockets[fd], Add(h, fd);
            && g.adds == h.adds + [AddCall(fd, h.Accepts())]
            && g.sockets == (if h.Accepts() then h.sockets else h.sockets[fd := Acted(d, TellAll(CLOSE_EVENT))])
            && g.posted == h.posted + if h.Accepts() then [] else [Posted(PortsOf(d), CLOSE_EVENT)]
  {
    hide MaskOf, InterestOf, Acted, Booked;
  }

  lemma SettleDoes(h: Handler, oldMask: int, fd: Fd)
    requires h.Has(fd)
    ensures var d, g := h.sockets[fd], Settle(h, oldMask, fd);
            var asked := MaskOf(d) != 0 && MaskOf(d) != oldMask;
            var refused := asked && !h.Accepts();
            && g.adds == h.adds + (if asked then [AddCall(fd, h.Accepts())] else [])
            && g.sockets == (if refused then h.sockets[fd := Acted(d, TellAll(CLOSE_EVENT))] else h.sockets)
            && g.posted == h.posted + if refused then [Posted(PortsOf(d), CLOSE_EVENT)] else []
  {
    hide MaskOf, Add, Acted;
    AddDoes(h, fd);
    AddDoes(Delete(h, fd), fd);
    assert h.adds + [] == h.adds && h.posted + [] == h.posted;
  }

  /** A command: its descriptor is what the command makes of it, or gone; a close
      is always confirmed; and only a returned token or a new mask asks for an
      ADD, which, if refused, sends a close to every port. */
  lemma CommandDoes(h: Handler, fd: Fd, listening: bool, c: Command)
    requires Coherence(h) && Allowed(DescFor(h.sockets, fd, listening), c)
    ensures var d, g := DescFor(h.sockets, fd, listening), Commanded(h, fd, listening, c);
            var e := Acted(d, Obeys(c));
            var asked := (c.ReturnToken? || c.SetEventMask?) && MaskOf(e) != 0 && MaskOf(e) != MaskOf(d);
            var refused := asked && !h.Accepts();
            && g.adds == h.adds + (if asked then [AddCall(fd, h.Accepts())] else [])
            && g.sockets == (if c.Close? && (d.Single? || c.last) then h.sockets - {fd}
                             else h.sockets[fd := if refused then Acted(e, TellAll(CLOSE_EVENT)) else e])
            && g.posted == h.posted + (if refused then [Posted(PortsOf(e), CLOSE_EVENT)] else [])
                           + (if c.Close? then [Destroyed(c.port)] else [])
  {
    hide MaskOf, DescOk, Change, PortsOf, FdOk, Coherence;
    if fd in h.sockets { KnownOk(h, fd); }
    var g, d := Known(h, fd, listening), DescFor(h.sockets, fd, listening);
    KnownKeeps(h, fd, listening);
    if c.ShutdownRead? || c.ShutdownWrite? {
      assert g.sockets == h.sockets[fd := d];
    } else {
      hide Allowed, Acted;
      KnownOk(g, fd);
      ChangeDoes(g, fd, Obeys(c));
      AsksForMore(d, g.books[fd], Obeys(c));
      var k := Change(g, fd, Obeys(c));
      assert k.sockets - {fd} == h.sockets - {fd};
      assert k.sockets == h.sockets[fd := k.sockets[fd]];
      assert g.posted + [] == g.posted;
    }
  }

  lemma KnownOk(h: Handler, fd: Fd)
    requires Coherence(h) && fd in h.sockets
    ensures h.Has(fd) && DescOk(h.sockets[fd], h.books[fd])
  {
    assert FdOk(h, fd);
  }

  lemma DeliverPosts(h: Handler, m: Message)
    requires Coherence(h)
    ensures Deliver(h, m).Some? ==> h.posted <= Deliver(h, m).value.posted
  {
    hide Coherence, Allowed, Commanded, Acted, MaskOf;
    if m.Socket? && Deliver(h, m).Some? { CommandDoes(h, m.fd, m.listening, m.command); }
  }

  /** An event posts exactly what its bits say, and never registers anything. */
  lemma PollPosts(h: Handler, e: PollEvent)
    requires Coherence(h)
    ensures Poll(h, e).posted == h.posted + TellsOf(h, e) && Poll(h, e).adds == h.adds
    ensures e.Io? && e.fd in h.epoll ==> NoneIllegal(TellsOf(h, e))
  {
    if e.Io? && e.fd in h.sockets {
      var fd, a := e.fd, ActOf(e.polled);
      assert FdOk(h, fd);
      PermittedAct(h.sockets[fd], e.polled);
      IoPosts(h, fd, a);
      EventTells(h, fd, e.polled);
      hide DescOk, MaskOf, Change, LastAnswer, TellsOf, ActOf;
    }
  }

  lemma IoPosts(h: Handler, fd: Fd, a: Act)
    requires FdOk(h, fd) && !a.Obeys?
    ensures var d, g := h.sockets[fd], Change(h, fd, a);
            g.adds == h.adds && g.posted == h.posted + (PostsFirst(d, a) + PostsLast(d, a))
  {
    hide Change, LastAnswer, MaskOf, InterestOf, Acted;
    ChangeDoes(h, fd, a);
    AsksForMore(h.sockets[fd], h.books[fd], a);
  }

  /** What an event tells, by its bits. */
  lemma EventTells(h: Handler, fd: Fd, polled: Polled)
    requires FdOk(h, fd)
    ensures var d, a := h.sockets[fd], ActOf(polled);
            PostsFirst(d, a) + PostsLast(d, a) == TellsOf(h, Io(fd, polled))
    ensures fd in h.epoll ==> NoneIllegal(TellsOf(h, Io(fd, polled)))
  {
    hide LastAnswer, MaskOf, NextPort;
    if fd in h.epoll { TellOk(h.sockets[fd], h.books[fd]); }
  }

  lemma PermittedAct(d: Desc, polled: Polled)
    ensures Permitted(d, ActOf(polled))
  {
  }

  lemma {:induction false} PollAllKeeps(h: Handler, batch: seq<PollEvent>)
    requires Coherence(h)
    ensures Coherence(PollAll(h, batch))
    decreases |batch|
  {
    hide Coherence, Poll;
    if batch != [] {
      PollAllKeeps(h, batch[..|batch| - 1]);
      PollKeeps(PollAll(h, batch[..|batch| - 1]), batch[|batch| - 1]);
    }
  }

  /** One turn of the handler: a batch of events, and the messages behind the
      interrupt, if there was one. */
  datatype Turn = Turn(batch: seq<PollEvent>, messages: seq<Message>)

  function Take(h: Handler, t: Turn): Maybe<Handler>
  {
    if Interrupt in t.batch then DeliverAll(PollAll(h, t.batch), t.messages) else Some(PollAll(h, t.batch))
  }

  function TakeAll(h: Handler, ts: seq<Turn>): Maybe<Handler> { InTurn(Take, h, ts) }

  lemma TakeKeeps(h: Handler, t: Turn)
    requires Coherence(h)
    ensures Take(h, t).Some? ==> Coherence(Take(h, t).value)
  {
    hide Coherence, PollAll, DeliverAll;
    PollAllKeeps(h, t.batch);
    DeliverAllKeeps(PollAll(h, t.batch), t.messages);
  }

  /** Over every run from the start, with whatever answers the kernel gives: a
      descriptor is registered exactly if it has a mask and its last ADD was
      accepted, then with the interest of that mask; and the books of every
      listening descriptor balance, a refused ADD counting as a message to each
      of its ports. */
  lemma {:induction false} HandlerRuns(h: Handler, ts: seq<Turn>)
    requires Coherence(h)
    ensures TakeAll(h, ts).Some? ==> Coherence(TakeAll(h, ts).value)
    decreases |ts|
  {
    hide Coherence, Take;
    if ts != [] {
      var front, t := ts[..|ts| - 1], ts[|ts| - 1];
      HandlerRuns(h, front);
      if TakeAll(h, front).Some? { TakeKeeps(TakeAll(h, front).value, t); }
    }
  }

  // ---------------------------------------------------------------- no more than the tokens allow

  ghost predicate AllFunded(h: Handler) { forall fd :: fd in h.sockets ==> Funded(h.sockets[fd]) }

  lemma ChangeFunded(h: Handler, fd: Fd, a: Act)
    requires h.Has(fd) && Permitted(h.sockets[fd], a) && AllFunded(h)
    requires a.Tell? || a.TellAll? ==> MaskOf(h.sockets[fd]) != 0
    ensures AllFunded(Change(h, fd, a))
  {
    hide Change, MaskOf, Acted, Permitted, Funded;
    ChangeDoes(h, fd, a);
    var e := Acted(h.sockets[fd], a);
    ActedFunded(h.sockets[fd], a);
    NoCommand(e, TellAll(CLOSE_EVENT));
    if MaskOf(e) != 0 { ActedFunded(e, TellAll(CLOSE_EVENT)); }
  }

  lemma NoCommand(d: Desc, a: Act)
    requires !a.Obeys?
    ensures Permitted(d, a)
  {
  }

  lemma MessageFunded(h: Handler, m: Message)
    requires Coherence(h) && AllFunded(h)
    ensures Deliver(h, m).Some? ==> AllFunded(Deliver(h, m).value)
  {
    hide Coherence, Change, Allowed, Funded;
    if m.Socket? && Deliver(h, m).Some? {
      var fd, c, g := m.fd, m.command, Known(h, m.fd, m.listening);
      KnownKeeps(h, fd, m.listening);
      NewFunded(m.listening);
      if !(c.ShutdownRead? || c.ShutdownWrite?) { ChangeFunded(g, fd, Obeys(c)); }
    }
  }

  lemma NewFunded(listening: bool)
    ensures Funded(NewDesc(listening))
  {
  }

  lemma {:induction false} MessagesFunded(h: Handler, ms: seq<Message>)
    requires Coherence(h) && AllFunded(h)
    ensures DeliverAll(h, ms).Some? ==> AllFunded(DeliverAll(h, ms).value)
    decreases |ms|
  {
    hide Coherence, Deliver, AllFunded;
    if ms != [] {
      var front := ms[..|ms| - 1];
      MessagesFunded(h, front);
      DeliverAllKeeps(h, front);
      if DeliverAll(h, front).Some? { MessageFunded(DeliverAll(h, front).value, ms[|ms| - 1]); }
    }
  }

  /** The descriptors of the events from `i` on are registered. */
  ghost predicate Live(h: Handler, batch: seq<PollEvent>, i: nat)
  {
    forall j :: i <= j < |batch| && batch[j].Io? ==> batch[j].fd in h.epoll
  }

  lemma EventFunded(h: Handler, batch: seq<PollEvent>, i: nat)
    requires Coherence(h) && AllFunded(h) && FromKernel(batch) && i < |batch| && Live(h, batch, i)
    ensures AllFunded(Poll(h, batch[i])) && Live(Poll(h, batch[i]), batch, i + 1)
  {
    hide FdOk, Change, MaskOf, ActOf, Acted, Funded;
    var e := batch[i];
    if e.Io? {
      WatchedMask(h, e.fd);
      PermittedAct(h.sockets[e.fd], e.polled);
      ChangeFunded(h, e.fd, ActOf(e.polled));
      ChangeKeeps(h, e.fd, ActOf(e.polled));
    }
  }

  lemma WatchedMask(h: Handler, fd: Fd)
    requires Coherence(h) && fd in h.epoll
    ensures h.Has(fd) && MaskOf(h.sockets[fd]) != 0
  {
    assert FdOk(h, fd);
  }

  lemma {:induction false} BatchFunded(h: Handler, batch: seq<PollEvent>, i: nat)
    requires Coherence(h) && AllFunded(h) && FromKernel(batch) && i <= |batch| && Live(h, batch, 0)
    ensures Coherence(PollAll(h, batch[..i])) && AllFunded(PollAll(h, batch[..i]))
    ensures Live(PollAll(h, batch[..i]), batch, i)
    decreases i
  {
    hide Coherence, AllFunded, FromKernel, Live, Poll;
    if i > 0 {
      BatchFunded(h, batch, i - 1);
      assert batch[..i][..i - 1] == batch[..i - 1];
      EventFunded(PollAll(h, batch[..i - 1]), batch, i - 1);
      PollKeeps(PollAll(h, batch[..i - 1]), batch[i - 1]);
    }
  }

  lemma TurnFunded(h: Handler, t: Turn)
    requires Coherence(h) && AllFunded(h) && FromKernel(t.batch) && Live(h, t.batch, 0)
    ensures Take(h, t).Some? ==> AllFunded(Take(h, t).value)
  {
    hide Coherence, AllFunded, FromKernel, Live, Poll, Deliver;
    BatchFunded(h, t.batch, |t.batch|);
    assert t.batch[..|t.batch|] == t.batch;
    MessagesFunded(PollAll(h, t.batch), t.messages);
  }

  /** The events of each turn are of descriptors registered when it begins. */
  ghost predicate AllLive(h: Handler, ts: seq<Turn>)
  {
    forall i :: 0 <= i < |ts| && TakeAll(h, ts[..i]).Some? ==>
      FromKernel(ts[i].batch) && Live(TakeAll(h, ts[..i]).value, ts[i].batch, 0)
  }

  /** Over every run in which the kernel reports only on what is registered, a
      descriptor with one port is never told without a token: no more than 16
      messages are out that it has not returned. */
  lemma {:induction false} RunsFunded(h: Handler, ts: seq<Turn>)
    requires Coherence(h) && AllFunded(h) && AllLive(h, ts)
    ensures TakeAll(h, ts).Some? ==> AllFunded(TakeAll(h, ts).value)
    decreases |ts|
  {
    hide Coherence, AllFunded, FromKernel, Live, Take;
    if ts != [] {
      var front, t := ts[..|ts| - 1], ts[|ts| - 1];
      FrontLive(h, ts);
      RunsFunded(h, front);
      HandlerRuns(h, front);
      if TakeAll(h, front).Some? { TurnFunded(TakeAll(h, front).value, t); }
    }
  }

  lemma FrontLive(h: Handler, ts: seq<Turn>)
    requires AllLive(h, ts) && ts != []
    ensures AllLive(h, ts[..|ts| - 1])
  {
    hide FromKernel, Live, TakeAll;
    var front := ts[..|ts| - 1];
    forall i | 0 <= i < |front| ensures front[..i] == ts[..i] && front[i] == ts[i] {}
  }

  // ---------------------------------------------------------------- timers and shutdown

  /** The messages that a turn reads. */
  function Heard(t: Turn): seq<Message> { if Interrupt in t.batch then t.messages else [] }

  /** The timeouts of a batch. */
  function Timeouts(batch: seq<PollEvent>): seq<Move>
  {
    if batch == [] then []
    else Timeouts(batch[..|batch| - 1]) + if batch[|batch| - 1].TimerExpired? then [Expire] else []
  }

  ghost predicate AnyShutdown(ts: seq<Turn>) { exists i :: 0 <= i < |ts| && Shutdown in Heard(ts[i]) }

  lemma NoShutdown()
    ensures !AnyShutdown([])
  {
  }

  lemma AnyShutdownLast(ts: seq<Turn>)
    requires ts != []
    ensures AnyShutdown(ts) <==> AnyShutdown(ts[..|ts| - 1]) || Shutdown in Heard(ts[|ts| - 1])
  {
    hide Heard;
    var front := ts[..|ts| - 1];
    if i :| 0 <= i < |front| && Shutdown in Heard(front[i]) { assert Shutdown in Heard(ts[i]); }
  }

  /** What a turn means for the timers. */
  function TurnMoves(t: Turn): seq<Move> { Timeouts(t.batch) + MovesIn(Heard(t)) }

  /** What turns mean for the timers. */
  function Moves(ts: seq<Turn>): seq<Move>
  {
    if ts == [] then []
    else Moves(ts[..|ts| - 1]) + TurnMoves(ts[|ts| - 1])
  }

  lemma ChangeIsApart(h: Handler, fd: Fd, a: Act)
    requires h.Has(fd) && Permitted(h.sockets[fd], a)
    ensures Change(h, fd, a).heap == h.heap && Change(h, fd, a).shutdown == h.shutdown
  {
    hide MaskOf, InterestOf, Acted, Booked, Permitted;
  }

  lemma {:induction false} BatchMoves(h: Handler, batch: seq<PollEvent>)
    ensures PollAll(h, batch).heap == Timers.After(h.heap, Timeouts(batch)) && PollAll(h, batch).shutdown == h.shutdown
    decreases |batch|
  {
    hide Change, ActOf, RemovedAt, Moved;
    AfterOne(h.heap, Expire);
    if batch != [] {
      var front, e := batch[..|batch| - 1], batch[|batch| - 1];
      var g := PollAll(h, front);
      BatchMoves(h, front);
      if e.Io? && g.Has(e.fd) { PermittedAct(g.sockets[e.fd], e.polled); ChangeIsApart(g, e.fd, ActOf(e.polled)); }
      ExpireMoves(g.heap, e.TimerExpired?);
      AfterAppend(h.heap, Timeouts(front), if e.TimerExpired? then [Expire] else []);
    }
  }

  lemma {:induction false} MessagesMove(h: Handler, ms: seq<Message>)
    requires Coherence(h)
    ensures DeliverAll(h, ms).Some? ==>
              && DeliverAll(h, ms).value.heap == Timers.After(h.heap, MovesIn(ms))
              && DeliverAll(h, ms).value.shutdown == (h.shutdown || Shutdown in ms)
    decreases |ms|
  {
    hide Coherence, Commanded, Allowed, Updated, PlaceOf;
    AfterOne(h.heap, Expire);
    if ms != [] {
      var front, m := ms[..|ms| - 1], ms[|ms| - 1];
      MessagesMove(h, front);
      DeliverAllKeeps(h, front);
      AfterAppend(h.heap, MovesIn(front), MoveOf(m));
      assert Shutdown in ms <==> Shutdown in front || m == Shutdown;
      if DeliverAll(h, ms).Some? {
        var g := DeliverAll(h, front).value;
        MessageMoves(g.heap, m);
        if m.Socket? { CommandIsApart(g, m.fd, m.listening, m.command); }
      }
    }
  }

  lemma CommandIsApart(h: Handler, fd: Fd, listening: bool, c: Command)
    requires Coherence(h) && Allowed(DescFor(h.sockets, fd, listening), c)
    ensures var g := Commanded(h, fd, listening, c); g.heap == h.heap && g.shutdown == h.shutdown
  {
    hide Change, Allowed, FdOk, Coherence;
    if fd in h.sockets { KnownOk(h, fd); }
    KnownKeeps(h, fd, listening);
    ChangeIsApart(Known(h, fd, listening), fd, Obeys(c));
  }

  /** Over every run, the queue is what the timer messages and timeouts, in turn,
      make of it, whatever happens to the descriptors; and the handler is shut
      down exactly if one of the messages read says so. */
  lemma {:induction false} RunMoves(h: Handler, ts: seq<Turn>)
    requires Coherence(h)
    ensures TakeAll(h, ts).Some? ==>
              && TakeAll(h, ts).value.heap == Timers.After(h.heap, Moves(ts))
              && (TakeAll(h, ts).value.shutdown <==> h.shutdown || AnyShutdown(ts))
    decreases |ts|
  {
    hide Coherence, Take, TurnMoves, AnyShutdown;
    AfterOne(h.heap, Expire);
    NoShutdown();
    if ts != [] {
      var front, t := ts[..|ts| - 1], ts[|ts| - 1];
      RunMoves(h, front);
      HandlerRuns(h, front);
      if TakeAll(h, ts).Some? {
        OneTurnMoves(TakeAll(h, front).value, t);
        AfterAppend(h.heap, Moves(front), TurnMoves(t));
        AnyShutdownLast(ts);
      }
    }
  }

  lemma OneTurnMoves(h: Handler, t: Turn)
    requires Coherence(h)
    ensures Take(h, t).Some? ==>
              && Take(h, t).value.heap == Timers.After(h.heap, TurnMoves(t))
              && Take(h, t).value.shutdown == (h.shutdown || Shutdown in Heard(t))
  {
    hide Coherence, PollAll, Timeouts, Deliver;
    var g := PollAll(h, t.batch);
    BatchMoves(h, t.batch);
    PollAllKeeps(h, t.batch);
    MessagesMove(g, Heard(t));
    AfterAppend(h.heap, Timeouts(t.batch), MovesIn(Heard(t)));
  }

  lemma NothingToBegin(answers: seq<bool>)
    ensures Coherence(NO_SOCKETS.(answers := answers))
  {
  }

  /** After a set-mask command the kernel watches a file with one port, while it
      has tokens, for exactly the events asked for; and a listening one whose
      port asked to read and has tokens; unless it refused to. */
  lemma WatchesAsAsked(h: Handler, fd: Fd, listening: bool, c: Command)
    requires Coherence(h) && Allowed(DescFor(h.sockets, fd, listening), c) && c.SetEventMask?
    ensures var d, g := DescFor(h.sockets, fd, listening), Commanded(h, fd, listening, c);
            LastAnswer(g.adds, fd) != Refused ==>
              && (d.Single? && d.tokens > 0 ==>
                    && (fd in g.epoll <==> c.events != 0)
                    && (fd in g.epoll ==> g.epoll[fd] == Interest(c.events % 2 == 1, c.events >= OUT, true)))
              && (d.Multiple? && c.events == IN && (c.port in d.multi.ports ==> d.multi.ports[c.port].tokens > 0) ==>
                    fd in g.epoll && g.epoll[fd] == Interest(true, false, false))
  {
    hide LastAnswer, OnlyChanged, Change, DescOk, Allowed, Known, MaskOf, Acted, FdOk;
    KnownKeeps(h, fd, listening);
    var k := Known(h, fd, listening);
    ChangeKeeps(k, fd, Obeys(c));
    var g := Change(k, fd, Obeys(c));
    assert FdOk(k, fd) && FdOk(g, fd);
    Watched(k, g, fd, c);
  }

  lemma Watched(h: Handler, g: Handler, fd: Fd, c: Command)
    requires FdOk(h, fd) && FdOk(g, fd) && c.SetEventMask? && Allowed(h.sockets[fd], c)
    requires g.sockets[fd] == Acted(h.sockets[fd], Obeys(c)) || LastAnswer(g.adds, fd) == Refused
    ensures var d := h.sockets[fd];
            LastAnswer(g.adds, fd) != Refused ==>
              && (d.Single? && d.tokens > 0 ==>
                    && (fd in g.epoll <==> c.events != 0)
                    && (fd in g.epoll ==> g.epoll[fd] == Interest(c.events % 2 == 1, c.events >= OUT, true)))
              && (d.Multiple? && c.events == IN && (c.port in d.multi.ports ==> d.multi.ports[c.port].tokens > 0) ==>
                    fd in g.epoll && g.epoll[fd] == Interest(true, false, false))
  {
    Asked(h.sockets[fd], h.books[fd], c);
  }

  // ---------------------------------------------------------------- the handler

  class EventHandler {
    var sockets: map<Fd, Desc>
    var answers: seq<bool>                 // what the kernel will say to the next ADDs
    var posted: seq<Notice>
    ghost var books: map<Fd, Books>
    ghost var epoll: map<Fd, Interest>     // the kernel's registrations
    ghost var adds: seq<AddCall>
    const timers: TimeoutTimer
    var shutdown: bool

    ghost function Now(): Handler
      reads this, timers, timers.queue
    {
      Handler(sockets, books, epoll, adds, answers, posted, timers.queue.heap, shutdown)
    }

    ghost predicate Valid()
      reads this, timers, timers.queue
    {
      Coherence(Now()) && timers.Valid()
    }

    constructor (answers: seq<bool>)
      ensures Valid() && Now() == NO_SOCKETS.(answers := answers) && fresh(timers) && fresh(timers.queue)
    {
      timers := new TimeoutTimer();
      sockets, books, epoll, adds, shutdown, this.answers, posted := map[], map[], map[], [], false, answers, [];
      new;
      NothingToBegin(answers);
    }

    /** An operation of a descriptor, and what its ports are sent by it. */
    method Do(fd: Fd, a: Act)
      requires Now().Has(fd) && Permitted(sockets[fd], a)
      modifies this`sockets, this`books, this`posted
      ensures Now() == Put(old(Now()), fd, a)
    {
      if a.TellAll? { posted := posted + [Posted(PortsOf(sockets[fd]), a.mask)]; }
      books := books[fd := Booked(books[fd], sockets[fd], a)];
      sockets := sockets[fd := Acted(sockets[fd], a)];
    }

    /** epoll_ctl DEL; unregistered descriptors are left alone by the kernel. */
    method RemoveFromEpollInstance(fd: Fd)
      modifies this`epoll
      ensures Now() == Delete(old(Now()), fd)
    {
      epoll := epoll - {fd};
    }

    method AddToEpollInstance(fd: Fd)
      requires Now().Has(fd)
      modifies this`epoll, this`adds, this`answers, this`sockets, this`books, this`posted
      ensures Now() == Add(old(Now()), fd)
    {
      var accepted := true;
      if answers != [] {
        accepted, answers := answers[0], answers[1..];
      }
      adds := adds + [AddCall(fd, accepted)];
      if accepted {
        epoll := epoll[fd := InterestOf(sockets[fd])];
      } else {
        Do(fd, TellAll(CLOSE_EVENT));
      }
    }

    method UpdateEpollInstance(oldMask: int, fd: Fd)
      requires Now().Has(fd) && (sockets[fd].IsListening() ==> oldMask == 0 || oldMask == IN)
      modifies this`epoll, this`adds, this`answers, this`sockets, this`books, this`posted
      ensures Now() == Settle(old(Now()), oldMask, fd)
    {
      ListeningMask(sockets[fd]);
      var newMask := MaskOf(sockets[fd]);
      if oldMask != 0 && newMask == 0 {
        RemoveFromEpollInstance(fd);
      } else if oldMask == 0 && newMask != 0 {
        AddToEpollInstance(fd);
      } else if oldMask != 0 && newMask != 0 && oldMask != newMask {
        assert !sockets[fd].IsListening();
        RemoveFromEpollInstance(fd);
        AddToEpollInstance(fd);
      }
    }

    /** The descriptor for `fd`, new if there is none. */
    method GetDescriptorInfo(fd: Fd, listening: bool)
      requires fd in sockets ==> fd in books
      modifies this`sockets, this`books
      ensures Now() == Known(old(Now()), fd, listening)
    {
      if fd !in sockets {
        books := books[fd := map[]];
        sockets := sockets[fd := if listening then NEW_MULTIPLE else NEW_SINGLE];
      }
    }

    /** Something happens to a descriptor, and the kernel is told; what is posted
        after that is for the caller. */
    method ChangeTo(fd: Fd, a: Act)
      requires Now().Has(fd) && Permitted(sockets[fd], a) && Acted(sockets[fd], a).Single? == sockets[fd].Single?
      modifies this`epoll, this`adds, this`answers, this`sockets, this`books, this`posted
      ensures Now().(posted := posted + PostsLast(old(sockets)[fd], a)) == Change(old(Now()), fd, a)
    {
      ListeningMask(sockets[fd]);
      var oldMask := MaskOf(sockets[fd]);
      Do(fd, a);
      UpdateEpollInstance(oldMask, fd);
    }

    /** One command for a socket. */
    method HandleCommand(fd: Fd, listening: bool, c: Command)
      requires Coherence(Now()) && Allowed(DescFor(sockets, fd, listening), c)
      modifies this`epoll, this`adds, this`answers, this`sockets, this`books, this`posted
      ensures Now() == Commanded(old(Now()), fd, listening, c) && Coherence(Now())
    {
      hide DescOk, MaskOf, InterestOf, Acted, Allowed, Change, FdOk, PostsLast;
      CommandKeeps(Now(), fd, listening, c);
      KnownKeeps(Now(), fd, listening);
      GetDescriptorInfo(fd, listening);
      var d := sockets[fd];
      if c.ShutdownRead? || c.ShutdownWrite? {
        NotListening(d, c);
        assert !d.IsListening();
        return;
      }
      assert FdOk(Now(), fd);
      ClosedMask(Now(), fd, c);
      ActedKind(Now(), fd, Obeys(c));
      ChangeTo(fd, Obeys(c));
      if Closes(d, c) {
        assert MaskOf(Acted(d, Obeys(c))) == 0;
        sockets := sockets - {fd};
        books := books - {fd};
      }
      PostsClose(d, c);
      assert posted + [] == posted;
      if c.Close? { posted := posted + [Destroyed(c.port)]; }
    }

    /** One message. */
    method HandleMessage(m: Message) returns (ok: bool)
      requires Valid()
      modifies this, timers, timers.queue
      ensures Valid() && (ok <==> Deliver(old(Now()), m).Some?)
      ensures ok ==> Now() == Deliver(old(Now()), m).value
      ensures old(posted) <= posted
    {
      hide FdOk, Allowed, Commanded, TimeoutTimer.Valid;
      DeliverKeeps(Now(), m);
      DeliverPosts(Now(), m);
      match m {
        case Timer(port, deadline) => timers.HandleMessage(port, deadline);
        case Shutdown => shutdown := true;
        case Socket(fd, listening, command) =>
          if !Allowed(DescFor(sockets, fd, listening), command) { return false; }
          HandleCommand(fd, listening, command);
      }
      return true;
    }

    /** HandleInterruptFd; stops where a message breaks what the handler asserts
        of its senders. */
    method HandleInterruptFd(messages: seq<Message>) returns (ok: bool)
      requires Valid()
      modifies this, timers, timers.queue
      ensures Valid() && (ok <==> DeliverAll(old(Now()), messages).Some?)
      ensures ok ==> Now() == DeliverAll(old(Now()), messages).value
      ensures old(posted) <= posted
    {
      hide EventHandler.Valid, Deliver, EventHandler.Now;
      ghost var h := Now();
      for i := 0 to |messages|
        invariant Valid() && DeliverAll(h, messages[..i]) == Some(Now()) && old(posted) <= posted
      {
        assert messages[..i + 1][..i] == messages[..i];
        ok := HandleMessage(messages[i]);
        if !ok { BrokenOff(Deliver, h, messages, i + 1); return false; }
      }
      assert messages[..|messages|] == messages;
      return true;
    }

    /** One event on a registered descriptor: the port that is told exists. */
    method HandleIo(fd: Fd, polled: Polled)
      requires Coherence(Now()) && fd in epoll
      modifies this`epoll, this`adds, this`answers, this`sockets, this`books, this`posted
      ensures Now() == Change(old(Now()), fd, ActOf(polled))
      ensures var tells := TellsOf(old(Now()), Io(fd, polled)); posted == old(posted) + tells && NoneIllegal(tells)
    {
      hide DescOk, MaskOf, InterestOf, Acted, Change, LastAnswer;
      assert FdOk(Now(), fd);
      PermittedAct(sockets[fd], polled);
      ActedKind(Now(), fd, ActOf(polled));
      TellOk(sockets[fd], books[fd]);
      PollPosts(Now(), Io(fd, polled));
      var mask := GetPollEvents(polled);
      if mask.error {
        ChangeTo(fd, TellAll(mask));
        assert posted + [] == posted;
      } else if !mask.IsNone() {
        var port := NextPort(sockets[fd]);
        assert port != ILLEGAL_PORT;
        ChangeTo(fd, Tell(mask));
        posted := posted + [Posted({port}, mask)];
      } else {
        IdleChange(Now(), fd);
      }
    }

    method HandleEvent(batch: seq<PollEvent>, i: nat, now: int, ghost was: Handler)
      requires Valid() && FromKernel(batch) && i < |batch|
      requires Awaits(Now(), batch, i, was) && Due(timers.armed, batch, i, now)
      modifies this`epoll, this`adds, this`answers, this`sockets, this`books, this`posted, timers, timers.queue
      ensures Valid() && Awaits(Now(), batch, i + 1, was) && Due(timers.armed, batch, i + 1, now)
      ensures posted == old(posted) + TellsOf(was, batch[i]) && NoneIllegal(TellsOf(was, batch[i]))
      ensures Now() == Poll(old(Now()), batch[i])
    {
      hide Coherence, Change, TimeoutTimer.Valid, ActOf, NextPort, Millis, FromKernel, Awaits, Due;
      AwaitsNext(Now(), timers.armed, batch, i, was, now);
      match batch[i] {
        case Interrupt =>
        case TimerExpired => HandleTimer(batch, i, now, was);
        case Io(fd, polled) => HandleSocket(batch, i, fd, polled, was);
      }
    }

    method HandleTimer(batch: seq<PollEvent>, i: nat, now: int, ghost was: Handler)
      requires Valid() && FromKernel(batch) && i < |batch| && batch[i].TimerExpired?
      requires Awaits(Now(), batch, i + 1, was) && timers.armed != DISARMED && Millis(timers.armed) <= now
      modifies this`posted, timers, timers.queue
      ensures Valid() && Awaits(Now(), batch, i + 1, was) && Due(timers.armed, batch, i + 1, now)
      ensures Now() == Poll(old(Now()), batch[i]) && posted == old(posted) + TellsOf(old(Now()), batch[i])
    {
      hide Coherence, TimeoutTimer.Valid, RemovedAt, Ordered, Millis, FromKernel, Awaits, Due;
      ghost var h := Now();
      PollKeeps(h, batch[i]);
      var fired := timers.HandleEvent(now);
      posted := posted + [TimedOut(fired[0].value)];
      TimerOnce(Now(), h, timers.armed, batch, i, was, now);
    }

    method HandleSocket(batch: seq<PollEvent>, i: nat, fd: Fd, polled: Polled, ghost was: Handler)
      requires Valid() && FromKernel(batch) && i < |batch| && batch[i] == Io(fd, polled)
      requires Awaits(Now(), batch, i + 1, was) && fd in epoll && fd in sockets
      modifies this`epoll, this`adds, this`answers, this`sockets, this`books, this`posted
      ensures Valid() && Awaits(Now(), batch, i + 1, was)
      ensures posted == old(posted) + TellsOf(old(Now()), batch[i]) && NoneIllegal(TellsOf(old(Now()), batch[i]))
      ensures Now() == Poll(old(Now()), batch[i])
    {
      hide FdOk, Change, TimeoutTimer.Valid, ActOf, NextPort, OnlyChanged, FromKernel, Awaits, TellsOf;
      ghost var h := Now();
      PollKeeps(h, batch[i]);
      PermittedAct(sockets[fd], polled);
      ChangeKeeps(h, fd, ActOf(polled));
      HandleIo(fd, polled);
      OthersAwait(h, Now(), batch, i, was);
    }

    /** HandleEvents on a batch of events of distinct descriptors that were
        registered when it was fetched; interrupts are handled last. */
    method HandleEvents(batch: seq<PollEvent>, messages: seq<Message>, now: int) returns (ok: bool)
      requires Valid() && FromKernel(batch)
      requires forall i :: 0 <= i < |batch| && batch[i].Io? ==> batch[i].fd in epoll
      requires TimerExpired in batch ==> timers.armed != DISARMED && Millis(timers.armed) <= now
      modifies this, timers, timers.queue
      ensures Valid() && NoneIllegal(Told(old(Now()), batch)) && old(posted) + Told(old(Now()), batch) <= posted
      ensures ok <==> Take(old(Now()), Turn(batch, messages)).Some?
      ensures ok ==> Now() == Take(old(Now()), Turn(batch, messages)).value
    {
      hide FdOk, TimeoutTimer.Valid, Poll, TellsOf, DeliverAll;
      KnownIfRegistered(Now());
      ghost var h, before := Now(), posted;
      var interrupt := false;
      for i := 0 to |batch|
        invariant Valid() && posted == before + Told(h, batch[..i]) && NoneIllegal(Told(h, batch[..i]))
        invariant Awaits(Now(), batch, i, h) && Due(timers.armed, batch, i, now)
        invariant Now() == PollAll(h, batch[..i])
        invariant interrupt <==> Interrupt in batch[..i]
      {
        assert batch[..i + 1][..i] == batch[..i];
        if batch[i].Interrupt? { interrupt := true; }
        HandleEvent(batch, i, now, h);
      }
      assert batch[..|batch|] == batch;
      ok := true;
      if interrupt {
        ok := HandleInterruptFd(messages);
      }
    }
  }

  /** The rest of a batch can be handled: its descriptors are registered and as
      they were when it was fetched, and so is the queue if its timer event is
      still to come. */
  ghost predicate Awaits(h: Handler, batch: seq<PollEvent>, i: nat, was: Handler)
  {
    forall j :: i <= j < |batch| ==>
      && (batch[j].Io? ==>
            && batch[j].fd in h.epoll && batch[j].fd in h.sockets && batch[j].fd in was.sockets
            && h.sockets[batch[j].fd] == was.sockets[batch[j].fd])
      && (batch[j].TimerExpired? ==> h.heap == was.heap)
  }

  /** And its timer event is due. */
  ghost predicate Due(armed: TimerSpec, batch: seq<PollEvent>, i: nat, now: int)
  {
    forall j :: i <= j < |batch| && batch[j].TimerExpired? ==> armed != DISARMED && Millis(armed) <= now
  }

  lemma AwaitsNext(h: Handler, armed: TimerSpec, batch: seq<PollEvent>, i: nat, was: Handler, now: int)
    requires Awaits(h, batch, i, was) && Due(armed, batch, i, now) && i < |batch|
    ensures Awaits(h, batch, i + 1, was) && Due(armed, batch, i + 1, now)
    ensures batch[i].Io? ==> batch[i].fd in h.epoll && batch[i].fd in h.sockets
    ensures batch[i].TimerExpired? ==> armed != DISARMED && Millis(armed) <= now
    ensures TellsOf(h, batch[i]) == TellsOf(was, batch[i])
  {
  }

  lemma TimerOnce(g: Handler, h: Handler, armed: TimerSpec, batch: seq<PollEvent>, i: nat, was: Handler, now: int)
    requires FromKernel(batch) && i < |batch| && batch[i].TimerExpired? && Awaits(h, batch, i + 1, was)
    requires g.sockets == h.sockets && g.epoll == h.epoll
    ensures Awaits(g, batch, i + 1, was) && Due(armed, batch, i + 1, now)
  {
  }

  lemma OthersAwait(h: Handler, g: Handler, batch: seq<PollEvent>, i: nat, was: Handler)
    requires FromKernel(batch) && i < |batch| && batch[i].Io? && Awaits(h, batch, i + 1, was)
    requires OnlyChanged(h, g, batch[i].fd)
    ensures Awaits(g, batch, i + 1, was)
  {
  }

  lemma ActedKind(h: Handler, fd: Fd, a: Act)
    requires FdOk(h, fd) && Permitted(h.sockets[fd], a)
    ensures Acted(h.sockets[fd], a).Single? == h.sockets[fd].Single?
  {
    ActedOk(h.sockets[fd], h.books[fd], a);
  }

  /** An event with nothing to tell changes nothing. */
  lemma IdleChange(h: Handler, fd: Fd)
    requires h.Has(fd)
    ensures Change(h, fd, Idle) == h
  {
    assert h.sockets[fd := h.sockets[fd]] == h.sockets && h.books[fd := h.books[fd]] == h.books;
  }

  lemma KnownIfRegistered(h: Handler)
    requires Coherence(h)
    ensures forall fd :: fd in h.epoll ==> fd in h.sockets
  {
  }

  /** One event per descriptor, and at most one for the timer. */
  ghost predicate FromKernel(batch: seq<PollEvent>)
  {
    forall i, j :: 0 <= i < j < |batch| ==>
      && (batch[i].Io? && batch[j].Io? ==> batch[i].fd != batch[j].fd)
      && !(batch[i].TimerExpired? && batch[j].TimerExpired?)
  }
}
