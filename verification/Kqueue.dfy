/** The kqueue event handler of macOS. A descriptor has up to two filters, added
    by one call that may fail between them, and a flag that says whether the
    call succeeded. */
module Kqueue {
  import opened Basics
  import opened Heap
  import opened Scheduler
  import opened Timers
  import opened Sockets

  datatype Filters = Filters(read: bool, write: bool)

  const NONE := Filters(false, false)

  /** The filters that a mask asks for. */
  function FiltersOf(d: Desc): Filters
  {
    var mask := MaskOf(d);
    Filters(mask == IN || mask == IN + OUT, mask == OUT || mask == IN + OUT)
  }

  /** A descriptor, its tracked_by_kqueue_ flag, the filters that the kernel has
      for it, and what its ports were sent. */
  datatype Watch = Watch(desc: Desc, tracked: bool, have: Filters, books: Books)

  /** The filters that the flag stands for. */
  function Wanted(w: Watch): Filters { if w.tracked then FiltersOf(w.desc) else NONE }

  datatype Answer = Accepted | RefusedFirst | RefusedSecond

  /** A kevent call: filters added, with the answer to it; those of a tracked
      descriptor removed; or the file closed. */
  datatype Call = Added(fd: Fd, want: Filters, answer: Answer) | Removed(fd: Fd) | Closed(fd: Fd)

  /** The call stopped at a change that was refused. */
  predicate Fails(want: Filters, answer: Answer)
  {
    answer.RefusedFirst? || (answer.RefusedSecond? && want.read && want.write)
  }

  /** An add of both filters was refused between them since the filters of the
      descriptor were last removed. */
  function Half(calls: seq<Call>, fd: Fd): bool
  {
    if calls == [] then false
    else
      var c := calls[|calls| - 1];
      if c.fd != fd then Half(calls[..|calls| - 1], fd)
      else c.Added? && ((c.want.read && c.want.write && c.answer.RefusedSecond?) || Half(calls[..|calls| - 1], fd))
  }

  /** The last add for the descriptor succeeded. */
  function LastWorked(calls: seq<Call>, fd: Fd): bool
  {
    if calls == [] then false
    else
      var c := calls[|calls| - 1];
      if c.fd == fd && c.Added? then !Fails(c.want, c.answer) else LastWorked(calls[..|calls| - 1], fd)
  }

  // ---------------------------------------------------------------- the handler as a value

  /** `answers` are those that the kernel will give to the next adds, `posted` is
      all that was posted. */
  datatype Handler = Handler(watches: map<Fd, Watch>, calls: seq<Call>, answers: seq<Answer>, posted: seq<Notice>,
                             heap: seq<Entry<Port>>, shutdown: bool)
  {
    /** The answer to the next add. */
    function Answers(): Answer { if answers == [] then Accepted else answers[0] }
  }

  const NO_WATCHES := Handler(map[], [], [], [], [], false)

  function Put(w: Watch, a: Act): Watch
    requires Permitted(w.desc, a)
  {
    w.(desc := Acted(w.desc, a), books := Booked(w.books, w.desc, a))
  }

  /** RemoveFromKqueue: only what is marked as tracked. */
  function Untrack(h: Handler, fd: Fd): (g: Handler)
    requires fd in h.watches
    ensures fd in g.watches
  {
    var w := h.watches[fd];
    if !w.tracked then h
    else h.(watches := h.watches[fd := w.(tracked := false, have := NONE)], calls := h.calls + [Removed(fd)])
  }

  /** What an add makes of a descriptor: all its filters and the flag; or a close
      for every port, with the READ filter there if only the other was refused. */
  function AddedTo(w: Watch, answer: Answer): Watch
  {
    var want := FiltersOf(w.desc);
    if Fails(want, answer) then Put(w.(have := Filters(w.have.read || answer.RefusedSecond?, w.have.write)),
                                       TellAll(CLOSE_EVENT))
    else w.(tracked := true, have := Filters(w.have.read || want.read, w.have.write || want.write))
  }

  function Add(h: Handler, fd: Fd): (g: Handler)
    requires fd in h.watches
    ensures fd in g.watches
  {
    var d, answer := h.watches[fd].desc, h.Answers();
    h.(watches := h.watches[fd := AddedTo(h.watches[fd], answer)],
       calls := h.calls + [Added(fd, FiltersOf(d), answer)],
       answers := if h.answers == [] then [] else h.answers[1..],
       posted := h.posted + if Fails(FiltersOf(d), answer) then [Posted(PortsOf(d), CLOSE_EVENT)] else [])
  }

  /** UpdateKQueueInstance. */
  function Settle(h: Handler, oldMask: int, fd: Fd): (g: Handler)
    requires fd in h.watches
    ensures fd in g.watches
  {
    var newMask := MaskOf(h.watches[fd].desc);
    if oldMask != 0 && newMask == 0 then Untrack(h, fd)
    else if oldMask == 0 && newMask != 0 then Add(h, fd)
    else if oldMask != 0 && newMask != 0 && oldMask != newMask then Add(Untrack(h, fd), fd)
    else h
  }

  /** What happens before the kernel is told. */
  function Begun(h: Handler, fd: Fd, a: Act): (g: Handler)
    requires fd in h.watches && Permitted(h.watches[fd].desc, a)
    ensures fd in g.watches
  {
    h.(watches := h.watches[fd := Put(h.watches[fd], a)], posted := h.posted + PostsFirst(h.watches[fd].desc, a))
  }

  function Change(h: Handler, fd: Fd, a: Act): (g: Handler)
    requires fd in h.watches && Permitted(h.watches[fd].desc, a)
    ensures fd in g.watches
  {
    var d := h.watches[fd].desc;
    var g := Settle(Begun(h, fd, a), MaskOf(d), fd);
    g.(posted := g.posted + PostsLast(d, a))
  }

  function DescAt(watches: map<Fd, Watch>, fd: Fd, listening: bool): Desc
  {
    if fd in watches then watches[fd].desc else NewDesc(listening)
  }

  /** GetDescriptorInfo. */
  function Known(h: Handler, fd: Fd, listening: bool): (g: Handler)
    ensures fd in g.watches && g.watches[fd].desc == DescAt(h.watches, fd, listening)
  {
    if fd in h.watches then h
    else h.(watches := h.watches[fd := Watch(DescAt(h.watches, fd, listening), false, NONE, map[])])
  }

  /** The file is closed, which drops whatever filters are left. */
  function Drop(h: Handler, fd: Fd): Handler { h.(watches := h.watches - {fd}, calls := h.calls + [Closed(fd)]) }

  function Commanded(h: Handler, fd: Fd, listening: bool, c: Command): Handler
    requires Allowed(DescAt(h.watches, fd, listening), c)
  {
    var g := Known(h, fd, listening);
    if c.ShutdownRead? || c.ShutdownWrite? then g
    else
      var k := Change(g, fd, Obeys(c));
      if Closes(g.watches[fd].desc, c) then Drop(k, fd) else k
  }

  /** One message; None where it breaks what the handler asserts of its senders. */
  function Deliver(h: Handler, m: Message): Maybe<Handler>
  {
    match m
    case Timer(port, deadline) => Some(h.(heap := Updated(h.heap, PlaceOf(h.heap, port), port, deadline)))
    case Shutdown => Some(h.(shutdown := true))
    case Socket(fd, listening, c) =>
      if Allowed(DescAt(h.watches, fd, listening), c) then Some(Commanded(h, fd, listening, c)) else None
  }

  function DeliverAll(h: Handler, ms: seq<Message>): Maybe<Handler> { InTurn(Deliver, h, ms) }

  /** One kevent: the filter that fired, with its end-of-file flags. */
  datatype Kevent = Kevent(fd: Fd, write: bool, eof: bool, failed: bool)

  /** GetEvents; Unexpected where the source has UNREACHABLE. */
  datatype Events = Unexpected | Mask(mask: EventMask)

  function GetEvents(e: Kevent, listening: bool): Events
  {
    if listening && e.write then Unexpected
    else if listening then Mask(EventMask(!e.eof, false, e.eof && e.failed, e.eof && !e.failed))
    else if e.eof && e.failed then Mask(EventMask(false, false, true, false))
    else if e.write then Mask(EventMask(false, true, false, false))
    else Mask(EventMask(true, false, false, e.eof))
  }

  /** What an event does to its descriptor. */
  function ActOf(e: Kevent, listening: bool): Act
  {
    match GetEvents(e, listening)
    case Unexpected => Idle
    case Mask(mask) => if mask.error then TellAll(mask) else Tell(mask)
  }

  function Hear(h: Handler, e: Kevent): Handler
  {
    if e.fd in h.watches then Change(h, e.fd, ActOf(e, h.watches[e.fd].desc.IsListening())) else h
  }

  function HearAll(h: Handler, batch: seq<Kevent>): Handler
  {
    if batch == [] then h else Hear(HearAll(h, batch[..|batch| - 1]), batch[|batch| - 1])
  }

  /** What is posted for an event, by its filter and flags alone: an end of file
      with an error to all ports; anything else to the one whose turn it is. An
      end of file is told as a close, to a listening one instead of input, of a
      READ filter besides it, and of a WRITE filter not at all. */
  function TellsOf(h: Handler, e: Kevent): seq<Notice>
  {
    if e.fd !in h.watches || (e.write && h.watches[e.fd].desc.Multiple?) then []
    else
      var d := h.watches[e.fd].desc;
      if e.eof && e.failed then [Posted(PortsOf(d), ERROR_EVENT)]
      else [Posted({NextPort(d)}, EventMask(!e.write && (d.Single? || !e.eof), e.write, false, e.eof && !e.write))]
  }

  function Told(h: Handler, batch: seq<Kevent>): seq<Notice> { ToldBy(TellsOf, h, batch) }

  // ---------------------------------------------------------------- what the kernel holds

  /** The kernel holds exactly the filters that the flag stands for, and the READ
      filter of an add that was refused in between. */
  ghost predicate WatchOk(w: Watch, half: bool, worked: bool)
  {
    && DescOk(w.desc, w.books)
    && (w.tracked <==> MaskOf(w.desc) != 0 && worked)
    && w.have == Filters(Wanted(w).read || half, Wanted(w).write)
    && (half ==> w.desc.Single?)
    && (w.desc.Single? && w.have != NONE ==> w.desc.port != ILLEGAL_PORT)
  }

  ghost predicate FdOk(h: Handler, fd: Fd)
  {
    fd in h.watches && WatchOk(h.watches[fd], Half(h.calls, fd), LastWorked(h.calls, fd))
  }

  ghost predicate Consistent(h: Handler)
  {
    && (forall fd :: fd in h.watches ==> FdOk(h, fd))
    && (forall fd :: Half(h.calls, fd) ==> fd in h.watches)
  }

  /** In a state of any run, the filters of a descriptor are exactly those that
      its flag and mask stand for, if and only if no add of both was refused
      between them since they were last removed, or the READ filter is wanted. */
  lemma FiltersExactly(h: Handler, fd: Fd)
    requires Consistent(h) && fd in h.watches
    ensures var w := h.watches[fd]; w.have == Wanted(w) <==> !Half(h.calls, fd) || Wanted(w).read
  {
    assert FdOk(h, fd);
  }

  /** A descriptor that was never asked to watch both always has exactly its
      filters. */
  lemma NeverBoth(h: Handler, fd: Fd)
    requires Consistent(h) && fd in h.watches
    requires forall i :: 0 <= i < |h.calls| && h.calls[i].Added? && h.calls[i].fd == fd ==>
               !(h.calls[i].want.read && h.calls[i].want.write)
    ensures h.watches[fd].have == Wanted(h.watches[fd])
  {
    NeverHalf(h.calls, fd);
    FiltersExactly(h, fd);
  }

  lemma {:induction false} NeverHalf(calls: seq<Call>, fd: Fd)
    requires forall i :: 0 <= i < |calls| && calls[i].Added? && calls[i].fd == fd ==>
               !(calls[i].want.read && calls[i].want.write)
    ensures !Half(calls, fd)
  {
    if calls != [] { NeverHalf(calls[..|calls| - 1], fd); }
  }

  // ---------------------------------------------------------------- every step keeps it

  /** Nothing but `fd` differs. */
  ghost predicate OnlyChanged(h: Handler, g: Handler, fd: Fd)
  {
    && g.watches.Keys == h.watches.Keys && g.heap == h.heap && g.shutdown == h.shutdown
    && forall x :: x != fd ==>
         && (x in h.watches ==> g.watches[x] == h.watches[x])
         && Half(g.calls, x) == Half(h.calls, x) && LastWorked(g.calls, x) == LastWorked(h.calls, x)
  }

  lemma OnlyChangedTrans(h: Handler, g: Handler, k: Handler, fd: Fd)
    requires OnlyChanged(h, g, fd) && OnlyChanged(g, k, fd)
    ensures OnlyChanged(h, k, fd)
  {
  }

  lemma CallMade(calls: seq<Call>, c: Call)
    ensures forall x :: x != c.fd ==>
              Half(calls + [c], x) == Half(calls, x) && LastWorked(calls + [c], x) == LastWorked(calls, x)
    ensures Half(calls + [c], c.fd) <==>
              c.Added? && ((c.want.read && c.want.write && c.answer.RefusedSecond?) || Half(calls, c.fd))
    ensures LastWorked(calls + [c], c.fd) == if c.Added? then !Fails(c.want, c.answer) else LastWorked(calls, c.fd)
  {
    assert (calls + [c])[..|calls|] == calls;
  }

  lemma StaysConsistent(h: Handler, g: Handler, fd: Fd)
    requires Consistent(h) && OnlyChanged(h, g, fd) && FdOk(g, fd)
    ensures Consistent(g)
  {
    hide WatchOk, Half, LastWorked;
    forall x | x in g.watches ensures FdOk(g, x) { if x != fd { assert FdOk(h, x); } }
  }

  lemma RemoveOk(h: Handler, fd: Fd)
    requires fd in h.watches
    ensures var w, g := h.watches[fd], Untrack(h, fd);
            && OnlyChanged(h, g, fd) && LastWorked(g.calls, fd) == LastWorked(h.calls, fd)
            && Half(g.calls, fd) == (!w.tracked && Half(h.calls, fd))
            && g.watches[fd] == (if w.tracked then w.(tracked := false, have := NONE) else w)
  {
    hide Half, LastWorked;
    CallMade(h.calls, Removed(fd));
  }

  /** An untracked descriptor with a mask, after an add with any answer. */
  lemma AddOk(h: Handler, fd: Fd)
    requires fd in h.watches && DescOk(h.watches[fd].desc, h.watches[fd].books) && MaskOf(h.watches[fd].desc) != 0
    requires !h.watches[fd].tracked && h.watches[fd].have == Filters(Half(h.calls, fd), false)
    requires Half(h.calls, fd) ==> h.watches[fd].desc.Single?
    ensures OnlyChanged(h, Add(h, fd), fd) && FdOk(Add(h, fd), fd)
    ensures Add(h, fd).watches[fd].desc.Single? == h.watches[fd].desc.Single?
    ensures h.watches[fd].desc.Single? ==> Add(h, fd).watches[fd].desc.port == h.watches[fd].desc.port
  {
    hide Half, LastWorked, DescOk, Coherent, Balanced;
    var w, g := h.watches[fd], Add(h, fd);
    CallMade(h.calls, g.calls[|h.calls|]);
    assert g.calls == h.calls + [g.calls[|h.calls|]];
    ActedOk(w.desc, w.books, TellAll(CLOSE_EVENT));
    MasksOf(w.desc, w.books);
  }

  lemma MasksOf(d: Desc, books: Books)
    requires DescOk(d, books) && MaskOf(d) != 0
    ensures MaskOf(d) == IN || MaskOf(d) == OUT || MaskOf(d) == IN + OUT
    ensures d.Multiple? ==> MaskOf(d) == IN
    ensures d.Single? ==> d.port != ILLEGAL_PORT
  {
  }

  lemma AddOnly(h: Handler, fd: Fd)
    requires fd in h.watches
    ensures OnlyChanged(h, Add(h, fd), fd)
  {
    hide Half, LastWorked;
    var g := Add(h, fd);
    CallMade(h.calls, g.calls[|h.calls|]);
    assert g.calls == h.calls + [g.calls[|h.calls|]];
  }

  lemma SettleOnly(h: Handler, oldMask: int, fd: Fd)
    requires fd in h.watches
    ensures OnlyChanged(h, Settle(h, oldMask, fd), fd)
  {
    hide Half, LastWorked, OnlyChanged, Add, Untrack, MaskOf;
    NothingChanged(h, fd);
    RemoveOk(h, fd);
    AddOnly(h, fd);
    AddOnly(Untrack(h, fd), fd);
    OnlyChangedTrans(h, Untrack(h, fd), Add(Untrack(h, fd), fd), fd);
  }

  lemma NothingChanged(h: Handler, fd: Fd)
    ensures OnlyChanged(h, h, fd)
  {
  }

  /** The descriptor keeps a port while the kernel may still report on it. */
  predicate KeepsPort(w: Watch, a: Act)
    requires Permitted(w.desc, a)
  {
    w.desc.Single? && w.have != NONE ==> Acted(w.desc, a).Single? && Acted(w.desc, a).port != ILLEGAL_PORT
  }

  /** The filters follow the mask, whatever the kernel answers. */
  lemma SettleOk(h: Handler, w: Watch, fd: Fd, a: Act)
    requires Permitted(w.desc, a) && KeepsPort(w, a)
    requires fd in h.watches && h.watches[fd] == Put(w, a)
    requires WatchOk(w, Half(h.calls, fd), LastWorked(h.calls, fd))
    ensures FdOk(Settle(h, MaskOf(w.desc), fd), fd)
    ensures var d := Settle(h, MaskOf(w.desc), fd).watches[fd].desc;
            d.Single? == w.desc.Single? && (w.desc.Single? ==> NextPort(d) == NextPort(Acted(w.desc, a)))
  {
    ActedOk(w.desc, w.books, a);
    SameFilters(w.desc, Acted(w.desc, a));
    hide Half, LastWorked, DescOk, Acted, Booked, Add, Untrack, OnlyChanged, MaskOf, FiltersOf, Permitted;
    var mask := MaskOf(h.watches[fd].desc);
    RemoveOk(h, fd);
    if MaskOf(w.desc) == 0 && mask != 0 {
      AddOk(h, fd);
    } else if MaskOf(w.desc) != 0 && mask != 0 && MaskOf(w.desc) != mask {
      AddOk(Untrack(h, fd), fd);
    }
  }

  lemma SameFilters(a: Desc, b: Desc)
    ensures MaskOf(a) == MaskOf(b) ==> FiltersOf(a) == FiltersOf(b)
  {
  }

  /** Whatever happens to a descriptor, short of its being closed. */
  lemma ChangeKeeps(h: Handler, fd: Fd, a: Act)
    requires Consistent(h) && fd in h.watches && Permitted(h.watches[fd].desc, a) && KeepsPort(h.watches[fd], a)
    ensures var g := Change(h, fd, a);
            && Consistent(g) && OnlyChanged(h, g, fd) && g.watches[fd].desc.Single? == h.watches[fd].desc.Single?
            && (h.watches[fd].desc.Single? ==> g.watches[fd].desc.port == Acted(h.watches[fd].desc, a).port)
  {
    hide Half, LastWorked, DescOk, Acted, Booked, Settle, OnlyChanged, MaskOf, FiltersOf, WatchOk, KeepsPort;
    var w := h.watches[fd];
    var k := Begun(h, fd, a);
    assert FdOk(h, fd);
    KnownOk(h, fd);
    ActedOk(w.desc, w.books, a);
    SettleOk(k, w, fd, a);
    ChangeOnly(h, fd, a);
    PostedOk(Settle(k, MaskOf(w.desc), fd), Change(h, fd, a), fd);
    StaysConsistent(h, Change(h, fd, a), fd);
  }

  lemma ChangeOnly(h: Handler, fd: Fd, a: Act)
    requires fd in h.watches && Permitted(h.watches[fd].desc, a)
    ensures OnlyChanged(h, Change(h, fd, a), fd)
  {
    hide Half, LastWorked, Acted, Booked, Settle, MaskOf;
    var k := Begun(h, fd, a);
    assert OnlyChanged(h, k, fd);
    var g := Settle(k, MaskOf(h.watches[fd].desc), fd);
    SettleOnly(k, MaskOf(h.watches[fd].desc), fd);
    PostedOk(g, Change(h, fd, a), fd);
    hide OnlyChanged;
    OnlyChangedTrans(h, k, g, fd);
    OnlyChangedTrans(h, g, Change(h, fd, a), fd);
  }

  lemma PostedOk(h: Handler, g: Handler, fd: Fd)
    requires g == h.(posted := g.posted)
    ensures OnlyChanged(h, g, fd) && (FdOk(h, fd) ==> FdOk(g, fd))
  {
    hide WatchOk, Half, LastWorked;
  }

  lemma KnownKeeps(h: Handler, fd: Fd, listening: bool)
    requires Consistent(h)
    ensures Consistent(Known(h, fd, listening))
  {
    var g := Known(h, fd, listening);
    if fd !in h.watches {
      NewOk(listening);
      hide DescOk, Half, LastWorked, MaskOf;
      forall x | x in g.watches ensures FdOk(g, x) { if x != fd { assert FdOk(h, x); } }
    }
  }

  lemma DropKeeps(h: Handler, g: Handler, fd: Fd)
    requires Consistent(h) && OnlyChanged(h, g, fd)
    ensures Consistent(Drop(g, fd))
  {
    hide WatchOk, Half, LastWorked;
    CallMade(g.calls, Closed(fd));
    var k := Drop(g, fd);
    forall x | x in k.watches ensures FdOk(k, x) { assert FdOk(h, x); }
  }

  lemma CommandKeeps(h: Handler, fd: Fd, listening: bool, c: Command)
    requires Consistent(h) && Allowed(DescAt(h.watches, fd, listening), c)
    ensures Consistent(Commanded(h, fd, listening, c))
    ensures Closes(DescAt(h.watches, fd, listening), c) ==>
              && fd !in Commanded(h, fd, listening, c).watches
              && MaskOf(Acted(DescAt(h.watches, fd, listening), Obeys(c))) == 0
  {
    hide WatchOk, Half, LastWorked, OnlyChanged, Acted, Allowed, Change, MaskOf;
    KnownKeeps(h, fd, listening);
    var g := Known(h, fd, listening);
    if !(c.ShutdownRead? || c.ShutdownWrite?) {
      assert FdOk(g, fd);
      CommandActs(g.watches[fd], c, Half(g.calls, fd), LastWorked(g.calls, fd));
      if Closes(g.watches[fd].desc, c) {
        ChangeOnly(g, fd, Obeys(c));
        DropKeeps(g, Change(g, fd, Obeys(c)), fd);
      } else {
        ChangeKeeps(g, fd, Obeys(c));
      }
    }
  }

  lemma CommandActs(w: Watch, c: Command, half: bool, worked: bool)
    requires WatchOk(w, half, worked) && Allowed(w.desc, c)
    ensures Closes(w.desc, c) ==> MaskOf(Acted(w.desc, Obeys(c))) == 0
    ensures !Closes(w.desc, c) ==> KeepsPort(w, Obeys(c))
    ensures Acted(w.desc, Obeys(c)).Single? == w.desc.Single?
  {
    ActedOk(w.desc, w.books, Obeys(c));
  }

  lemma SameButHeap(h: Handler, g: Handler)
    requires Consistent(h) && g == h.(heap := g.heap, shutdown := g.shutdown, posted := g.posted)
    ensures Consistent(g)
  {
    hide WatchOk, Half, LastWorked;
    forall x | x in g.watches ensures FdOk(g, x) { assert FdOk(h, x); }
  }

  lemma DeliverKeeps(h: Handler, m: Message)
    requires Consistent(h)
    ensures Deliver(h, m).Some? ==> Consistent(Deliver(h, m).value)
  {
    hide Consistent, Allowed, Commanded;
    match m
    case Socket(fd, listening, c) =>
      if Allowed(DescAt(h.watches, fd, listening), c) { CommandKeeps(h, fd, listening, c); }
    case Timer(port, deadline) => SameButHeap(h, Deliver(h, m).value);
    case Shutdown => SameButHeap(h, Deliver(h, m).value);
  }

  lemma {:induction false} DeliverAllKeeps(h: Handler, ms: seq<Message>)
    requires Consistent(h)
    ensures DeliverAll(h, ms).Some? ==> Consistent(DeliverAll(h, ms).value)
    decreases |ms|
  {
    hide Consistent, Deliver;
    if ms != [] {
      DeliverAllKeeps(h, ms[..|ms| - 1]);
      if DeliverAll(h, ms[..|ms| - 1]).Some? { DeliverKeeps(DeliverAll(h, ms[..|ms| - 1]).value, ms[|ms| - 1]); }
    }
  }

  lemma HearKeeps(h: Handler, e: Kevent)
    requires Consistent(h) && e.fd in h.watches
    ensures Consistent(Hear(h, e)) && OnlyChanged(h, Hear(h, e), e.fd)
    ensures var w, g := h.watches[e.fd], Hear(h, e).watches[e.fd];
            g.desc.Single? == w.desc.Single? && (w.desc.Single? ==> g.desc.port == w.desc.port)
  {
    hide Half, LastWorked, OnlyChanged, Change, MaskOf, FiltersOf, Consistent;
    ListensStill(h, e);
    ChangeKeeps(h, e.fd, ActOf(e, h.watches[e.fd].desc.IsListening()));
  }

  lemma ListensStill(h: Handler, e: Kevent)
    requires Consistent(h) && e.fd in h.watches
    ensures var w := h.watches[e.fd];
            var a := ActOf(e, w.desc.IsListening());
            && Permitted(w.desc, a) && KeepsPort(w, a)
            && Acted(w.desc, a).Single? == w.desc.Single?
            && (w.desc.Single? ==> Acted(w.desc, a).port == w.desc.port)
  {
    assert FdOk(h, e.fd);
    ActedOk(h.watches[e.fd].desc, h.watches[e.fd].books, ActOf(e, h.watches[e.fd].desc.IsListening()));
  }

  lemma {:induction false} HearAllKeeps(h: Handler, batch: seq<Kevent>)
    requires Consistent(h)
    ensures Consistent(HearAll(h, batch))
    decreases |batch|
  {
    hide Consistent, Hear;
    if batch != [] {
      var g, e := HearAll(h, batch[..|batch| - 1]), batch[|batch| - 1];
      HearAllKeeps(h, batch[..|batch| - 1]);
      if e.fd in g.watches { HearKeeps(g, e); } else { NotHeard(g, e); }
    }
  }

  lemma NotHeard(h: Handler, e: Kevent)
    requires e.fd !in h.watches
    ensures Hear(h, e) == h
  {
  }

  // ---------------------------------------------------------------- what is posted

  /** The next add of a descriptor would be refused. */
  predicate Refuses(h: Handler, d: Desc) { Fails(FiltersOf(d), h.Answers()) }

  /** A descriptor after anything that happens to it: what that makes of it; an add
      exactly if its mask is new and not 0; and if that is refused, its ports are
      sent a close, and charged for it. */
  lemma ChangeDoes(h: Handler, fd: Fd, a: Act)
    requires fd in h.watches && Permitted(h.watches[fd].desc, a)
    ensures var d, g := h.watches[fd].desc, Change(h, fd, a);
            var e := Acted(d, a);
            var asked := MaskOf(e) != 0 && MaskOf(e) != MaskOf(d);
            var refused := asked && Refuses(h, e);
            var removed := h.watches[fd].tracked && MaskOf(d) != 0 && MaskOf(e) != MaskOf(d);
            && g.calls == h.calls + (if removed then [Removed(fd)] else [])
                          + (if asked then [Added(fd, FiltersOf(e), h.Answers())] else [])
            && g.watches == h.watches[fd := g.watches[fd]]
            && g.watches[fd].desc == (if refused then Acted(e, TellAll(CLOSE_EVENT)) else e)
            && g.posted == h.posted + PostsFirst(d, a) + (if refused then [Posted(PortsOf(e), CLOSE_EVENT)] else [])
                           + PostsLast(d, a)
  {
    hide MaskOf, FiltersOf, Acted, Booked, PostsLast, PostsFirst, PortsOf;
    var k := Begun(h, fd, a);
    assert k.posted + [] == k.posted && h.calls + [] == h.calls;
  }

  lemma KnownOk(h: Handler, fd: Fd)
    requires Consistent(h) && fd in h.watches
    ensures DescOk(h.watches[fd].desc, h.watches[fd].books)
  {
    assert FdOk(h, fd);
  }

  /** A command: its descriptor is what the command makes of it, or gone; a close
      is always confirmed; and only a returned token or a new mask asks for an
      add, which, if refused, sends a close to every port. */
  lemma CommandDoes(h: Handler, fd: Fd, listening: bool, c: Command)
    requires Consistent(h) && Allowed(DescAt(h.watches, fd, listening), c)
    ensures var d, g := DescAt(h.watches, fd, listening), Commanded(h, fd, listening, c);
            var e := Acted(d, Obeys(c));
            var asked := (c.ReturnToken? || c.SetEventMask?) && MaskOf(e) != 0 && MaskOf(e) != MaskOf(d);
            var refused := asked && Refuses(h, e);
            && (if c.Close? && (d.Single? || c.last) then g.watches == h.watches - {fd}
                else fd in g.watches && g.watches == h.watches[fd := g.watches[fd]]
                     && g.watches[fd].desc == if refused then Acted(e, TellAll(CLOSE_EVENT)) else e)
            && g.posted == h.posted + (if refused then [Posted(PortsOf(e), CLOSE_EVENT)] else [])
                           + (if c.Close? then [Destroyed(c.port)] else [])
  {
    hide MaskOf, DescOk, Change, PortsOf, FdOk, Consistent, FiltersOf;
    var g, d := Known(h, fd, listening), DescAt(h.watches, fd, listening);
    KnownKeeps(h, fd, listening);
    if !(c.ShutdownRead? || c.ShutdownWrite?) {
      hide Allowed, Acted;
      KnownOk(g, fd);
      ChangeDoes(g, fd, Obeys(c));
      AsksForMore(d, g.watches[fd].books, Obeys(c));
      assert g.posted + [] == g.posted;
      var k := Change(g, fd, Obeys(c));
      assert k.watches - {fd} == h.watches - {fd} && k.watches == h.watches[fd := k.watches[fd]];
    } else {
      assert g.watches == h.watches[fd := g.watches[fd]];
    }
  }

  lemma DeliverPosts(h: Handler, m: Message)
    requires Consistent(h)
    ensures Deliver(h, m).Some? ==> h.posted <= Deliver(h, m).value.posted
  {
    hide Consistent, Allowed, Commanded, Acted, MaskOf;
    if m.Socket? && Deliver(h, m).Some? { CommandDoes(h, m.fd, m.listening, m.command); }
  }

  /** An event posts exactly what its filter and flags say, and never adds a
      filter. */
  lemma HearPosts(h: Handler, e: Kevent)
    requires Consistent(h)
    ensures Hear(h, e).posted == h.posted + TellsOf(h, e)
    ensures e.fd in h.watches && CanTell(h.watches[e.fd], e) ==> NoneIllegal(TellsOf(h, e))
  {
    if e.fd in h.watches {
      var d := h.watches[e.fd].desc;
      var a := ActOf(e, d.IsListening());
      ListensStill(h, e);
      KnownOk(h, e.fd);
      EventTells(h, e);
      hide Change, MaskOf, Acted, DescOk, ActOf, TellsOf;
      ChangeDoes(h, e.fd, a);
      AsksForMore(d, h.watches[e.fd].books, a);
      assert h.posted + PostsFirst(d, a) + [] + PostsLast(d, a) == h.posted + (PostsFirst(d, a) + PostsLast(d, a));
    }
  }

  lemma EventTells(h: Handler, e: Kevent)
    requires Consistent(h) && e.fd in h.watches
    ensures var d := h.watches[e.fd].desc;
            var a := ActOf(e, d.IsListening());
            !a.Obeys? && PostsFirst(d, a) + PostsLast(d, a) == TellsOf(h, e)
    ensures CanTell(h.watches[e.fd], e) ==> NoneIllegal(TellsOf(h, e))
  {
    hide MaskOf, NextPort;
    KnownOk(h, e.fd);
    if CanTell(h.watches[e.fd], e) { PortExists(h, e); }
  }

  /** Every event costs a descriptor with one port a token, whether it has one or
      not, and changes nothing else of it: it stays at zero or above if and only
      if it had one left. */
  lemma EachEventCosts(h: Handler, e: Kevent)
    requires Consistent(h) && e.fd in h.watches && h.watches[e.fd].desc.Single?
    ensures var d := h.watches[e.fd].desc;
            e.fd in Hear(h, e).watches && Hear(h, e).watches[e.fd].desc == d.(tokens := d.tokens - 1)
    ensures Funded(Hear(h, e).watches[e.fd].desc) <==> h.watches[e.fd].desc.tokens > 0
  {
    var d := h.watches[e.fd].desc;
    var a := ActOf(e, false);
    KnownOk(h, e.fd);
    ListensStill(h, e);
    hide Change, DescOk;
    ChangeDoes(h, e.fd, a);
    AsksForMore(d, h.watches[e.fd].books, a);
  }

  /** So two filters that fire together take two tokens where there was one. */
  lemma BothFire(h: Handler, fd: Fd)
    requires Consistent(h) && fd in h.watches && h.watches[fd].desc.Single?
    requires h.watches[fd].have == Filters(true, true) && h.watches[fd].desc.tokens == 1
    ensures var batch := [Kevent(fd, false, false, false), Kevent(fd, true, false, false)];
            fd in HearAll(h, batch).watches && !Funded(HearAll(h, batch).watches[fd].desc)
  {
    var first, second := Kevent(fd, false, false, false), Kevent(fd, true, false, false);
    hide Hear, Consistent;
    EachEventCosts(h, first);
    HearKeeps(h, first);
    EachEventCosts(Hear(h, first), second);
    assert [first, second][..1] == [first] && [first][..0] == [];
    assert HearAll(h, [first]) == Hear(h, first);
  }

  /** One turn of the handler: a timeout if one is due, a batch of events, and the
      messages behind the interrupt, if there was one. */
  datatype Turn = Turn(timeout: bool, batch: seq<Kevent>, interrupt: bool, messages: seq<Message>)

  function Expired(h: Handler, timeout: bool): Handler
  {
    if timeout && h.heap != []
    then h.(heap := RemovedAt(h.heap, 0), posted := h.posted + [TimedOut(h.heap[0].value)]) else h
  }

  function Take(h: Handler, t: Turn): Maybe<Handler>
  {
    var g := HearAll(Expired(h, t.timeout), t.batch);
    if t.interrupt then DeliverAll(g, t.messages) else Some(g)
  }

  function TakeAll(h: Handler, ts: seq<Turn>): Maybe<Handler> { InTurn(Take, h, ts) }

  lemma TakeKeeps(h: Handler, t: Turn)
    requires Consistent(h)
    ensures Take(h, t).Some? ==> Consistent(Take(h, t).value)
  {
    hide Consistent, HearAll, DeliverAll;
    SameButHeap(h, Expired(h, t.timeout));
    HearAllKeeps(Expired(h, t.timeout), t.batch);
    DeliverAllKeeps(HearAll(Expired(h, t.timeout), t.batch), t.messages);
  }

  /** Over every run from the start, with whatever answers the kernel gives, each
      descriptor has exactly the filters of `WatchOk`, and its books balance. */
  lemma {:induction false} HandlerRuns(h: Handler, ts: seq<Turn>)
    requires Consistent(h)
    ensures TakeAll(h, ts).Some? ==> Consistent(TakeAll(h, ts).value)
    decreases |ts|
  {
    hide Consistent, Take;
    if ts != [] {
      var front, t := ts[..|ts| - 1], ts[|ts| - 1];
      HandlerRuns(h, front);
      if TakeAll(h, front).Some? { TakeKeeps(TakeAll(h, front).value, t); }
    }
  }

  // ---------------------------------------------------------------- timers and shutdown

  /** The messages that a turn reads. */
  function Heard(t: Turn): seq<Message> { if t.interrupt then t.messages else [] }

  ghost predicate AnyShutdown(ts: seq<Turn>) { exists i :: 0 <= i < |ts| && Shutdown in Heard(ts[i]) }

  lemma NoShutdown()
    ensures !AnyShutdown([])
  {
  }

  lemma AnyShutdownLast(ts: seq<Turn>)
    requires ts != []
    ensures AnyShutdown(ts) <==> AnyShutdown(ts[..|ts| - 1]) || Shutdown in Heard(ts[|ts| - 1])
  {
    hide Heard;
    var front := ts[..|ts| - 1];
    if i :| 0 <= i < |front| && Shutdown in Heard(front[i]) { assert Shutdown in Heard(ts[i]); }
  }

  /** What a turn means for the timers. */
  function TurnMoves(t: Turn): seq<Move> { (if t.timeout then [Expire] else []) + MovesIn(Heard(t)) }

  /** What turns mean for the timers. */
  function Moves(ts: seq<Turn>): seq<Move>
  {
    if ts == [] then []
    else Moves(ts[..|ts| - 1]) + TurnMoves(ts[|ts| - 1])
  }

  lemma ChangeIsApart(h: Handler, fd: Fd, a: Act)
    requires fd in h.watches && Permitted(h.watches[fd].desc, a)
    ensures Change(h, fd, a).heap == h.heap && Change(h, fd, a).shutdown == h.shutdown
  {
    hide MaskOf, FiltersOf, Acted, Booked, Permitted;
  }

  lemma {:induction false} BatchIsApart(h: Handler, batch: seq<Kevent>)
    requires Consistent(h)
    ensures HearAll(h, batch).heap == h.heap && HearAll(h, batch).shutdown == h.shutdown
    decreases |batch|
  {
    hide Change, ActOf, Consistent;
    if batch != [] {
      var g, e := HearAll(h, batch[..|batch| - 1]), batch[|batch| - 1];
      BatchIsApart(h, batch[..|batch| - 1]);
      HearAllKeeps(h, batch[..|batch| - 1]);
      if e.fd in g.watches {
        ListensStill(g, e);
        ChangeIsApart(g, e.fd, ActOf(e, g.watches[e.fd].desc.IsListening()));
      }
    }
  }

  lemma CommandIsApart(h: Handler, fd: Fd, listening: bool, c: Command)
    requires Allowed(DescAt(h.watches, fd, listening), c)
    ensures var g := Commanded(h, fd, listening, c); g.heap == h.heap && g.shutdown == h.shutdown
  {
    hide Change, Allowed;
    ChangeIsApart(Known(h, fd, listening), fd, Obeys(c));
  }

  lemma {:induction false} MessagesMove(h: Handler, ms: seq<Message>)
    ensures DeliverAll(h, ms).Some? ==>
              && DeliverAll(h, ms).value.heap == Timers.After(h.heap, MovesIn(ms))
              && DeliverAll(h, ms).value.shutdown == (h.shutdown || Shutdown in ms)
    decreases |ms|
  {
    hide Commanded, Allowed, Updated, PlaceOf;
    AfterOne(h.heap, Expire);
    if ms != [] {
      var front, m := ms[..|ms| - 1], ms[|ms| - 1];
      MessagesMove(h, front);
      AfterAppend(h.heap, MovesIn(front), MoveOf(m));
      assert Shutdown in ms <==> Shutdown in front || m == Shutdown;
      if DeliverAll(h, ms).Some? {
        var g := DeliverAll(h, front).value;
        MessageMoves(g.heap, m);
        if m.Socket? { CommandIsApart(g, m.fd, m.listening, m.command); }
      }
    }
  }

  lemma OneTurnMoves(h: Handler, t: Turn)
    requires Consistent(h)
    ensures Take(h, t).Some? ==>
              && Take(h, t).value.heap == Timers.After(h.heap, TurnMoves(t))
              && Take(h, t).value.shutdown == (h.shutdown || Shutdown in Heard(t))
  {
    hide Consistent, HearAll, Deliver, RemovedAt;
    var g := Expired(h, t.timeout);
    ExpireMoves(h.heap, t.timeout);
    SameButHeap(h, g);
    BatchIsApart(g, t.batch);
    MessagesMove(HearAll(g, t.batch), Heard(t));
    AfterAppend(h.heap, if t.timeout then [Expire] else [], MovesIn(Heard(t)));
  }

  /** Over every run, the queue is what the timer messages and timeouts, in turn,
      make of it, whatever happens to the descriptors; and the handler is shut
      down exactly if one of the messages read says so. */
  lemma {:induction false} RunMoves(h: Handler, ts: seq<Turn>)
    requires Consistent(h)
    ensures TakeAll(h, ts).Some? ==>
              && TakeAll(h, ts).value.heap == Timers.After(h.heap, Moves(ts))
              && (TakeAll(h, ts).value.shutdown <==> h.shutdown || AnyShutdown(ts))
    decreases |ts|
  {
    hide Consistent, Take, TurnMoves, AnyShutdown;
    AfterOne(h.heap, Expire);
    NoShutdown();
    if ts != [] {
      var front, t := ts[..|ts| - 1], ts[|ts| - 1];
      RunMoves(h, front);
      HandlerRuns(h, front);
      if TakeAll(h, ts).Some? {
        OneTurnMoves(TakeAll(h, front).value, t);
        AfterAppend(h.heap, Moves(front), TurnMoves(t));
        AnyShutdownLast(ts);
      }
    }
  }

  lemma NothingToBegin(answers: seq<Answer>)
    ensures Consistent(NO_WATCHES.(answers := answers))
  {
  }

  /** After a set-mask command, unless the last add was refused, the kernel has
      exactly the filters asked for: of a file with one port, while it has tokens,
      and of a listening one whose port asked to read and has tokens; except for
      the READ filter of an add that was refused in between. */
  lemma WatchesAsAsked(h: Handler, fd: Fd, listening: bool, c: Command)
    requires Consistent(h) && Allowed(DescAt(h.watches, fd, listening), c) && c.SetEventMask?
    ensures var d, g := DescAt(h.watches, fd, listening), Commanded(h, fd, listening, c);
            fd in g.watches && (LastWorked(g.calls, fd) ==>
              && (d.Single? && d.tokens > 0 ==>
                    g.watches[fd].have == Filters(c.events % 2 == 1 || Half(g.calls, fd), c.events >= OUT))
              && (d.Multiple? && c.events == IN && (c.port in d.multi.ports ==> d.multi.ports[c.port].tokens > 0) ==>
                    g.watches[fd].have == Filters(true, false)))
  {
    hide LastWorked, Half, DescOk, Allowed, MaskOf, Acted, FdOk, Consistent, Change;
    KnownKeeps(h, fd, listening);
    CommandKeeps(h, fd, listening, c);
    var d, k, g := DescAt(h.watches, fd, listening), Known(h, fd, listening), Commanded(h, fd, listening, c);
    KnownOk(k, fd);
    ChangeDoes(k, fd, Obeys(c));
    if LastWorked(g.calls, fd) {
      WorkedAsAsked(k, g, fd, Obeys(c));
      FiltersAsked(d, k.watches[fd].books, c, g, fd);
    }
  }

  /** If the last add was not refused, a change leaves what it makes of the
      descriptor. */
  lemma WorkedAsAsked(h: Handler, g: Handler, fd: Fd, a: Act)
    requires fd in h.watches && Permitted(h.watches[fd].desc, a) && g == Change(h, fd, a) && LastWorked(g.calls, fd)
    ensures g.watches[fd].desc == Acted(h.watches[fd].desc, a)
  {
    hide LastWorked, MaskOf, Acted, Change, Permitted, FiltersOf;
    ChangeDoes(h, fd, a);
    var d := h.watches[fd].desc;
    var e := Acted(d, a);
    var removed := h.watches[fd].tracked && MaskOf(d) != 0 && MaskOf(e) != MaskOf(d);
    CallMade(h.calls + if removed then [Removed(fd)] else [], Added(fd, FiltersOf(e), h.Answers()));
  }

  lemma FiltersAsked(d: Desc, books: Books, c: Command, g: Handler, fd: Fd)
    requires DescOk(d, books) && Allowed(d, c) && c.SetEventMask?
    requires Consistent(g) && fd in g.watches && g.watches[fd].desc == Acted(d, Obeys(c)) && LastWorked(g.calls, fd)
    ensures d.Single? && d.tokens > 0 ==>
              g.watches[fd].have == Filters(c.events % 2 == 1 || Half(g.calls, fd), c.events >= OUT)
    ensures d.Multiple? && c.events == IN && (c.port in d.multi.ports ==> d.multi.ports[c.port].tokens > 0) ==>
              g.watches[fd].have == Filters(true, false)
  {
    hide LastWorked, Half, DescOk, MaskOf;
    assert FdOk(g, fd);
    Asked(d, books, c);
  }

  // ---------------------------------------------------------------- a filter that stays

  const FILE := Fd(3)
  const PORT := Port(7)

  /** A run in which the kernel refuses the second of two filters: the descriptor
      is not tracked, and its READ filter stays. When it is then asked to watch
      for output only, it has both. */
  lemma StaleFilter()
    ensures var h := NO_WATCHES.(answers := [RefusedSecond]);
            var g := Deliver(h, Socket(FILE, false, SetEventMask(PORT, IN + OUT)));
            && g.Some? && FILE in g.value.watches
            && !g.value.watches[FILE].tracked && g.value.watches[FILE].have == Filters(true, false)
            && var k := Deliver(g.value, Socket(FILE, false, SetEventMask(PORT, OUT)));
               && k.Some? && FILE in k.value.watches
               && k.value.watches[FILE].tracked && k.value.watches[FILE].have == Filters(true, true)
               && FiltersOf(k.value.watches[FILE].desc) == Filters(false, true)
  {
    var h := NO_WATCHES.(answers := [RefusedSecond]);
    var c := SetEventMask(PORT, IN + OUT);
    assert Known(h, FILE, false).watches[FILE] == Watch(NEW_SINGLE, false, NONE, map[]);
    var g := Commanded(h, FILE, false, c);
    assert g.watches[FILE] == Watch(Single(PORT, IN + OUT, 15), false, Filters(true, false), map[]);
    assert g.answers == [];
    var k := Commanded(g, FILE, false, SetEventMask(PORT, OUT));
    assert k.watches[FILE] == Watch(Single(PORT, OUT, 15), true, Filters(true, true), map[]);
  }

  // ---------------------------------------------------------------- the handler

  /** One call with a change per filter. The kernel takes them in turn and stops at
      the first that it refuses; what was added before stays. */
  method AddFilters(had: Filters, want: Filters, answer: Answer) returns (have: Filters, ok: bool)
    requires want != NONE
    ensures ok <==> !Fails(want, answer)
    ensures have == if ok then Filters(had.read || want.read, had.write || want.write)
                    else Filters(had.read || answer.RefusedSecond?, had.write)
  {
    have := had;
    if want.read {
      if answer.RefusedFirst? { return have, false; }
      have := have.(read := true);
    }
    if want.write {
      if answer.RefusedFirst? || (answer.RefusedSecond? && want.read) { return have, false; }
      have := have.(write := true);
    }
    return have, true;
  }

  class KqueueHandler {
    var watches: map<Fd, Watch>
    var answers: seq<Answer>       // what the kernel will say to the next adds
    var posted: seq<Notice>
    ghost var calls: seq<Call>
    const queue: PriorityQueue<Port>
    var shutdown: bool

    ghost function Now(): Handler
      reads this, queue
    {
      Handler(watches, calls, answers, posted, queue.heap, shutdown)
    }

    ghost predicate Valid()
      reads this, queue
    {
      Consistent(Now()) && queue.Valid()
    }

    constructor (answers: seq<Answer>)
      ensures Valid() && Now() == NO_WATCHES.(answers := answers) && fresh(queue)
    {
      queue := new PriorityQueue<Port>();
      watches, calls, shutdown, this.answers, posted := map[], [], false, answers, [];
      new;
      NothingToBegin(answers);
    }

    method RemoveFromKqueue(fd: Fd)
      requires fd in watches
      modifies this`watches, this`calls
      ensures Now() == Untrack(old(Now()), fd)
    {
      if !watches[fd].tracked { return; }
      watches := watches[fd := watches[fd].(tracked := false, have := NONE)];
      calls := calls + [Removed(fd)];
    }

    method AddToKqueue(fd: Fd)
      requires fd in watches && !watches[fd].tracked && FiltersOf(watches[fd].desc) != NONE
      modifies this`watches, this`calls, this`answers, this`posted
      ensures Now() == Add(old(Now()), fd)
    {
      var w := watches[fd];
      var want := FiltersOf(w.desc);
      assert want.read || want.write;
      var answer := Accepted;
      if answers != [] {
        answer, answers := answers[0], answers[1..];
      }
      calls := calls + [Added(fd, want, answer)];
      var have, ok := AddFilters(w.have, want, answer);
      if ok {
        watches := watches[fd := w.(have := have, tracked := true)];
      } else {
        posted := posted + [Posted(PortsOf(w.desc), CLOSE_EVENT)];
        watches := watches[fd := Put(w.(have := have), TellAll(CLOSE_EVENT))];
      }
    }

    method UpdateKQueueInstance(oldMask: int, fd: Fd)
      requires fd in watches && (watches[fd].desc.IsListening() ==> oldMask == 0 || oldMask == IN)
      requires 0 <= MaskOf(watches[fd].desc) <= IN + OUT && (watches[fd].tracked ==> oldMask != 0)
      modifies this`watches, this`calls, this`answers, this`posted
      ensures Now() == Settle(old(Now()), oldMask, fd)
    {
      ListeningMask(watches[fd].desc);
      var newMask := MaskOf(watches[fd].desc);
      if oldMask != 0 && newMask == 0 {
        RemoveFromKqueue(fd);
      } else if oldMask == 0 && newMask != 0 {
        AddToKqueue(fd);
      } else if oldMask != 0 && newMask != 0 && oldMask != newMask {
        assert !watches[fd].desc.IsListening();
        RemoveFromKqueue(fd);
        AddToKqueue(fd);
      }
    }

    method GetDescriptorInfo(fd: Fd, listening: bool)
      modifies this`watches
      ensures Now() == Known(old(Now()), fd, listening)
    {
      if fd !in watches {
        watches := watches[fd := Watch(if listening then NEW_MULTIPLE else NEW_SINGLE, false, NONE, map[])];
      }
    }

    /** Something happens to a descriptor, and the kernel is told; what is posted
        after that is for the caller. */
    method ChangeTo(fd: Fd, a: Act)
      requires Consistent(Now()) && fd in watches && Permitted(watches[fd].desc, a)
      modifies this`watches, this`calls, this`answers, this`posted
      ensures Now().(posted := posted + PostsLast(old(watches)[fd].desc, a)) == Change(old(Now()), fd, a)
    {
      hide MaskOf, Settle, Half, LastWorked;
      assert FdOk(Now(), fd);
      MasksInRange(watches[fd], a, Half(calls, fd), LastWorked(calls, fd));
      var oldMask := MaskOf(watches[fd].desc);
      if a.TellAll? { posted := posted + [Posted(PortsOf(watches[fd].desc), a.mask)]; }
      assert posted == old(posted) + PostsFirst(watches[fd].desc, a);
      watches := watches[fd := Put(watches[fd], a)];
      UpdateKQueueInstance(oldMask, fd);
    }

    method HandleCommand(fd: Fd, listening: bool, c: Command)
      requires Consistent(Now()) && Allowed(DescAt(watches, fd, listening), c)
      modifies this`watches, this`calls, this`answers, this`posted
      ensures Now() == Commanded(old(Now()), fd, listening, c) && Consistent(Now())
    {
      hide FdOk, MaskOf, Acted, Allowed, Change;
      CommandKeeps(Now(), fd, listening, c);
      KnownKeeps(Now(), fd, listening);
      GetDescriptorInfo(fd, listening);
      var d := watches[fd].desc;
      if c.ShutdownRead? || c.ShutdownWrite? {
        NotListening(d, c);
        assert !d.IsListening();
        return;
      }
      ChangeTo(fd, Obeys(c));
      if Closes(d, c) {
        assert MaskOf(Acted(d, Obeys(c))) == 0;
        watches := watches - {fd};
        calls := calls + [Closed(fd)];
      }
      if c.Close? { posted := posted + [Destroyed(c.port)]; }
    }

    method HandleMessage(m: Message) returns (ok: bool)
      requires Valid()
      modifies this, queue
      ensures Valid() && (ok <==> Deliver(old(Now()), m).Some?)
      ensures ok ==> Now() == Deliver(old(Now()), m).value
      ensures old(posted) <= posted
    {
      hide Consistent, Allowed, Commanded, PriorityQueue.Valid, Updated, PlaceOf;
      DeliverKeeps(Now(), m);
      DeliverPosts(Now(), m);
      match m {
        case Timer(port, deadline) => UpdateTimeout(queue, port, deadline);
        case Shutdown => shutdown := true;
        case Socket(fd, listening, command) =>
          if !Allowed(DescAt(watches, fd, listening), command) { return false; }
          HandleCommand(fd, listening, command);
      }
      return true;
    }

    /** Stops where a message breaks what the handler asserts of its senders. */
    method HandleInterruptFd(messages: seq<Message>) returns (ok: bool)
      requires Valid()
      modifies this, queue
      ensures Valid() && (ok <==> DeliverAll(old(Now()), messages).Some?)
      ensures ok ==> Now() == DeliverAll(old(Now()), messages).value
      ensures old(posted) <= posted
    {
      hide KqueueHandler.Valid, Deliver, KqueueHandler.Now;
      ghost var h := Now();
      for i := 0 to |messages|
        invariant Valid() && DeliverAll(h, messages[..i]) == Some(Now()) && old(posted) <= posted
      {
        assert messages[..i + 1][..i] == messages[..i];
        ok := HandleMessage(messages[i]);
        if !ok { BrokenOff(Deliver, h, messages, i + 1); return false; }
      }
      assert messages[..|messages|] == messages;
      return true;
    }

    /** One event. The descriptor may already have lost its registration to an
        earlier event of the batch, but it still has a port. */
    method HandleKevent(e: Kevent)
      requires Consistent(Now()) && e.fd in watches && CanTell(watches[e.fd], e)
      modifies this`watches, this`calls, this`answers, this`posted
      ensures Now() == Hear(old(Now()), e)
      ensures posted == old(posted) + TellsOf(old(Now()), e) && NoneIllegal(TellsOf(old(Now()), e))
    {
      hide MaskOf, Acted, Change, Half, LastWorked;
      ListensStill(Now(), e);
      PortExists(Now(), e);
      HearPosts(Now(), e);
      var events := GetEvents(e, watches[e.fd].desc.IsListening());
      assert events.Mask?;
      if events.mask.error {
        ChangeTo(e.fd, TellAll(events.mask));
        assert posted + [] == posted;
      } else {
        assert !events.mask.IsNone();
        var port := NextPort(watches[e.fd].desc);
        assert port != ILLEGAL_PORT;
        ChangeTo(e.fd, Tell(events.mask));
        posted := posted + [Posted({port}, events.mask)];
      }
    }

    /** HandleTimeout: a port is told when its time has come, not before. */
    method HandleTimeout(now: int) returns (told: seq<Entry<Port>>)
      requires Valid()
      modifies queue, this`posted
      ensures Valid() && Now() == Expired(old(Now()), told != [])
      ensures told == if old(queue.heap) != [] && old(queue.heap)[0].priority <= now then [old(queue.heap)[0]] else []
    {
      hide Consistent, PriorityQueue.Valid, RemovedAt;
      SameButHeap(Now(), Expired(Now(), true));
      told := [];
      if queue.heap != [] {
        var millis := queue.heap[0].priority - now;
        if millis <= 0 {
          told := [queue.heap[0]];
          posted := posted + [TimedOut(queue.heap[0].value)];
          queue.RemoveMinimum();
        }
      }
    }

    /** HandleEvents on a batch of distinct filters that were registered when it
        was fetched; interrupts are handled last. */
    method HandleEvents(batch: seq<Kevent>, interrupt: bool, messages: seq<Message>) returns (ok: bool)
      requires Valid() && DistinctFilters(batch)
      requires forall i :: 0 <= i < |batch| ==>
                 batch[i].fd in watches && Registered(watches[batch[i].fd].have, batch[i])
      modifies this, queue
      ensures Valid() && NoneIllegal(Told(old(Now()), batch)) && old(posted) + Told(old(Now()), batch) <= posted
      ensures ok <==> Take(old(Now()), Turn(false, batch, interrupt, messages)).Some?
      ensures ok ==> Now() == Take(old(Now()), Turn(false, batch, interrupt, messages)).value
    {
      hide Consistent, PriorityQueue.Valid, Hear, TellsOf, DeliverAll, DistinctFilters, Awaits;
      ghost var h, before := Now(), posted;
      AllCanBeTold(h, batch);
      for i := 0 to |batch|
        invariant Valid() && posted == before + Told(h, batch[..i]) && NoneIllegal(Told(h, batch[..i]))
        invariant Awaits(Now(), batch, i, h) && Now() == HearAll(h, batch[..i])
      {
        assert batch[..i + 1][..i] == batch[..i];
        ghost var g := Now();
        AwaitsNext(g, batch, i, h);
        HearKeeps(g, batch[i]);
        HandleKevent(batch[i]);
        OthersAwait(g, Now(), batch, i, h);
      }
      assert batch[..|batch|] == batch;
      ok := true;
      if interrupt {
        ok := HandleInterruptFd(messages);
      }
    }
  }

  lemma MasksInRange(w: Watch, a: Act, half: bool, worked: bool)
    requires WatchOk(w, half, worked) && Permitted(w.desc, a)
    ensures 0 <= MaskOf(Acted(w.desc, a)) <= IN + OUT && (w.tracked ==> MaskOf(w.desc) != 0)
    ensures Acted(w.desc, a).IsListening() ==> MaskOf(w.desc) == 0 || MaskOf(w.desc) == IN
  {
    ActedOk(w.desc, w.books, a);
  }

  predicate Registered(have: Filters, e: Kevent) { if e.write then have.write else have.read }

  /** An event can be told: a single descriptor has its port, a listening one is
      still registered for reading, which is all it can be told. */
  predicate CanTell(w: Watch, e: Kevent)
  {
    if w.desc.Single? then w.desc.port != ILLEGAL_PORT else !e.write && MaskOf(w.desc) != 0
  }

  lemma PortExists(h: Handler, e: Kevent)
    requires Consistent(h) && e.fd in h.watches && CanTell(h.watches[e.fd], e)
    ensures NextPort(h.watches[e.fd].desc) != ILLEGAL_PORT
  {
    assert FdOk(h, e.fd);
    if h.watches[e.fd].desc.Multiple? { TellOk(h.watches[e.fd].desc, h.watches[e.fd].books); }
  }

  ghost predicate DistinctFilters(batch: seq<Kevent>)
  {
    forall i, j :: 0 <= i < j < |batch| ==> batch[i].fd != batch[j].fd || batch[i].write != batch[j].write
  }

  /** The rest of a batch can be told, to the ports whose turn it was. */
  ghost predicate Awaits(h: Handler, batch: seq<Kevent>, i: nat, was: Handler)
  {
    forall j :: i <= j < |batch| ==>
      && batch[j].fd in h.watches && batch[j].fd in was.watches && CanTell(h.watches[batch[j].fd], batch[j])
      && SamePorts(h.watches[batch[j].fd].desc, was.watches[batch[j].fd].desc)
  }

  predicate SamePorts(d: Desc, e: Desc)
  {
    d.Single? == e.Single? && NextPort(d) == NextPort(e) && PortsOf(d) == PortsOf(e)
  }

  lemma AllCanBeTold(h: Handler, batch: seq<Kevent>)
    requires Consistent(h)
    requires forall i :: 0 <= i < |batch| ==>
               batch[i].fd in h.watches && Registered(h.watches[batch[i].fd].have, batch[i])
    ensures Awaits(h, batch, 0, h)
  {
    hide DescOk, Half, LastWorked;
    forall j | 0 <= j < |batch| ensures CanTell(h.watches[batch[j].fd], batch[j]) {
      assert FdOk(h, batch[j].fd);
      ListeningMask(h.watches[batch[j].fd].desc);
    }
  }

  lemma AwaitsNext(h: Handler, batch: seq<Kevent>, i: nat, was: Handler)
    requires Awaits(h, batch, i, was) && i < |batch|
    ensures batch[i].fd in h.watches && CanTell(h.watches[batch[i].fd], batch[i])
    ensures TellsOf(h, batch[i]) == TellsOf(was, batch[i])
  {
    hide NextPort, PortsOf;
  }

  lemma OthersAwait(h: Handler, g: Handler, batch: seq<Kevent>, i: nat, was: Handler)
    requires DistinctFilters(batch) && i < |batch| && Awaits(h, batch, i, was) && batch[i].fd in h.watches
    requires OnlyChanged(h, g, batch[i].fd) && batch[i].fd in g.watches
    requires g.watches[batch[i].fd].desc.Single? == h.watches[batch[i].fd].desc.Single?
    requires h.watches[batch[i].fd].desc.Single? ==>
               g.watches[batch[i].fd].desc.port == h.watches[batch[i].fd].desc.port
    ensures Awaits(g, batch, i + 1, was)
  {
    hide MaskOf, Half, LastWorked;
    forall j | i + 1 <= j < |batch|
      ensures batch[j].fd in g.watches && CanTell(g.watches[batch[j].fd], batch[j])
      ensures SamePorts(g.watches[batch[j].fd].desc, was.watches[batch[j].fd].desc)
    {
      assert CanTell(h.watches[batch[i].fd], batch[i]) && CanTell(h.watches[batch[j].fd], batch[j]);
    }
  }
}
