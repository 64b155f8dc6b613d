/** The pausable directory listing: a stack of entries that share one path
    buffer and their chains of followed links. */
module Listing {
  import opened Basics
  import opened PathSpec
  import opened FileTree
  import opened WalkFrames
  import opened PathBuffers
  import opened LinkChains

  /** DirectoryListingEntry: `lister` is false until the directory is opened;
      `dir` and `pos` are the stream it reads from then on. */
  datatype Entry = Entry(lister: bool, dir: DirId, pos: nat, done: bool, pathLength: nat, link: LinkNode?)

  const NEW_ENTRY := Entry(false, 0, 0, false, 0, null)

  ghost predicate Matches(e: Entry, f: Frame)
  {
    match f.phase
    case Missing => !e.lister && !e.done
    case Unopened => !e.lister && !e.done
    case Reading(p) => e.lister && !e.done && e.pos == p && e.dir == f.dir && e.pathLength == |f.path|
    case Finished => e.done
  }

  ghost predicate AllMatch(stack: seq<Entry>, frames: seq<Frame>)
  {
    |stack| == |frames| && forall i :: 0 <= i < |stack| ==> Matches(stack[i], frames[i])
  }

  lemma TopMatches(stack: seq<Entry>, frames: seq<Frame>)
    requires AllMatch(stack, frames) && stack != []
    ensures |stack| == |frames| && Matches(stack[|stack| - 1], frames[|stack| - 1])
  {
  }

  ghost function HeadsOf(stack: seq<Entry>): (h: Heads)
    ensures |h| == |stack|
  {
    seq(|stack|, i requires 0 <= i < |stack| => stack[i].link)
  }

  ghost predicate LinksAt(frames: seq<Frame>, heads: Heads, i: nat)
  {
    i < |frames| && i <= |heads| && frames[i].links == ChainOf(Below(heads, i))
  }

  /** Each frame was reached over the links of the chain below it. */
  ghost predicate LinksAgree(frames: seq<Frame>, heads: Heads)
  {
    forall i :: 0 <= i < |frames| ==> LinksAt(frames, heads, i)
  }

  /** The shared buffer holds every level's own text as a prefix; exactly it,
      when the top directory is not being read. */
  ghost predicate SharesText(r: Request, frames: seq<Frame>, text: string, length: nat)
  {
    && (forall i :: 0 <= i < |frames| ==> r.Cut(frames[i].path) <= text)
    && (frames != [] && !frames[|frames| - 1].phase.Reading? ==> r.Cut(frames[|frames| - 1].path) == text)
    && (frames != [] && frames[|frames| - 1].phase.Unopened? ==> |frames[|frames| - 1].path| == length)
  }

  /** What follows a path in the buffer. */
  lemma AddedText(r: Request, path: string, name: string, text: string)
    requires |path| <= r.limit
    requires if |path| + |name| < r.limit then text == path + name
             else if |path| == r.limit then text == r.Cut(path)
             else text == (path + name)[..r.limit - 1]
    ensures text == r.Cut(path + name)
  {
  }

  /** The stack, what its entries stand for, and the link nodes in use. */
  ghost predicate StackOk(r: Request, stack: seq<Entry>, frames: seq<Frame>, live: set<LinkNode>, freed: set<LinkNode>)
  {
    && AllMatch(stack, frames) && FramesOk(r, frames)
    && ChainsOk(HeadsOf(stack), live, freed) && LinksAgree(frames, HeadsOf(stack))
  }

  /** The top entry and its frame move on; the chain stays. */
  lemma TopMoves(r: Request, stack: seq<Entry>, frames: seq<Frame>, live: set<LinkNode>, freed: set<LinkNode>,
                 e: Entry, f: Frame)
    requires StackOk(r, stack, frames, live, freed) && stack != []
    requires e.link == stack[|stack| - 1].link && f.links == frames[|stack| - 1].links
    requires Matches(e, f) && FramesOk(r, frames[|stack| - 1 := f])
    ensures StackOk(r, stack[|stack| - 1 := e], frames[|stack| - 1 := f], live, freed)
  {
    hide FramesOk, ChainsOk;
    var stack', frames' := stack[|stack| - 1 := e], frames[|stack| - 1 := f];
    assert HeadsOf(stack') == HeadsOf(stack);
    forall i | 0 <= i < |frames'| ensures LinksAt(frames', HeadsOf(stack), i) {
      assert LinksAt(frames, HeadsOf(stack), i);
    }
  }

  /** The top entry's chain changes; nothing else does. */
  lemma TopRelinks(r: Request, stack: seq<Entry>, frames: seq<Frame>, live: set<LinkNode>, freed: set<LinkNode>,
                   link: LinkNode?, live': set<LinkNode>, freed': set<LinkNode>)
    requires StackOk(r, stack, frames, live, freed) && stack != []
    requires ChainsOk(HeadsOf(stack)[..|stack| - 1] + [link], live', freed')
    ensures StackOk(r, stack[|stack| - 1 := stack[|stack| - 1].(link := link)], frames, live', freed')
  {
    hide FramesOk, ChainsOk;
    var n := |stack| - 1;
    var stack' := stack[n := stack[n].(link := link)];
    assert HeadsOf(stack') == HeadsOf(stack)[..n] + [link];
    forall i | 0 <= i < |frames| ensures LinksAt(frames, HeadsOf(stack'), i) {
      assert LinksAt(frames, HeadsOf(stack), i);
    }
  }

  /** The node that only the top entry has. */
  ghost function Owning(stack: seq<Entry>): set<LinkNode>
    requires stack != []
  {
    var n := |stack| - 1;
    if stack[n].link != null && (n == 0 || stack[n - 1].link != stack[n].link) then {stack[n].link} else {}
  }

  /** The top entry gives up its own node and shares the chain below it. */
  lemma StackResets(r: Request, stack: seq<Entry>, frames: seq<Frame>, live: set<LinkNode>, freed: set<LinkNode>)
    requires StackOk(r, stack, frames, live, freed) && stack != []
    ensures var n, below := |stack| - 1, Below(HeadsOf(stack), |stack| - 1);
            && below == (if n == 0 then null else stack[n - 1].link) && Owning(stack) <= live
            && StackOk(r, stack[n := stack[n].(link := below)], frames, live - Owning(stack), freed + Owning(stack))
  {
    hide AllMatch, FramesOk, ChainsOk, LinksAgree;
    var n := |stack| - 1;
    var base, head := HeadsOf(stack)[..n], stack[n].link;
    assert HeadsOf(stack) == base + [head];
    ResetTop(base, head, live, freed);
    TopRelinks(r, stack, frames, live, freed, Below(base, n), live - Owning(stack), freed + Owning(stack));
  }

  lemma {:induction false} SharedPrefixes(r: Request, frames: seq<Frame>)
    requires FramesOk(r, frames) && frames != []
    ensures forall i :: 0 <= i < |frames| ==> frames[i].path <= frames[|frames| - 1].path
  {
    hide FrameOk, LinksLeft, Within, WellFormed;
    if |frames| > 1 {
      var front := frames[..|frames| - 1];
      DropTop(r, frames);
      SharedPrefixes(r, front);
      assert AboveNext(r, frames, |frames| - 1);
      forall i | 0 <= i < |front| ensures frames[i].path <= frames[|frames| - 1].path {
        assert front[i].path <= front[|front| - 1].path;
      }
    }
  }

  lemma SharedText(r: Request, frames: seq<Frame>)
    requires FramesOk(r, frames) && frames != []
    ensures forall i :: 0 <= i < |frames| ==> r.Cut(frames[i].path) <= r.Cut(frames[|frames| - 1].path)
  {
    hide FramesOk;
    SharedPrefixes(r, frames);
  }

  ghost function TodoOf(r: Request, frames: seq<Frame>): seq<Step>
  {
    if FramesOk(r, frames) then Pending(r, frames) else []
  }

  class DirectoryListing {
    const request: Request
    const buffer: PathBuffer
    var error: bool                  // the root's path does not fit
    var stack: seq<Entry>            // the top entry is the last
    ghost var frames: seq<Frame>     // what each entry stands for
    ghost var made: set<LinkNode>    // every link node ever allocated
    ghost var live: set<LinkNode>    // those not yet deleted
    ghost var freed: set<LinkNode>   // deleted

    ghost predicate Buffered()
      reads this`frames, buffer, buffer.data
    {
      buffer.Valid() && buffer.limit == request.limit && SharesText(request, frames, buffer.text, buffer.length)
    }

    /** The stack owns its link nodes, and none is lost: each is in use or
        deleted. */
    ghost predicate Owned()
      reads this
    {
      StackOk(request, stack, frames, live, freed) && made == live + freed
    }

    ghost predicate Valid()
      reads this, buffer, buffer.data
    {
      Owned() && Buffered() && !error
    }

    /** Everything the walk still has to do. */
    ghost function Todo(): seq<Step>
      reads this`frames
    {
      TodoOf(request, frames)
    }

    /** The walk stays within what is defined. */
    ghost predicate Regular()
      reads this`frames
    {
      AllDefined(Todo())
    }

    constructor (request: Request, dirName: string)
      requires WellFormed(request.fs) && request.root in request.fs.dirs
      requires EndsInSeparator(dirName) && NUL !in dirName
      ensures fresh(buffer) && fresh(buffer.data) && this.request == request
      ensures error <==> |dirName| > request.limit
      ensures !error ==> Valid() && stack != [] && Todo() == WalkRoot(request, dirName)
      ensures made == {}
    {
      hide FramesOk, Pending, RootFrame, WalkRoot, WellFormed, Request.Cut;
      this.request := request;
      buffer := new PathBuffer(request.limit);
      stack, made, live, freed := [NEW_ENTRY], {}, {}, {};
      frames := [RootFrame(request, dirName)];
      error := false;
      new;
      assert "" + dirName == dirName;
      var ok := AddText("", dirName);
      if !ok {
        error := true;
      } else {
        RootPending(request, dirName);
        assert HeadAt(HeadsOf(stack), 0);
      }
    }

    /** Adds to the path whose text fills the buffer. */
    method AddText(ghost path: string, name: string) returns (ok: bool)
      requires buffer.Valid() && buffer.limit == request.limit && NUL !in name
      requires buffer.text == request.Cut(path) && buffer.length == |path| <= request.limit
      modifies buffer, buffer.data
      ensures buffer.Valid() && buffer.text == request.Cut(path + name)
      ensures ok <==> |path + name| <= request.limit
      ensures ok ==> buffer.length == |path + name|
    {
      hide PathBuffer.Valid;
      ok := buffer.Add(name);
      AddedText(request, path, name, buffer.text);
    }

    // -------------------------------------------------------------- one entry's Next

    /** The top entry gives up the node it owns, if any, and shares the chain
        of its parent. */
    method ResetLink()
      requires Owned() && stack != []
      modifies this`stack, this`live, this`freed
      ensures Owned() && |stack| == |old(stack)|
      ensures live == old(live) - Owning(old(stack)) && freed == old(freed) + Owning(old(stack))
      ensures var n := |stack| - 1; stack == old(stack)[n := old(stack)[n].(link := Below(HeadsOf(old(stack)), n))]
    {
      hide StackOk, HeadsOf, Below;
      var n := |stack| - 1;
      var top := stack[n];
      StackResets(request, stack, frames, live, freed);
      ghost var drop := Owning(stack);
      if top.link != null && (n == 0 || stack[n - 1].link != top.link) {
        live, freed := live - {top.link}, freed + {top.link};
        top := top.(link := null);
      }
      if n > 0 {
        top := top.(link := stack[n - 1].link);
      }
      stack := stack[n := top];
      assert live == old(live) - drop && freed == old(freed) + drop;
    }

    /** Opens the top directory and puts its separator in the buffer. */
    method Open() returns (ok: bool)
      requires Valid() && stack != [] && !stack[|stack| - 1].done && !stack[|stack| - 1].lister
      modifies this`stack, this`frames, buffer, buffer.data
      ensures Valid() && |stack| == |frames| == |old(stack)|
      ensures ok ==> frames[|frames| - 1].phase.Reading? && Todo() == old(Todo())
      ensures !ok ==> frames[|frames| - 1].phase.Finished? &&
                      old(Todo()) == [Step(AsError, buffer.text)] + Todo()
    {
      hide Owned, FramesOk, Pending, Request.Open, Request.Cut, PathBuffer.Valid;
      TopIs();
      ghost var f := frames[|frames| - 1];
      var path := buffer.AsString();
      var d := request.Open(path);
      if d.None? {
        OpenFails(request, frames);
        assert f.(phase := Finished) == f.(phase := Finished, path := f.path);
        Finish(f.path);
        return false;
      }
      OpenWorks(request, frames);
      OpenedFrame(request, frames);
      if |stack| > 1 {
        var added := AddText(f.path, "/");
        assert added;
      }
      BeginReading(d.value, if |stack| == 1 then f.path else f.path + "/");
      return true;
    }

    lemma TopIs()
      requires Owned() && stack != []
      ensures |frames| == |stack| && FramesOk(request, frames)
      ensures Matches(stack[|stack| - 1], frames[|frames| - 1])
    {
      hide FramesOk, ChainsOk, LinksAgree;
      TopMatches(stack, frames);
    }

    /** The top directory is open as `dir`, under the text in the buffer. */
    method BeginReading(dir: DirId, ghost prefix: string)
      requires Owned() && !error && stack != [] && |frames| == |stack| && !stack[|stack| - 1].done
      requires buffer.Valid() && buffer.limit == request.limit && AtText(prefix) && dir == frames[|frames| - 1].dir
      requires var f := frames[|frames| - 1];
               FramesOk(request, frames[|frames| - 1 := Frame(Reading(0), prefix, f.dir, f.links)])
      modifies this`stack, this`frames
      ensures Valid() && |stack| == |old(stack)|
      ensures var was := old(frames); var f := was[|was| - 1];
              frames == was[|was| - 1 := Frame(Reading(0), prefix, f.dir, f.links)]
    {
      hide FramesOk, AllMatch, ChainsOk, LinksAgree, Request.Cut, PathBuffer.Valid;
      var n := |stack| - 1;
      var top := stack[n].(lister := true, dir := dir, pos := 0, pathLength := buffer.length);
      ghost var f := Frame(Reading(0), prefix, frames[n].dir, frames[n].links);
      TopMoves(request, stack, frames, live, freed, top, f);
      stack := stack[n := top];
      frames := frames[n := f];
      SharedText(request, frames);
    }

    /** The top directory is over; the buffer holds the text of `path`. */
    method Finish(ghost path: string)
      requires Owned() && !error && stack != [] && |frames| == |stack|
      requires buffer.Valid() && buffer.limit == request.limit && buffer.text == request.Cut(path)
      requires var n := |frames| - 1; FramesOk(request, frames[n := frames[n].(phase := Finished, path := path)])
      modifies this`stack, this`frames
      ensures Valid() && |stack| == |old(stack)|
      ensures var was := old(frames); var n := |was| - 1; frames == was[n := was[n].(phase := Finished, path := path)]
    {
      hide FramesOk, AllMatch, ChainsOk, LinksAgree, Request.Cut, PathBuffer.Valid;
      var n := |stack| - 1;
      ghost var f := frames[n].(phase := Finished, path := path);
      TopMoves(request, stack, frames, live, freed, stack[n].(done := true), f);
      stack := stack[n := stack[n].(done := true)];
      frames := frames[n := f];
      SharedText(request, frames);
    }

    /** Back to the directory's own text and chain. */
    method Rewind()
      requires Valid() && stack != [] && frames[|frames| - 1].phase.Reading?
      modifies this`stack, this`live, this`freed, buffer, buffer.data
      ensures Valid() && AtRest()
      ensures |stack| == |old(stack)| && old(freed) <= freed
    {
      hide FramesOk, FrameOk, ChainsOk, LinksAgree, Buffered, PathBuffer.Valid, Request.Cut;
      TopMatches(stack, frames);
      RewindText();
      hide AllMatch, AtText;
      ResetLink();
      assert Below(HeadsOf(stack), |stack| - 1) == Below(HeadsOf(old(stack)), |stack| - 1);
    }

    method RewindText()
      requires Owned() && Buffered() && stack != [] && |stack| == |frames| && frames[|frames| - 1].phase.Reading?
      requires stack[|stack| - 1].pathLength == |frames[|frames| - 1].path|
      modifies buffer, buffer.data
      ensures Buffered() && AtText(frames[|frames| - 1].path)
    {
      hide StackOk, FramesOk, SharesText, PathBuffer.Valid, Request.Cut;
      buffer.TextFits();
      assert FramesOk(request, frames) by { FramesOfStack(request, stack, frames, live, freed); }
      RewoundText(request, frames, buffer.text, buffer.length);
      buffer.Reset(stack[|stack| - 1].pathLength);
    }

    /** The buffer holds the text of `path` and nothing after it. */
    ghost predicate AtText(path: string)
      reads buffer
    {
      buffer.text == request.Cut(path) && buffer.length == |path|
    }

    /** The top directory is open, its text is all the buffer holds and its
        chain is that of the entry below. */
    ghost predicate AtRest()
      reads this`stack, this`frames, buffer
    {
      && stack != [] && |frames| == |stack| && frames[|frames| - 1].phase.Reading?
      && AtText(frames[|frames| - 1].path)
      && stack[|stack| - 1].link == Below(HeadsOf(stack), |stack| - 1)
    }

    /** Whether the link is among those followed to get here. */
    method Seen(id: FileId) returns (seen: bool)
      requires Owned() && stack != []
      ensures seen <==> id in ChainOf(stack[|stack| - 1].link)
    {
      hide AllMatch, FramesOk, LinksAgree, ChainsOk;
      ReachableIsLive(HeadsOf(stack), live, freed);
      var previous := stack[|stack| - 1].link;
      assert previous == HeadsOf(stack)[|stack| - 1];
      while previous != null
        invariant previous == null || previous in live
        invariant id in ChainOf(stack[|stack| - 1].link) <==> id in ChainOf(previous)
        decreases |ChainOf(previous)|
      {
        if previous.id == id { return true; }
        previous := previous.next;
      }
      return false;
    }

    /** Decides how the entry just read is reported; a followed link to a
        directory goes on top of the chain. `Skip` stands for reading on. `taken`
        is what the entry is taken for. */
    method Classify(e: Dirent, ghost taken: Maybe<Node>) returns (kind: StepKind)
      requires Owned() && buffer.Valid() && stack != []
      requires stack[|stack| - 1].link == Below(HeadsOf(stack), |stack| - 1)
      requires if request.FromType(e) then taken == Some(e.node) else taken == request.Lstat(buffer.text)
      modifies this`stack, this`made, this`live
      ensures Owned() && |stack| == |old(stack)| && old(made) <= made
      ensures taken.None? ==> kind == AsError
      ensures var links := ChainOf(Below(HeadsOf(old(stack)), |stack| - 1));
              taken.Some? ==>
                var t := Treat(request, e.name, taken.value, links);
                kind == KindOf(t) && (t.GoInto? ==> ChainOf(stack[|stack| - 1].link) == t.links)
      ensures Owns(HeadsOf(stack), |stack| - 1) || stack[|stack| - 1].link == Below(HeadsOf(stack), |stack| - 1)
    {
      hide FramesOk, AllMatch, ChainsOk, LinksAgree, PathBuffer.Valid, Request.Lstat;
      if e.typed && e.node.DirNode? {
        return if IsDots(e.name) then Skip else AsDirectory;
      } else if e.typed && e.node.FileNode? {
        return AsFile;
      } else if e.typed && !request.followLinks {
        return AsLink;
      }
      var path := buffer.AsString();
      var info := request.Lstat(path);
      if info.None? {
        return AsError;
      }
      var node := info.value;
      if request.followLinks && node.LinkNode? {
        var seen := Seen(node.id);
        if seen || node.target.Broken? {
          return AsLink;
        }
        if node.target.ToDir? {
          FollowLink(node.id);
          return if IsDots(e.name) then Skip else AsDirectory;
        }
        return AsFile;
      }
      if node.DirNode? {
        return if IsDots(e.name) then Skip else AsDirectory;
      } else if node.LinkNode? {
        return AsLink;
      } else {
        return AsFile;
      }
    }

    method FollowLink(id: FileId)
      requires Owned() && stack != []
      requires stack[|stack| - 1].link == Below(HeadsOf(stack), |stack| - 1)
      modifies this`stack, this`made, this`live
      ensures Owned() && |stack| == |old(stack)| && old(made) <= made
      ensures Owns(HeadsOf(stack), |stack| - 1)
      ensures var node := stack[|stack| - 1].link;
              node != null && fresh(node) && made == old(made) + {node} && live == old(live) + {node}
      ensures ChainOf(stack[|stack| - 1].link) == [id] + ChainOf(Below(HeadsOf(old(stack)), |stack| - 1))
    {
      hide FramesOk, AllMatch, ChainsOk, LinksAgree;
      var n := |stack| - 1;
      var node := new LinkNode(id, stack[n].link);
      ghost var base := HeadsOf(stack)[..n];
      assert HeadsOf(stack) == base + [Below(base, n)];
      FollowTop(base, node, live, freed);
      TopRelinks(request, stack, frames, live, freed, node, live + {node}, freed);
      made, live := made + {node}, live + {node};
      stack := stack[n := stack[n].(link := node)];
      assert HeadsOf(stack)[n] == node;
    }

    /** The top entry's chain is complete: something may be pushed on it. */
    ghost predicate Settled()
      reads this
    {
      stack != [] &&
      (Owns(HeadsOf(stack), |stack| - 1) || stack[|stack| - 1].link == Below(HeadsOf(stack), |stack| - 1))
    }

    /** `child` is the frame for the directory just reported. */
    ghost predicate IsChild(child: Frame)
      reads this, buffer
    {
      && Settled() && MayPush(request, frames, child)
      && request.Cut(child.path) == buffer.text && child.links == ChainOf(stack[|stack| - 1].link)
      && (child.phase.Unopened? ==> |child.path| == buffer.length)
    }

    /** The stream moves on; the text of the entry's path is in the buffer. */
    method MoveOn(ghost path: string)
      requires Owned() && !error && stack != [] && |frames| == |stack| && frames[|frames| - 1].phase.Reading?
      requires buffer.Valid() && buffer.limit == request.limit && buffer.text == request.Cut(path)
      requires frames[|frames| - 1].path <= path && FramesOk(request, Advanced(frames))
      modifies this`stack, this`frames
      ensures Valid() && HeadsOf(stack) == HeadsOf(old(stack)) && frames == Advanced(old(frames))
    {
      hide FramesOk, ChainsOk, LinksAgree, Request.Cut, PathBuffer.Valid;
      var n := |stack| - 1;
      ghost var f := frames[n];
      var top := stack[n].(pos := stack[n].pos + 1);
      TopMoves(request, stack, frames, live, freed, top, Onward(f));
      SharedText(request, frames);
      stack := stack[n := top];
      frames := frames[n := Onward(f)];
      assert HeadsOf(stack) == HeadsOf(old(stack));
      CutMonotone(request, f.path, path);
    }

    /** The top directory's next entry is `e`, whose path is `path`. */
    ghost predicate AtEntry(e: Dirent, path: string)
      reads this`frames
    {
      && FramesOk(request, frames) && frames != [] && FrameOk(request, frames[|frames| - 1], |frames| == 1)
      && Reads(request, frames[|frames| - 1], e, path)
    }

    lemma NextEntry(e: Dirent, path: string)
      requires Owned() && stack != [] && |frames| == |stack| && frames[|frames| - 1].phase.Reading?
      requires stack[|stack| - 1].dir in request.fs.dirs
      requires stack[|stack| - 1].pos < |request.fs.dirs[stack[|stack| - 1].dir].entries|
      requires e == request.fs.dirs[stack[|stack| - 1].dir].entries[stack[|stack| - 1].pos]
      requires path == frames[|frames| - 1].path + e.name
      ensures AtEntry(e, path) && IsSegment(e.name) && NUL !in e.name && |frames[|frames| - 1].path| <= request.limit
    {
      hide FramesOk, ChainsOk, LinksAgree;
      TopMatches(stack, frames);
      TopFrame(request, frames);
      EntryHasName(request, frames[|frames| - 1], e);
    }

    /** One readdir result: its name goes in the buffer and it is classified; a
        path too long ends the directory. */
    method ReadEntry() returns (kind: StepKind, ghost child: Frame)
      requires Valid() && Regular() && AtRest()
      requires stack[|stack| - 1].dir in request.fs.dirs
      requires stack[|stack| - 1].pos < |request.fs.dirs[stack[|stack| - 1].dir].entries|
      modifies this`stack, this`frames, this`made, this`live, buffer, buffer.data
      ensures Valid() && |stack| == |frames| == |old(stack)| && !kind.Pop?
      ensures old(made) <= made
      ensures kind.AsDirectory? && request.recursive ==> IsChild(child)
      ensures old(Todo()) == [Step(kind, buffer.text)] + Sub(request, kind, child) + Todo()
    {
      hide Owned, Todo, Sub, AtEntry, IsChild, SharesText, PathBuffer.Valid, Request.Cut;
      var n := |stack| - 1;
      var e := request.fs.dirs[stack[n].dir].entries[stack[n].pos];
      ghost var path := frames[n].path + e.name;
      NextEntry(e, path);
      var added := AddText(frames[n].path, e.name);
      if !added {
        child := frames[n];
        StopShort(e, path);
        NoSub(request, AsError, child);
        return AsError, child;
      }
      kind, child := TakeEntry(e, path);
    }

    /** An entry whose path does not fit. */
    method StopShort(e: Dirent, ghost path: string)
      requires Owned() && !error && stack != [] && |frames| == |stack| && AtEntry(e, path) && |path| > request.limit
      requires buffer.Valid() && buffer.limit == request.limit && buffer.text == request.Cut(path)
      modifies this`stack, this`frames
      ensures Valid() && |stack| == |frames| == |old(stack)|
      ensures old(Todo()) == [Step(AsError, buffer.text)] + Todo()
    {
      hide Owned, FramesOk, FrameOk, Pending, SharesText, PathBuffer.Valid, Request.Cut;
      ghost var f := frames[|frames| - 1];
      TooLongStep(request, frames, e, path);
      assert Frame(Finished, path, f.dir, f.links) == f.(phase := Finished, path := path);
      Finish(path);
    }

    /** An entry whose path fits. */
    method TakeEntry(e: Dirent, ghost path: string) returns (kind: StepKind, ghost child: Frame)
      requires Owned() && !error && stack != [] && |frames| == |stack| && AtEntry(e, path) && |path| <= request.limit
      requires buffer.Valid() && buffer.limit == request.limit && AtText(path) && Regular()
      requires stack[|stack| - 1].link == Below(HeadsOf(stack), |stack| - 1)
      modifies this`stack, this`frames, this`made, this`live
      ensures Valid() && |stack| == |frames| == |old(stack)| && !kind.Pop?
      ensures old(made) <= made
      ensures kind.AsDirectory? && request.recursive ==> IsChild(child)
      ensures old(Todo()) == [Step(kind, buffer.text)] + Sub(request, kind, child) + Todo()
    {
      hide Owned, FramesOk, FrameOk, Pending, MayPush, Sub, SharesText, PathBuffer.Valid, Request.Lstat,
           Request.Look, Request.FromType, Request.Cut, TreatAt, Treat, ChainOf, Below;
      var n := |stack| - 1;
      ghost var f := frames[n];
      NotStray(request, frames, e, path);
      EntryStep(request, frames, e, path);
      LooksUp(request, f, |frames| == 1, e, path);
      KindAt(request, path, e, f.links);
      LinksOfTop();
      child := ChildOf(f, path, TreatAt(request, path, e, f.links));
      MoveOn(path);
      assert HeadsOf(stack)[n] == stack[n].link;
      kind := Classify(e, request.Look(path, e));
    }

    lemma LinksOfTop()
      requires Owned() && stack != []
      ensures |frames| == |stack| && frames[|frames| - 1].links == ChainOf(Below(HeadsOf(stack), |stack| - 1))
    {
      hide FramesOk, ChainsOk;
      assert LinksAt(frames, HeadsOf(stack), |frames| - 1);
    }

    /** readdir has nothing more: the directory is finished. */
    method EndOfDirectory() returns (kind: StepKind)
      requires Valid() && AtRest() && stack[|stack| - 1].dir in request.fs.dirs
      requires stack[|stack| - 1].pos == |request.fs.dirs[stack[|stack| - 1].dir].entries|
      modifies this`stack, this`frames
      ensures Valid() && |stack| == |frames| == |old(stack)| && frames[|frames| - 1].phase.Finished?
      ensures kind.Pop? ==> old(Todo()) == Todo()
      ensures !kind.Pop? ==> kind.AsError? && old(Todo()) == [Step(AsError, buffer.text)] + Todo()
    {
      hide Pending, FramesOk, FrameOk, ChainsOk, LinksAgree, PathBuffer.Valid, Request.Cut;
      var n := |stack| - 1;
      TopFrame(request, frames);
      EndStep(request, frames);
      kind := if request.fs.dirs[stack[n].dir].faulty then AsError else Pop;
      Finish(frames[n].path);
    }

    /** Opens the top directory if need be and goes back to its own text. */
    method Prepare() returns (p: Prepared)
      requires Valid() && Regular() && stack != []
      modifies this`stack, this`frames, this`live, this`freed, buffer, buffer.data
      ensures Valid() && |stack| == |frames| == |old(stack)| && old(freed) <= freed
      ensures p.Over? ==> frames[|frames| - 1].phase.Finished? && Todo() == old(Todo())
      ensures p.Failed? ==> old(Todo()) == [Step(AsError, buffer.text)] + Todo()
      ensures p.Ready? ==>
                && AtRest() && Todo() == old(Todo()) && stack[|stack| - 1].dir in request.fs.dirs
                && stack[|stack| - 1].pos <= |request.fs.dirs[stack[|stack| - 1].dir].entries|
    {
      hide Owned, Buffered, TodoOf, FramesOk, FrameOk;
      TopIs();
      if stack[|stack| - 1].done {
        return Over;
      }
      if !stack[|stack| - 1].lister {
        var ok := Open();
        if !ok { return Failed; }
      }
      TopIs();
      Rewind();
      TopIs();
      TopFrame(request, frames);
      return Ready;
    }

    /** DirectoryListingEntry::Next on the top entry. `skipped` are the entries
        passed over; the result is the next step of the walk, with its path in
        the buffer. `Pop` is kListDone. */
    method Next() returns (kind: StepKind, ghost skipped: seq<Step>, ghost child: Frame)
      requires Valid() && Regular() && stack != []
      modifies this`stack, this`frames, this`made, this`live, this`freed, buffer, buffer.data
      ensures Valid() && |stack| == |frames| == |old(stack)| && !kind.Skip?
      ensures old(made) <= made && old(freed) <= freed
      ensures AllSkipped(skipped)
      ensures kind.AsDirectory? && request.recursive ==> IsChild(child)
      ensures kind.Pop? ==> frames[|frames| - 1].phase.Finished? && old(Todo()) == skipped + Todo()
      ensures !kind.Pop? ==>
                old(Todo()) == skipped + [Step(kind, buffer.text)] + Sub(request, kind, child) + Todo()
      decreases |Todo()|
    {
      hide Todo, Owned, Buffered, IsChild, Sub, AtRest, FrameOk, AllDefined, RootFrame;
      skipped, child := [], RootFrame(request, "");
      var p := Prepare();
      if p.Over? {
        return Pop, skipped, child;
      } else if p.Failed? {
        NoSub(request, AsError, child);
        return AsError, skipped, child;
      }
      if stack[|stack| - 1].pos == |request.fs.dirs[stack[|stack| - 1].dir].entries| {
        kind := EndOfDirectory();
        NoSub(request, kind, child);
        return kind, skipped, child;
      }
      kind, child := ReadEntry();
      if kind.Skip? {
        ghost var first := Step(kind, buffer.text);
        NoSub(request, kind, child);
        DefinedTail(old(Todo()), [first], Todo());
        kind, skipped, child := Next();
        skipped := [first] + skipped;
      }
    }

    // -------------------------------------------------------------- the stack

    method Push(ghost child: Frame)
      requires Valid() && IsChild(child)
      modifies this`stack, this`frames
      ensures Valid() && |stack| == |old(stack)| + 1 && frames == old(frames) + [child]
      ensures FrameOk(request, child, false) && Todo() == Rest(request, child, false) + old(Todo())
    {
      hide FramesOk, FrameOk, Pending, Rest, ChainsOk, PathBuffer.Valid;
      PushOk(request, stack, frames, live, freed, child);
      stack := stack + [NEW_ENTRY];
      frames := frames + [child];
    }

    /** Pop, with the entry's destructor. */
    method Drop()
      requires Valid() && stack != []
      modifies this`stack, this`frames, this`live, this`freed
      ensures Valid() && |stack| == |old(stack)| - 1 && frames == old(frames)[..|stack|]
      ensures old(freed) <= freed
    {
      hide FramesOk, Pending, ChainsOk, LinksAgree, PathBuffer.Valid;
      ResetLink();
      var n := |stack| - 1;
      assert Below(HeadsOf(stack), n) == Below(HeadsOf(old(stack)), n);
      PopOk(request, stack, frames, live, freed);
      stack := stack[..n];
      frames := frames[..n];
    }

    /** Whenever the listing is given up, every link node has been deleted. */
    method PopAll()
      requires Valid()
      modifies this`stack, this`frames, this`live, this`freed
      ensures Valid() && stack == [] && live == {} && freed == made && old(freed) <= freed
    {
      while stack != []
        invariant Valid() && old(freed) <= freed
        decreases |stack|
      {
        Drop();
      }
    }

    /** The walk's part of ListNext: the next step, and the push or pop it asks for. */
    method Advance() returns (kind: StepKind, ghost skipped: seq<Step>)
      requires Valid() && Regular() && stack != []
      modifies this`stack, this`frames, this`made, this`live, this`freed, buffer, buffer.data
      ensures old(made) <= made && old(freed) <= freed
      ensures Valid() && Regular() && !kind.Skip? && (stack == [] ==> kind.Pop?)
      ensures AllSkipped(skipped)
      ensures old(Todo()) == skipped + [Step(kind, buffer.text)] + Todo()
    {
      hide Owned, Buffered, TodoOf, FrameOk, Rest, IsChild, AllDefined, AllSkipped;
      ghost var child;
      kind, skipped, child := Next();
      if kind.AsDirectory? && request.recursive {
        Push(child);
        assert old(Todo()) == skipped + [Step(kind, buffer.text)] + Todo();
      } else if kind.Pop? {
        TopPops();
        Drop();
      }
      DefinedTail(old(Todo()), skipped + [Step(kind, buffer.text)], Todo());
    }

    /** A finished top entry has one step left, under the text in the buffer. */
    lemma TopPops()
      requires Valid() && stack != [] && |stack| == |frames| && frames[|frames| - 1].phase.Finished?
      ensures Todo() == [Step(Pop, buffer.text)] + TodoOf(request, frames[..|frames| - 1])
    {
      hide ChainsOk, LinksAgree, AllMatch, PathBuffer.Valid, FrameOk, Above, LinksLeft, Request.Cut;
      DropTop(request, frames);
      assert FrameOk(request, frames[|frames| - 1], |frames| == 1);
    }
  }

  lemma PushOk(r: Request, stack: seq<Entry>, frames: seq<Frame>, live: set<LinkNode>, freed: set<LinkNode>,
               child: Frame)
    requires StackOk(r, stack, frames, live, freed) && MayPush(r, frames, child) && |stack| == |frames|
    requires Owns(HeadsOf(stack), |stack| - 1) || stack[|stack| - 1].link == Below(HeadsOf(stack), |stack| - 1)
    requires child.links == ChainOf(stack[|stack| - 1].link)
    ensures StackOk(r, stack + [NEW_ENTRY], frames + [child], live, freed)
    ensures FrameOk(r, child, false)
    ensures Pending(r, frames + [child]) == Rest(r, child, false) + Pending(r, frames)
  {
    hide AllMatch, FramesOk, FrameOk, MayPush, Pending, Rest, ChainsOk, LinksAgree;
    MayPushPending(r, frames, child);
    MatchPush(stack, frames, child);
    PushTop(HeadsOf(stack), live, freed);
    LinksPush(frames, HeadsOf(stack), child);
    HeadsPush(stack);
  }

  lemma MayPushPending(r: Request, frames: seq<Frame>, child: Frame)
    requires FramesOk(r, frames) && MayPush(r, frames, child)
    ensures frames != [] && FramesOk(r, frames + [child]) && FrameOk(r, child, false)
    ensures child.phase.Unopened? || child.phase.Missing?
    ensures Pending(r, frames + [child]) == Rest(r, child, false) + Pending(r, frames)
  {
    PushPending(r, frames, child);
  }

  lemma MatchPush(stack: seq<Entry>, frames: seq<Frame>, child: Frame)
    requires AllMatch(stack, frames) && (child.phase.Unopened? || child.phase.Missing?)
    ensures AllMatch(stack + [NEW_ENTRY], frames + [child])
  {
  }

  lemma HeadsPush(stack: seq<Entry>)
    ensures HeadsOf(stack + [NEW_ENTRY]) == HeadsOf(stack) + [null]
  {
  }

  lemma LinksPush(frames: seq<Frame>, heads: Heads, child: Frame)
    requires LinksAgree(frames, heads) && |heads| == |frames| > 0 && child.links == ChainOf(heads[|heads| - 1])
    requires Owns(heads, |heads| - 1) || heads[|heads| - 1] == Below(heads, |heads| - 1)
    ensures LinksAgree(frames + [child], heads + [null])
  {
    forall i | 0 <= i < |frames + [child]| ensures LinksAt(frames + [child], heads + [null], i) {
      if i < |frames| { assert LinksAt(frames, heads, i); }
    }
  }

  lemma PopOk(r: Request, stack: seq<Entry>, frames: seq<Frame>, live: set<LinkNode>, freed: set<LinkNode>)
    requires StackOk(r, stack, frames, live, freed) && stack != []
    requires stack[|stack| - 1].link == Below(HeadsOf(stack), |stack| - 1)
    ensures StackOk(r, stack[..|stack| - 1], frames[..|stack| - 1], live, freed)
    ensures |stack| > 1 ==> frames[|stack| - 2].phase.Reading?
  {
    hide FrameOk, Pending, ChainsOk, LinksLeft, Within, WellFormed;
    var n := |stack| - 1;
    var heads, heads' := HeadsOf(stack), HeadsOf(stack[..n]);
    assert heads == heads' + [Below(heads', n)];
    PopTop(heads', live, freed);
    DropTop(r, frames);
    if n > 0 { assert AboveNext(r, frames, n); }
    forall i | 0 <= i < n ensures LinksAt(frames[..n], heads', i) {
      assert LinksAt(frames, heads, i);
    }
  }

  datatype Prepared = Over | Failed | Ready

  lemma TopFrame(r: Request, frames: seq<Frame>)
    requires FramesOk(r, frames) && frames != []
    ensures var f := frames[|frames| - 1];
            && FrameOk(r, f, |frames| == 1) && f.dir in r.fs.dirs
            && (f.phase.Reading? ==> f.phase.pos <= |r.fs.dirs[f.dir].entries| && |f.path| <= r.limit)
  {
    assert FrameOk(r, frames[|frames| - 1], |frames| == 1);
  }

  lemma CutMonotone(r: Request, a: string, b: string)
    requires a <= b
    ensures r.Cut(a) <= r.Cut(b)
  {
  }

  lemma FramesOfStack(r: Request, stack: seq<Entry>, frames: seq<Frame>, live: set<LinkNode>, freed: set<LinkNode>)
    requires StackOk(r, stack, frames, live, freed)
    ensures FramesOk(r, frames) && |stack| == |frames|
  {
    hide FramesOk, ChainsOk, LinksAgree;
  }

  /** Going back to a directory's own text. */
  lemma ResetText(r: Request, path: string, text: string)
    requires |path| <= r.limit && r.Cut(path) <= text && |text| < r.limit
    ensures |path| <= |text| || |path| == r.limit
    ensures (if |path| <= |text| then text[..|path|] else text) == r.Cut(path)
  {
  }

  lemma RewoundText(r: Request, frames: seq<Frame>, text: string, length: nat)
    requires FramesOk(r, frames) && frames != [] && frames[|frames| - 1].phase.Reading?
    requires SharesText(r, frames, text, length) && |text| < r.limit
    ensures var path := frames[|frames| - 1].path;
            && (|path| <= |text| || |path| == r.limit)
            && (if |path| <= |text| then text[..|path|] else text) == r.Cut(path)
            && SharesText(r, frames, r.Cut(path), |path|)
  {
    hide FramesOk, FrameOk, Request.Cut;
    SharedText(r, frames);
    TopFrame(r, frames);
    ResetText(r, frames[|frames| - 1].path, text);
  }

  /** A directory that opens was there when it was pushed. */
  lemma OpenedFrame(r: Request, frames: seq<Frame>)
    requires FramesOk(r, frames) && frames != []
    requires frames[|frames| - 1].phase.Missing? || frames[|frames| - 1].phase.Unopened?
    requires r.Open(r.Cut(frames[|frames| - 1].path)).Some?
    ensures frames[|frames| - 1].phase.Unopened? && |frames[|frames| - 1].path| <= r.limit
  {
    assert FrameOk(r, frames[|frames| - 1], |frames| == 1);
  }

  lemma EntryHasName(r: Request, f: Frame, e: Dirent)
    requires WellFormed(r.fs) && f.phase.Reading? && f.dir in r.fs.dirs && f.phase.pos < |r.fs.dirs[f.dir].entries|
    requires e == r.fs.dirs[f.dir].entries[f.phase.pos]
    ensures IsSegment(e.name) && NUL !in e.name
  {
    assert GoodEntry(r.fs, f.dir, e);
  }

  /** A walk that stays within what is defined goes on after a path that fits. */
  lemma NotStray(r: Request, frames: seq<Frame>, e: Dirent, path: string)
    requires FramesOk(r, frames) && frames != [] && FrameOk(r, frames[|frames| - 1], |frames| == 1)
    requires Reads(r, frames[|frames| - 1], e, path) && |path| <= r.limit
    requires AllDefined(TodoOf(r, frames))
    ensures GoesOn(TreatAt(r, path, e, frames[|frames| - 1].links))
  {
    if TreatAt(r, path, e, frames[|frames| - 1].links).Stray? {
      StrayStep(r, frames, e, path);
    }
  }

  lemma NoSub(r: Request, kind: StepKind, child: Frame)
    requires kind != AsDirectory
    ensures Sub(r, kind, child) == []
  {
  }

  /** The kind reported is the one that the node asks for. */
  lemma KindAt(r: Request, path: string, e: Dirent, links: seq<FileId>)
    requires |path| <= r.limit && GoesOn(TreatAt(r, path, e, links))
    ensures var node, t := r.Look(path, e), TreatAt(r, path, e, links);
            && (node.None? ==> t == Report(AsError))
            && (node.Some? ==>
                  var u := Treat(r, e.name, node.value, links);
                  KindOf(t) == KindOf(u) && (Enters(r, t) ==> u.GoInto? && t.links == u.links))
            && !KindOf(t).Pop?
            && (KindOf(t) == AsDirectory && r.recursive ==> Enters(r, t))
  {
    hide Request.Look;
  }

  ghost function Advanced(frames: seq<Frame>): seq<Frame>
    requires frames != [] && frames[|frames| - 1].phase.Reading?
  {
    var f := frames[|frames| - 1];
    frames[|frames| - 1 := f.(phase := Reading(f.phase.pos + 1))]
  }

  ghost function RootFrame(r: Request, dirName: string): Frame
  {
    var d := r.DirAt(dirName);
    if d.Some? && d.value in r.fs.dirs then Frame(Unopened, dirName, d.value, [])
    else Frame(Missing, dirName, r.root, [])
  }

  lemma RootPending(r: Request, dirName: string)
    requires WellFormed(r.fs) && r.root in r.fs.dirs && EndsInSeparator(dirName) && |dirName| <= r.limit
    ensures FramesOk(r, [RootFrame(r, dirName)])
    ensures Pending(r, [RootFrame(r, dirName)]) == WalkRoot(r, dirName)
    ensures var f := RootFrame(r, dirName);
            f.path == dirName && f.links == [] && (f.phase.Missing? || f.phase.Unopened?)
  {
    hide WellFormed, Request.DirAt, Request.Cut, WalkDir, EndsInSeparator;
    var fs := [RootFrame(r, dirName)];
    CutNames(r, dirName);
    assert FrameOk(r, fs[0], true) by { assert Elements([]) == {}; }
    assert fs[..0] == [];
    assert Pending(r, []) == [];
  }
}
