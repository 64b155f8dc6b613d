/** The paused state of a directory walk as values: a stack of frames, and the
    steps of the reference walk that such a stack still has to make. */
module WalkFrames {
  import opened Basics
  import opened PathSpec
  import opened FileTree

  datatype Phase = Missing | Unopened | Reading(pos: nat) | Finished

  /** `path` is the path the frame stands for, of which the shared buffer holds
      what fits: the directory's path when pushed, its prefix with separator once
      reading. `links` are the links followed to reach the directory, latest
      first. */
  datatype Frame = Frame(phase: Phase, path: string, dir: DirId, links: seq<FileId>)

  ghost predicate FrameOk(r: Request, f: Frame, isRoot: bool)
  {
    && WellFormed(r.fs) && Within(r.fs, f.dir, f.links)
    && match f.phase
       case Missing => r.Open(r.Cut(f.path)).None?
       case Unopened =>
         && r.DirAt(r.Cut(f.path)) == Some(f.dir) && IsPrefix(r, if isRoot then f.path else f.path + "/", f.dir)
       case Reading(pos) => IsPrefix(r, f.path, f.dir) && pos <= |r.fs.dirs[f.dir].entries|
       case Finished => true
  }

  /** Names put after `prefix` are those of the entries of `d`. */
  predicate IsPrefix(r: Request, prefix: string, d: DirId)
  {
    EndsInSeparator(prefix) && r.DirAt(prefix) == Some(d) && |prefix| <= r.limit
  }

  /** What the frame itself still has to do, ending with its own removal. */
  ghost function Rest(r: Request, f: Frame, isRoot: bool): (w: seq<Step>)
    requires FrameOk(r, f, isRoot)
    ensures w != []
  {
    match f.phase
    case Missing => [Step(AsError, r.Cut(f.path)), Step(Pop, r.Cut(f.path))]
    case Unopened => WalkDir(r, f.path, isRoot, f.dir, f.links)
    case Reading(pos) => WalkFrom(r, f.path, f.dir, pos, f.links)
    case Finished => [Step(Pop, r.Cut(f.path))]
  }

  /** The whole listing of the directory that `text` names, if it names one. */
  ghost function WalkRoot(r: Request, text: string): seq<Step>
    requires WellFormed(r.fs)
  {
    var d := r.DirAt(text);
    if d.Some? && d.value in r.fs.dirs then WalkDir(r, text, true, d.value, [])
    else [Step(AsError, r.Cut(text)), Step(Pop, r.Cut(text))]
  }

  /** A frame directly above another: entered from it, and lower down if there
      can be more above it. */
  ghost predicate Above(r: Request, lower: Frame, upper: Frame)
    requires WellFormed(r.fs) && Within(r.fs, lower.dir, lower.links) && Within(r.fs, upper.dir, upper.links)
  {
    && lower.phase.Reading? && lower.path <= upper.path
    && (upper.phase.Missing? || upper.phase.Finished?
        || (upper.links == lower.links && r.fs.height[upper.dir] < r.fs.height[lower.dir])
        || LinksLeft(r.fs, upper.links) < LinksLeft(r.fs, lower.links))
  }

  ghost predicate AboveNext(r: Request, fs: seq<Frame>, i: nat)
  {
    && 0 < i < |fs| && WellFormed(r.fs)
    && Within(r.fs, fs[i - 1].dir, fs[i - 1].links) && Within(r.fs, fs[i].dir, fs[i].links)
    && Above(r, fs[i - 1], fs[i])
  }

  ghost predicate FramesOk(r: Request, fs: seq<Frame>)
  {
    && (forall i :: 0 <= i < |fs| ==> FrameOk(r, fs[i], i == 0))
    && (forall i :: 0 < i < |fs| ==> AboveNext(r, fs, i))
  }

  lemma DropTop(r: Request, fs: seq<Frame>)
    requires FramesOk(r, fs) && fs != []
    ensures FramesOk(r, fs[..|fs| - 1])
  {
    hide FrameOk, LinksLeft, WellFormed, Within, Above;
    var front := fs[..|fs| - 1];
    forall i | 0 < i < |front| ensures AboveNext(r, front, i) {
      assert AboveNext(r, fs, i);
    }
  }

  ghost function Pending(r: Request, fs: seq<Frame>): (w: seq<Step>)
    requires FramesOk(r, fs)
    ensures fs != [] ==> w != []
  {
    if fs == [] then []
    else
      DropTop(r, fs);
      Rest(r, fs[|fs| - 1], |fs| == 1) + Pending(r, fs[..|fs| - 1])
  }

  /** Changing only the top frame. */
  ghost predicate Retopped(old_: seq<Frame>, new_: seq<Frame>)
  {
    |old_| == |new_| > 0 && old_[..|old_| - 1] == new_[..|new_| - 1]
  }

  lemma RetopPending(r: Request, a: seq<Frame>, b: seq<Frame>, done: seq<Step>)
    requires FramesOk(r, a) && FramesOk(r, b) && Retopped(a, b)
    requires Rest(r, a[|a| - 1], |a| == 1) == done + Rest(r, b[|b| - 1], |b| == 1)
    ensures Pending(r, a) == done + Pending(r, b)
  {
    hide FrameOk, Rest, Above;
    DropTop(r, a);
    var below := Pending(r, a[..|a| - 1]);
    assert done + Rest(r, b[|b| - 1], |b| == 1) + below == done + (Rest(r, b[|b| - 1], |b| == 1) + below);
  }

  /** A top frame that moves on within its directory keeps the stack ordered. */
  lemma RetopOk(r: Request, a: seq<Frame>, f: Frame)
    requires FramesOk(r, a) && a != [] && FrameOk(r, f, |a| == 1)
    requires f.dir == a[|a| - 1].dir && f.links == a[|a| - 1].links && a[|a| - 1].path <= f.path
    requires f.phase.Finished? || (!a[|a| - 1].phase.Missing? && !a[|a| - 1].phase.Finished?)
    ensures FramesOk(r, a[|a| - 1 := f]) && Retopped(a, a[|a| - 1 := f])
  {
    hide FrameOk, LinksLeft, WellFormed, Within;
    var b := a[|a| - 1 := f];
    forall i | 0 < i < |b| ensures AboveNext(r, b, i) {
      assert AboveNext(r, a, i);
    }
  }

  /** Pushing on within a directory: the top frame becomes `f`. */
  lemma Retop(r: Request, a: seq<Frame>, f: Frame, done: seq<Step>)
    requires FramesOk(r, a) && a != [] && FrameOk(r, f, |a| == 1)
    requires f.dir == a[|a| - 1].dir && f.links == a[|a| - 1].links && a[|a| - 1].path <= f.path
    requires f.phase.Finished? || (!a[|a| - 1].phase.Missing? && !a[|a| - 1].phase.Finished?)
    requires Rest(r, a[|a| - 1], |a| == 1) == done + Rest(r, f, |a| == 1)
    ensures FramesOk(r, a[|a| - 1 := f]) && Pending(r, a) == done + Pending(r, a[|a| - 1 := f])
  {
    hide FrameOk, Rest;
    RetopOk(r, a, f);
    RetopPending(r, a, a[|a| - 1 := f], done);
  }

  lemma OpenFails(r: Request, a: seq<Frame>)
    requires FramesOk(r, a) && a != [] && (a[|a| - 1].phase.Missing? || a[|a| - 1].phase.Unopened?)
    requires r.Open(r.Cut(a[|a| - 1].path)).None?
    ensures var f := a[|a| - 1].(phase := Finished);
            && FramesOk(r, a[|a| - 1 := f])
            && Pending(r, a) == [Step(AsError, r.Cut(f.path))] + Pending(r, a[|a| - 1 := f])
  {
    hide r.DirAt, r.Cut;
    var f := a[|a| - 1];
    Retop(r, a, f.(phase := Finished), [Step(AsError, r.Cut(f.path))]);
  }

  /** An opened directory reads under its path with a separator. */
  lemma OpenWorks(r: Request, a: seq<Frame>)
    requires FramesOk(r, a) && a != [] && (a[|a| - 1].phase.Missing? || a[|a| - 1].phase.Unopened?)
    requires r.Open(r.Cut(a[|a| - 1].path)).Some?
    ensures var f := a[|a| - 1];
            var prefix := if |a| == 1 then f.path else f.path + "/";
            var f' := Frame(Reading(0), prefix, f.dir, f.links);
            && r.Open(r.Cut(f.path)).value == f.dir && |prefix| <= r.limit
            && FramesOk(r, a[|a| - 1 := f']) && Pending(r, a[|a| - 1 := f']) == Pending(r, a)
  {
    hide r.DirAt, r.Cut;
    var f := a[|a| - 1];
    var prefix := if |a| == 1 then f.path else f.path + "/";
    assert FrameOk(r, f, |a| == 1);
    Retop(r, a, Frame(Reading(0), prefix, f.dir, f.links), []);
  }

  /** At the end of a directory: an error if readdir failed, and then its removal. */
  lemma EndStep(r: Request, a: seq<Frame>)
    requires FramesOk(r, a) && a != [] && a[|a| - 1].phase.Reading?
    requires FrameOk(r, a[|a| - 1], |a| == 1) && a[|a| - 1].phase.pos == |r.fs.dirs[a[|a| - 1].dir].entries|
    ensures var f := a[|a| - 1].(phase := Finished);
            && FramesOk(r, a[|a| - 1 := f])
            && Pending(r, a) == (if r.fs.dirs[f.dir].faulty then [Step(AsError, r.Cut(f.path))] else [])
                                + Pending(r, a[|a| - 1 := f])
  {
    hide r.DirAt, r.Cut;
    var f := a[|a| - 1];
    Retop(r, a, f.(phase := Finished), if r.fs.dirs[f.dir].faulty then [Step(AsError, r.Cut(f.path))] else []);
  }

  // ---------------------------------------------------------------- one entry

  /** The next entry of the directory that `f` reads, and its path. */
  ghost predicate Reads(r: Request, f: Frame, e: Dirent, path: string)
  {
    && f.phase.Reading? && f.dir in r.fs.dirs && f.phase.pos < |r.fs.dirs[f.dir].entries|
    && e == r.fs.dirs[f.dir].entries[f.phase.pos] && path == f.path + e.name
  }

  /** The frame after its next entry. */
  function Onward(f: Frame): Frame
    requires f.phase.Reading?
  {
    f.(phase := Reading(f.phase.pos + 1))
  }

  /** The frame that entering a directory pushes. */
  function ChildOf(f: Frame, path: string, t: Treatment): Frame
  {
    match t
    case GoInto(d, links) => Frame(Unopened, path, d, links)
    case Blocked(links) => Frame(Missing, path, f.dir, links)
    case _ => f
  }

  predicate Enters(r: Request, t: Treatment) { r.recursive && (t.GoInto? || t.Blocked?) }

  /** An entered directory can be pushed. */
  lemma IntoChild(r: Request, f: Frame, isRoot: bool, e: Dirent, path: string)
    requires FrameOk(r, f, isRoot) && Reads(r, f, e, path)
    requires TreatAt(r, path, e, f.links).GoInto? && r.recursive
    ensures var t := TreatAt(r, path, e, f.links);
            var child := ChildOf(f, path, t);
            && FrameOk(r, child, false) && Above(r, Onward(f), child)
            && Inside(r, f.path, f.dir, f.phase.pos, f.links) == WalkDir(r, path, false, t.dir, t.links)
  {
    hide LinksLeft, Within, WellFormed, WalkDir, Treat, TreatAt, Request.Lstat, Request.DirAt, Request.Cut, Follow;
    GoIntoNear(r, path, e, f.links);
    GoIntoDescends(r, f.dir, f.phase.pos, f.links);
    PathOfEntry(r, f.path, f.dir, f.phase.pos);
  }

  /** The walk below an entry is that of the frame pushed for it. */
  lemma ChildRest(r: Request, f: Frame, isRoot: bool, e: Dirent, path: string)
    requires FrameOk(r, f, isRoot) && Reads(r, f, e, path)
    ensures var t := TreatAt(r, path, e, f.links);
            var child := ChildOf(f, path, t);
            && (Enters(r, t) ==> FrameOk(r, child, false) && Above(r, Onward(f), child)
                                 && Inside(r, f.path, f.dir, f.phase.pos, f.links) == Rest(r, child, false))
            && (!Enters(r, t) ==> Inside(r, f.path, f.dir, f.phase.pos, f.links) == [])
  {
    hide LinksLeft, Within, WellFormed, WalkDir, WalkFrom, Treat, TreatAt, Request.Lstat, Request.DirAt;
    var t := TreatAt(r, path, e, f.links);
    if t.GoInto? && r.recursive {
      IntoChild(r, f, isRoot, e, path);
    } else if t.Blocked? {
      BlockedWithin(r, f, isRoot, e, path);
    }
  }

  lemma BlockedWithin(r: Request, f: Frame, isRoot: bool, e: Dirent, path: string)
    requires FrameOk(r, f, isRoot) && Reads(r, f, e, path)
    requires TreatAt(r, path, e, f.links).Blocked?
    ensures Within(r.fs, f.dir, TreatAt(r, path, e, f.links).links)
    ensures r.recursive && r.Open(r.Cut(path)).None?
  {
    hide LinksLeft, Request.Lstat, Request.DirAt;
    var node := r.Look(path, e).value;
    if node.LinkNode? && TreatAt(r, path, e, f.links).links != f.links {
      LstatFinds(r, r.Cut(path));
      assert node.id in Links(r.fs);
      FewerLinks(r.fs, node.id, f.links);
    }
  }

  /** Reading one entry of the top directory. */
  lemma ReadStep(r: Request, f: Frame, isRoot: bool, e: Dirent, path: string)
    requires FrameOk(r, f, isRoot) && Reads(r, f, e, path)
    ensures var t := TreatAt(r, path, e, f.links);
            var child, first := ChildOf(f, path, t), Step(KindOf(t), r.Cut(path));
            && FrameOk(r, Onward(f), isRoot) && FrameOk(r, Frame(Finished, path, f.dir, f.links), isRoot)
            && (Enters(r, t) ==> FrameOk(r, child, false))
            && Rest(r, f, isRoot) ==
                 if GoesOn(t) then
                   [first] + (if Enters(r, t) then Rest(r, child, false) else []) + Rest(r, Onward(f), isRoot)
                 else [first] + Rest(r, Frame(Finished, path, f.dir, f.links), isRoot)
  {
    hide LinksLeft, Within, WellFormed, WalkDir, Inside, TreatAt, KindOf, Request.Cut, Request.DirAt, IsPrefix, ChildOf;
    ChildRest(r, f, isRoot, e, path);
  }

  /** lstat, asked about the text in the buffer, sees what the entry is taken for. */
  lemma LooksUp(r: Request, f: Frame, isRoot: bool, e: Dirent, path: string)
    requires FrameOk(r, f, isRoot) && Reads(r, f, e, path) && |path| <= r.limit
    ensures GoodEntry(r.fs, f.dir, e)
    ensures r.Look(path, e) == if r.FromType(e) then Some(e.node) else r.Lstat(r.Cut(path))
  {
    assert GoodEntry(r.fs, f.dir, e);
    PathOfEntry(r, f.path, f.dir, f.phase.pos);
    hide Request.Lstat, Request.DirAt;
  }

  /** What a step that reads an entry adds to the walk below it. */
  ghost function Sub(r: Request, kind: StepKind, child: Frame): seq<Step>
  {
    if kind == AsDirectory && r.recursive && FrameOk(r, child, false) then Rest(r, child, false) else []
  }

  ghost predicate MayPush(r: Request, a: seq<Frame>, child: Frame)
  {
    && a != [] && FrameOk(r, child, false) && (child.phase.Unopened? || child.phase.Missing?)
    && FrameOk(r, a[|a| - 1], |a| == 1) && Above(r, a[|a| - 1], child)
  }

  /** What is left at `a` is the step, the walk below `child`, and what is left at `b`. */
  ghost predicate Does(r: Request, a: seq<Frame>, step: Step, child: Frame, b: seq<Frame>)
  {
    && FramesOk(r, a) && FramesOk(r, b)
    && Pending(r, a) == [step] + Sub(r, step.kind, child) + Pending(r, b)
  }

  /** Reading one entry in a stack of frames. */
  lemma EntryStep(r: Request, a: seq<Frame>, e: Dirent, path: string)
    requires FramesOk(r, a) && a != [] && FrameOk(r, a[|a| - 1], |a| == 1) && Reads(r, a[|a| - 1], e, path)
    requires GoesOn(TreatAt(r, path, e, a[|a| - 1].links))
    ensures var f := a[|a| - 1];
            var t, b := TreatAt(r, path, e, f.links), a[|a| - 1 := Onward(f)];
            && (Enters(r, t) ==> MayPush(r, b, ChildOf(f, path, t)))
            && Does(r, a, Step(KindOf(t), r.Cut(path)), ChildOf(f, path, t), b)
  {
    var f := a[|a| - 1];
    ReadStep(r, f, |a| == 1, e, path);
    ChildRest(r, f, |a| == 1, e, path);
    hide TreatAt, Above, FrameOk, Rest, FramesOk, Pending, Inside, Request.Cut;
    var t := TreatAt(r, path, e, f.links);
    EntersExactly(r, path, e, f.links);
    Retop(r, a, Onward(f), [Step(KindOf(t), r.Cut(path))] + Sub(r, KindOf(t), ChildOf(f, path, t)));
  }

  lemma EntersExactly(r: Request, path: string, e: Dirent, links: seq<FileId>)
    ensures var t := TreatAt(r, path, e, links);
            && (KindOf(t) == AsDirectory <==> t.GoInto? || t.Blocked?)
            && (t.Blocked? ==> r.recursive)
  {
  }

  /** A path that does not fit ends its directory. */
  lemma TooLongStep(r: Request, a: seq<Frame>, e: Dirent, path: string)
    requires FramesOk(r, a) && a != [] && FrameOk(r, a[|a| - 1], |a| == 1) && Reads(r, a[|a| - 1], e, path)
    requires |path| > r.limit
    ensures var b := a[|a| - 1 := Frame(Finished, path, a[|a| - 1].dir, a[|a| - 1].links)];
            FramesOk(r, b) && Pending(r, a) == [Step(AsError, r.Cut(path))] + Pending(r, b)
  {
    var f := a[|a| - 1];
    ReadStep(r, f, |a| == 1, e, path);
    hide Above, FrameOk, Rest, FramesOk, Pending, Request.Cut;
    Retop(r, a, Frame(Finished, path, f.dir, f.links), [Step(AsError, r.Cut(path))]);
  }

  /** Where the walk is lost, its next step says so. */
  lemma StrayStep(r: Request, a: seq<Frame>, e: Dirent, path: string)
    requires FramesOk(r, a) && a != [] && FrameOk(r, a[|a| - 1], |a| == 1) && Reads(r, a[|a| - 1], e, path)
    requires TreatAt(r, path, e, a[|a| - 1].links).Stray?
    ensures Step(Astray, r.Cut(path)) in Pending(r, a)
  {
    ReadStep(r, a[|a| - 1], |a| == 1, e, path);
    hide FrameOk, TreatAt, Request.Cut;
    assert Rest(r, a[|a| - 1], |a| == 1)[0] == Step(Astray, r.Cut(path));
  }

  lemma PushPending(r: Request, a: seq<Frame>, f: Frame)
    requires FramesOk(r, a) && a != [] && FrameOk(r, f, false)
    requires WellFormed(r.fs) && Within(r.fs, f.dir, f.links) && Within(r.fs, a[|a| - 1].dir, a[|a| - 1].links)
    requires Above(r, a[|a| - 1], f)
    ensures FramesOk(r, a + [f]) && Pending(r, a + [f]) == Rest(r, f, false) + Pending(r, a)
  {
    hide FrameOk, Rest, Above, LinksLeft, WellFormed, Within;
    var b := a + [f];
    assert b[..|a|] == a;
    forall i | 0 < i < |b| ensures AboveNext(r, b, i) {
      if i < |a| { assert AboveNext(r, a, i); }
    }
  }

  // ---------------------------------------------------------------- depth

  /** At most this many directories can be open at once below `f`. */
  ghost function Room(r: Request, f: Frame, maxHeight: nat): nat
    requires WellFormed(r.fs) && Within(r.fs, f.dir, f.links)
  {
    LinksLeft(r.fs, f.links) * (maxHeight + 1) + r.fs.height[f.dir]
  }

  /** Lexicographic order of (links left, height) as one number. */
  lemma RoomOrder(a: nat, ha: nat, b: nat, hb: nat, m: nat)
    requires ha <= m && (a < b || (a == b && ha < hb))
    ensures a * (m + 1) + ha < b * (m + 1) + hb
  {
    var k := m + 1;
    if a < b {
      TimesMonotone(a + 1, b, k);
      assert (a + 1) * k == a * k + k;
    }
  }

  lemma AboveHasLessRoom(r: Request, lower: Frame, upper: Frame, maxHeight: nat)
    requires WellFormed(r.fs) && Within(r.fs, lower.dir, lower.links) && Within(r.fs, upper.dir, upper.links)
    requires Above(r, lower, upper) && upper.phase.Reading? && r.fs.height[upper.dir] <= maxHeight
    ensures Room(r, upper, maxHeight) < Room(r, lower, maxHeight)
  {
    hide LinksLeft;
    RoomOrder(LinksLeft(r.fs, upper.links), r.fs.height[upper.dir],
              LinksLeft(r.fs, lower.links), r.fs.height[lower.dir], maxHeight);
  }

  lemma {:induction false} DepthInRoom(r: Request, fs: seq<Frame>, maxHeight: nat)
    requires FramesOk(r, fs) && fs != [] && fs[|fs| - 1].phase.Reading?
    requires forall d :: d in r.fs.height ==> r.fs.height[d] <= maxHeight
    ensures WellFormed(r.fs) && FrameOk(r, fs[0], true) && FrameOk(r, fs[|fs| - 1], |fs| == 1)
    ensures |fs| - 1 + Room(r, fs[|fs| - 1], maxHeight) <= Room(r, fs[0], maxHeight)
    decreases |fs|
  {
    hide Room, LinksLeft, IsPrefix, Links, Elements, GoodEntry, DistinctNames;
    var n := |fs|;
    assert FrameOk(r, fs[0], true);
    assert FrameOk(r, fs[n - 1], n == 1);
    if n > 1 {
      var front := fs[..n - 1];
      DropTop(r, fs);
      assert AboveNext(r, fs, n - 1);
      DepthInRoom(r, front, maxHeight);
      AboveHasLessRoom(r, fs[n - 2], fs[n - 1], maxHeight);
    }
  }

  /** The directories open at once: all on the stack, but perhaps the last. */
  function OpenDirs(fs: seq<Frame>): seq<Frame>
  {
    if fs == [] || fs[|fs| - 1].phase.Reading? then fs else fs[..|fs| - 1]
  }

  /** However the links cycle, never more than (links + 1) * (height + 1)
      directories are open at once. */
  lemma DepthBound(r: Request, fs: seq<Frame>, maxHeight: nat)
    requires FramesOk(r, fs)
    requires forall d :: d in r.fs.height ==> r.fs.height[d] <= maxHeight
    ensures |OpenDirs(fs)| <= (|Links(r.fs)| + 1) * (maxHeight + 1)
    ensures forall i :: 0 <= i < |fs| && fs[i].phase.Reading? ==> i < |OpenDirs(fs)|
  {
    hide FramesOk, Links;
    var open := OpenDirs(fs);
    if open == [] {
      RoomOrder(0, 0, |Links(r.fs)| + 1, 0, maxHeight);
    } else {
      LowerAreOpen(r, fs);
      OpenBound(r, open, maxHeight);
    }
  }

  lemma OpenBound(r: Request, open: seq<Frame>, maxHeight: nat)
    requires FramesOk(r, open) && open != [] && open[|open| - 1].phase.Reading?
    requires forall d :: d in r.fs.height ==> r.fs.height[d] <= maxHeight
    ensures |open| <= (|Links(r.fs)| + 1) * (maxHeight + 1)
  {
    hide Room;
    DepthInRoom(r, open, maxHeight);
    RoomBound(r, open[0], maxHeight);
  }

  lemma RoomBound(r: Request, f: Frame, maxHeight: nat)
    requires WellFormed(r.fs) && Within(r.fs, f.dir, f.links) && r.fs.height[f.dir] <= maxHeight
    ensures Room(r, f, maxHeight) < (|Links(r.fs)| + 1) * (maxHeight + 1)
  {
    SubsetSmaller(Links(r.fs) - Elements(f.links), Links(r.fs));
    hide Links, Elements;
    RoomOrder(LinksLeft(r.fs, f.links), r.fs.height[f.dir], |Links(r.fs)| + 1, 0, maxHeight);
  }

  lemma LowerAreOpen(r: Request, fs: seq<Frame>)
    requires FramesOk(r, fs) && OpenDirs(fs) != []
    ensures FramesOk(r, OpenDirs(fs)) && OpenDirs(fs)[|OpenDirs(fs)| - 1].phase.Reading?
  {
    if !fs[|fs| - 1].phase.Reading? {
      DropTop(r, fs);
      assert AboveNext(r, fs, |fs| - 1);
    }
  }

  lemma {:induction false} SubsetSmaller<T>(a: set<T>, b: set<T>)
    requires a <= b
    ensures |a| <= |b|
  {
    if a != {} {
      var x :| x in a;
      SubsetSmaller(a - {x}, b - {x});
    }
  }

  // ---------------------------------------------------------------- what a client sees

  /** A response item: an entry or an error that was met, or the end marker. */
  datatype Event = Met(step: Step) | Done

  /** The walk stays within what is defined. */
  predicate AllDefined(w: seq<Step>) { forall s :: s in w ==> !s.kind.Astray? }

  lemma DefinedTail(all: seq<Step>, done: seq<Step>, w: seq<Step>)
    requires AllDefined(all) && all == done + w
    ensures AllDefined(w)
  {
    forall s | s in w ensures !s.kind.Astray? { assert s in all; }
  }

  predicate AllSkipped(w: seq<Step>) { forall s :: s in w ==> s.kind.Skip? }

  predicate IsSilent(s: Step) { s.kind.Skip? || s.kind.Pop? }

  function Visible(w: seq<Step>): seq<Event>
  {
    if w == [] then []
    else (if IsSilent(w[0]) then [] else [Met(w[0])]) + Visible(w[1..])
  }

  lemma {:induction false} VisibleAppend(a: seq<Step>, b: seq<Step>)
    ensures Visible(a + b) == Visible(a) + Visible(b)
  {
    if a == [] {
      assert a + b == b;
    } else {
      assert (a + b)[1..] == a[1..] + b;
      VisibleAppend(a[1..], b);
    }
  }

  /** Exactly the reports and the errors are seen. */
  lemma {:induction false} VisibleExactly(w: seq<Step>, s: Step)
    ensures Met(s) in Visible(w) <==> s in w && s.kind in {AsFile, AsDirectory, AsLink, AsError, Astray}
  {
    if w != [] {
      VisibleExactly(w[1..], s);
      assert s in w <==> s == w[0] || s in w[1..];
    }
  }

  /** The events still to come. */
  ghost function Remaining(r: Request, fs: seq<Frame>): seq<Event>
    requires FramesOk(r, fs)
  {
    if fs == [] then [] else Visible(Pending(r, fs)) + [Done]
  }

  lemma {:induction false} VisibleNeverDone(w: seq<Step>)
    ensures Done !in Visible(w)
  {
    if w != [] { VisibleNeverDone(w[1..]); }
  }

  /** The end marker comes exactly once, and last. */
  lemma DoneOnceAndLast(r: Request, fs: seq<Frame>)
    requires FramesOk(r, fs) && fs != []
    ensures var evs := Remaining(r, fs); forall i :: 0 <= i < |evs| ==> (evs[i] == Done <==> i == |evs| - 1)
  {
    VisibleNeverDone(Pending(r, fs));
    forall i | 0 <= i < |Visible(Pending(r, fs))| ensures Visible(Pending(r, fs))[i] != Done {
      assert Visible(Pending(r, fs))[i] in Visible(Pending(r, fs));
    }
  }

  lemma NothingPending(r: Request)
    ensures FramesOk(r, []) && Pending(r, []) == []
  {
  }

  /** One step of the walk taken off what remains. */
  lemma StepRemaining(r: Request, a: seq<Frame>, b: seq<Frame>, silent: seq<Step>, step: Step)
    requires FramesOk(r, a) && a != [] && FramesOk(r, b)
    requires AllSkipped(silent) && (b == [] ==> step.kind.Pop?)
    requires Pending(r, a) == silent + [step] + Pending(r, b)
    ensures Remaining(r, a) == (if IsSilent(step) then [] else [Met(step)]) + (if b == [] then [Done] else [])
                               + Remaining(r, b)
    ensures |Pending(r, b)| < |Pending(r, a)|
  {
    hide FramesOk, Pending, Visible;
    NothingPending(r);
    VisibleStep(silent, step, Pending(r, b));
    NothingVisible();
  }

  lemma NothingVisible()
    ensures Visible([]) == []
  {
  }

  lemma VisibleStep(silent: seq<Step>, step: Step, rest: seq<Step>)
    requires AllSkipped(silent)
    ensures Visible(silent + [step] + rest) == (if IsSilent(step) then [] else [Met(step)]) + Visible(rest)
  {
    AllSilent(silent);
    VisibleAppend(silent + [step], rest);
    VisibleAppend(silent, [step]);
    assert Visible([step]) == if IsSilent(step) then [] else [Met(step)] by { assert [step][1..] == []; }
  }

  lemma {:induction false} AllSilent(w: seq<Step>)
    requires AllSkipped(w)
    ensures Visible(w) == []
  {
    if w != [] {
      assert w[0] in w;
      AllSilent(w[1..]);
    }
  }
}
