/** Recursive directory deletion over a mutable file tree with links. Paths are
    resolved by the system, link by link; that the deletion never goes through
    one is proved. */
module RecursiveDelete {
  import opened Basics
  import opened PathSpec
  import opened PathBuffers
  import opened LinkedTree

  /** One readdir result; `typed` is false when d_type is DT_UNKNOWN. */
  datatype Listed = Listed(name: string, typed: bool, kind: Kind)

  /** The text of a relative location, each name after a separator. */
  function Trail(cs: Components): string
  {
    if cs == [] then "" else Trail(cs[..|cs| - 1]) + "/" + cs[|cs| - 1]
  }

  /** The path a deletion was asked for, and where it led. */
  datatype Job = Job(root: string, at: Components)
  {
    /** The text under which the deletion comes to the location `p`. */
    function Text(p: Components): string
      requires at <= p
    {
      root + Trail(p[|at|..])
    }
  }

  /** The operating system. `faulty` lets any call fail for its own reasons. */
  class System {
    var fs: Tree
    const cwd: Components
    const maxLinks: nat        // links followed before ELOOP
    const faulty: bool

    constructor (fs: Tree, cwd: Components, maxLinks: nat, faulty: bool)
      ensures this.fs == fs && this.cwd == cwd && this.maxLinks == maxLinks && this.faulty == faulty
    {
      this.fs, this.cwd, this.maxLinks, this.faulty := fs, cwd, maxLinks, faulty;
    }

    function Resolve(fs: Tree, path: string, follow: bool): (s: Spot)
      ensures s.Found? ==> s.at in fs
    {
      if path == "" then Missing else Walk(fs, LinkStart(path, cwd), Split(path), follow, maxLinks)
    }

    /** The file itself, unless a separator at the end asks for a directory. */
    function Place(fs: Tree, path: string): (s: Spot)
      ensures s.Found? ==> s.at in fs
    {
      Resolve(fs, path, EndsInSeparator(path))
    }

    /** fstatat(path, AT_SYMLINK_NOFOLLOW). */
    function Stat(fs: Tree, path: string): Maybe<Kind>
    {
      var s := Place(fs, path);
      if s.Missing? || (EndsInSeparator(path) && fs[s.at] != DirKind) then None else Some(fs[s.at])
    }

    predicate IsFile(fs: Tree, path: string) { Stat(fs, path).Some? && Stat(fs, path).value != DirKind }

    /** What rmdir(path) is about: never a link, and never `.` or `..`. */
    function RemovalPlace(fs: Tree, path: string): (s: Spot)
      ensures s.Found? ==> s.at in fs
    {
      var cs := Split(path);
      if cs == [] || IsDots(cs[|cs| - 1]) then Missing else Resolve(fs, path, false)
    }

    predicate Removable(fs: Tree, path: string)
    {
      var s := RemovalPlace(fs, path);
      s.Found? && s.at != [] && fs[s.at] == DirKind && Children(fs, s.at) == {}
    }

    method Fails() returns (fault: bool)
      ensures fault ==> faulty
    {
      fault := *;
      fault := fault && faulty;
    }

    method Lstat(path: string) returns (known: Maybe<Kind>)
      ensures known.Some? ==> known == Stat(fs, path)
      ensures !faulty ==> known == Stat(fs, path)
    {
      known := Stat(fs, path);
      var fault := Fails();
      if fault { known := None; }
    }

    method Unlink(path: string) returns (ok: bool)
      modifies this`fs
      ensures ok ==> IsFile(old(fs), path) && fs == old(fs) - {Place(old(fs), path).at}
      ensures !ok ==> fs == old(fs)
      ensures !faulty ==> (ok <==> IsFile(old(fs), path))
    {
      ok := IsFile(fs, path);
      var fault := Fails();
      if fault { ok := false; }
      if ok { fs := fs - {Place(fs, path).at}; }
    }

    method RemoveDir(path: string) returns (ok: bool)
      modifies this`fs
      ensures ok ==> Removable(old(fs), path) && fs == old(fs) - {RemovalPlace(old(fs), path).at}
      ensures !ok ==> fs == old(fs)
      ensures !faulty ==> (ok <==> Removable(old(fs), path))
    {
      ok := Removable(fs, path);
      var fault := Fails();
      if fault { ok := false; }
      if ok { fs := fs - {RemovalPlace(fs, path).at}; }
    }

    /** openat(path, O_DIRECTORY), which follows links, and fdopendir. */
    method OpenDir(path: string) returns (r: Maybe<seq<Listed>>)
      ensures var s := Resolve(fs, path, true);
              && (r.Some? ==> s.Found? && fs[s.at] == DirKind && IsListing(fs, s.at, r.value))
              && (!faulty && s.Found? && fs[s.at] == DirKind ==> r.Some?)
    {
      var s := Resolve(fs, path, true);
      if s.Missing? || fs[s.at] != DirKind { return None; }
      var fault := Fails();
      if fault { return None; }
      var entries := ReadAll(s.at);
      return Some(entries);
    }

    /** The entries of a directory in some order, with or without types. */
    method ReadAll(at: Components) returns (entries: seq<Listed>)
      ensures IsListing(fs, at, entries)
    {
      var names := Children(fs, at) + {DOT, DOTDOT};
      entries := [];
      while names != {}
        invariant names <= Children(fs, at) + {DOT, DOTDOT}
        invariant forall i :: 0 <= i < |entries| ==> entries[i].name !in names && GoodEntry(fs, at, entries[i])
        invariant Distinct(entries)
        invariant forall n :: n in Children(fs, at) ==> n in names || HasName(entries, n)
        decreases names
      {
        var n :| n in names;
        var typed := *;
        var kind := DirKind;
        if !IsDots(n) {
          ChildAt(fs, at, n);
          kind := fs[at + [n]];
        }
        HasNameAfter(entries, Listed(n, typed, kind));
        entries := entries + [Listed(n, typed, kind)];
        names := names - {n};
      }
    }
  }

  predicate GoodEntry(fs: Tree, at: Components, e: Listed)
  {
    if IsDots(e.name) then e.kind == DirKind
    else at + [e.name] in fs && e.kind == fs[at + [e.name]]
  }

  ghost predicate HasName(entries: seq<Listed>, n: string)
  {
    exists i :: 0 <= i < |entries| && entries[i].name == n
  }

  ghost predicate Distinct(entries: seq<Listed>)
  {
    forall j, k :: 0 <= j < k < |entries| ==> entries[j].name != entries[k].name
  }

  lemma HasNameAfter(entries: seq<Listed>, e: Listed)
    ensures HasName(entries + [e], e.name)
    ensures forall n :: HasName(entries, n) ==> HasName(entries + [e], n)
  {
    var all := entries + [e];
    assert all[|entries|] == e;
    forall n | HasName(entries, n) ensures HasName(all, n) {
      var i :| 0 <= i < |entries| && entries[i].name == n;
      assert all[i].name == n;
    }
  }

  /** What readdir will return. */
  ghost predicate IsListing(fs: Tree, at: Components, entries: seq<Listed>)
  {
    && Distinct(entries)
    && (forall i :: 0 <= i < |entries| ==> GoodEntry(fs, at, entries[i]))
    && (forall n :: n in Children(fs, at) ==> HasName(entries, n))
  }

  // ---------------------------------------------------------------- the texts of a deletion

  ghost predicate Ordinary(job: Job, at: Components)
  {
    job.at <= at && forall i :: |job.at| <= i < |at| ==> IsOrdinary(at[i])
  }

  lemma TextOfChild(job: Job, at: Components, name: string)
    requires job.at <= at
    ensures job.Text(at + [name]) == job.Text(at) + "/" + name
  {
    var rel := at[|job.at|..];
    assert (at + [name])[|job.at|..] == rel + [name];
    assert (rel + [name])[..|rel|] == rel;
  }

  lemma {:induction false} SplitTrail(root: string, rel: Components)
    requires forall i :: 0 <= i < |rel| ==> IsSegment(rel[i])
    ensures Split(root + Trail(rel)) == Split(root) + rel
    decreases |rel|
  {
    if rel == [] {
      assert root + "" == root;
    } else {
      var front, c := rel[..|rel| - 1], rel[|rel| - 1];
      SplitTrail(root, front);
      assert root + Trail(rel) == (root + Trail(front)) + "/" + c;
      SplitAtSeparator(root + Trail(front), c);
      SplitPrefix(c, "");
      assert c + "" == c && rel == front + [c];
    }
  }

  /** The components of a location's text, and of more after it. */
  lemma SplitText(job: Job, at: Components, tail: string)
    requires Ordinary(job, at) && job.root != ""
    ensures Split(job.Text(at)) == Split(job.root) + at[|job.at|..]
    ensures Split(job.Text(at) + "/" + tail) == Split(job.root) + at[|job.at|..] + Split(tail)
    ensures IsRooted(job.Text(at)) == IsRooted(job.Text(at) + "/" + tail) == IsRooted(job.root)
  {
    SplitTrail(job.root, at[|job.at|..]);
    SplitAtSeparator(job.Text(at), tail);
  }

  // ---------------------------------------------------------------- where they lead

  /** The root of the deletion, if its text still leads anywhere, leads to the
      same place also when more is put after it. */
  ghost predicate Anchored(os: System, fs: Tree, job: Job)
  {
    job.root != "" && (os.Resolve(fs, job.root, true).Found? ==> os.Resolve(fs, job.root, true).at == job.at)
  }

  lemma AnchoredStays(os: System, was: Tree, fs: Tree, job: Job)
    requires Anchored(os, was, job) && Within(fs, was)
    ensures Anchored(os, fs, job)
  {
    WalkMonotone(fs, was, LinkStart(job.root, os.cwd), Split(job.root), true, os.maxLinks);
  }

  /** The location is a real directory, reached through real directories. */
  ghost predicate RealDir(os: System, fs: Tree, job: Job, at: Components)
  {
    && WellFormed(fs) && Anchored(os, fs, job)
    && job.at <= at && Ordinary(job, at) && at in fs && fs[at] == DirKind
  }

  /** A path whose components come to a real directory and go on. */
  lemma GoesOn(os: System, fs: Tree, job: Job, at: Components, path: string, ds: Components, follow: bool)
    requires RealDir(os, fs, job, at) && path != "" && IsRooted(path) == IsRooted(job.root)
    requires Split(path) == Split(job.root) + at[|job.at|..] + ds
    ensures var s := os.Resolve(fs, job.root, true);
            && (ds != [] ==> os.Resolve(fs, path, follow) ==
                               if s.Missing? then Missing else Walk(fs, at, ds, follow, s.left))
            && (ds == [] ==> os.Resolve(fs, path, true) == if s.Missing? then Missing else Found(at, s.left))
  {
    hide Walk, WellFormed, Split, IsRooted;
    var cs, rel := Split(job.root), at[|job.at|..];
    assert job.at + rel == at && (ds == [] ==> cs + rel + ds == cs + rel);
    WalkOn(fs, LinkStart(job.root, os.cwd), cs, job.at, rel, ds, follow, os.maxLinks);
  }

  /** A path into a real directory is resolved from there. */
  lemma InsideLands(os: System, fs: Tree, job: Job, at: Components, tail: string, follow: bool)
    requires RealDir(os, fs, job, at) && Split(tail) != []
    ensures var s := os.Resolve(fs, job.root, true);
            os.Resolve(fs, job.Text(at) + "/" + tail, follow) ==
            if s.Missing? then Missing else Walk(fs, at, Split(tail), follow, s.left)
  {
    SplitText(job, at, tail);
    hide Walk, WellFormed, Split, Job.Text, Ordinary, System.Resolve, IsRooted;
    GoesOn(os, fs, job, at, job.Text(at) + "/" + tail, Split(tail), follow);
  }

  /** The text of a real directory leads to it, with a separator after it too. */
  lemma DirLands(os: System, fs: Tree, job: Job, at: Components)
    requires RealDir(os, fs, job, at)
    ensures var s := os.Resolve(fs, job.root, true);
            && os.Resolve(fs, job.Text(at), true) == os.Resolve(fs, job.Text(at) + "/", true)
            && os.Resolve(fs, job.Text(at), true) == if s.Missing? then Missing else Found(at, s.left)
  {
    var text := job.Text(at);
    DirText(job, at, text);
    DirText(job, at, text + "/");
    hide Walk, WellFormed, Split, Job.Text, Ordinary, System.Resolve, IsRooted;
    assert Split(text) == Split(text) + [];
    GoesOn(os, fs, job, at, text, [], true);
    GoesOn(os, fs, job, at, text + "/", [], true);
  }

  predicate IsName(name: string) { IsDots(name) || (IsOrdinary(name) && NUL !in name) }

  lemma NameText(job: Job, at: Components, name: string)
    requires Ordinary(job, at) && IsName(name)
    ensures job.Text(at) + "/" + name == job.Text(at + [name]) && !EndsInSeparator(job.Text(at + [name]))
    ensures !IsDots(name) ==> Ordinary(job, at + [name])
  {
    TextOfChild(job, at, name);
    NoSeparator(job.Text(at), name);
  }

  /** What a name under a real directory leads to: its own entry. */
  lemma NameLands(os: System, fs: Tree, job: Job, at: Components, name: string, path: string)
    requires RealDir(os, fs, job, at) && IsName(name) && path == job.Text(at) + "/" + name
    ensures var child := at + [name];
            && (IsDots(name) ==> !os.IsFile(fs, path))
            && (!IsDots(name) && os.Place(fs, path).Found? ==> os.Place(fs, path).at == child)
            && (os.Resolve(fs, job.root, true).Found? ==>
                  if IsDots(name) then os.Stat(fs, path) == Some(DirKind)
                  else os.Stat(fs, path) == if child in fs then Some(fs[child]) else None)
  {
    hide WellFormed, Anchored, Ordinary, Job.Text, Walk, Split, System.Resolve, EndsInSeparator;
    OneSegment(name);
    InsideLands(os, fs, job, at, name, false);
    ParentIsDir(fs, at);
    NoSeparator(job.Text(at), name);
    var s := os.Resolve(fs, job.root, true);
    if s.Found? { WalkName(fs, at, name, s.left); }
  }

  lemma NoSeparator(text: string, name: string)
    requires IsSegment(name)
    ensures !EndsInSeparator(text + "/" + name)
  {
    var path := text + "/" + name;
    assert path[|path| - 1] == name[|name| - 1] && name[|name| - 1] in name;
  }

  lemma OneSegment(name: string)
    requires IsSegment(name)
    ensures Split(name) == [name]
  {
    SplitPrefix(name, "");
    assert name + "" == name;
  }

  lemma ParentIsDir(fs: Tree, at: Components)
    requires WellFormed(fs) && at in fs && fs[at] == DirKind
    ensures Parent(at) in fs && fs[Parent(at)] == DirKind
  {
    if at != [] { assert InDirectory(fs, at); }
  }

  ghost predicate OneBelow(loc: Components, at: Components) { |loc| == |at| + 1 && at <= loc }

  /** A file named by the text of a real directory and a cut name is still an
      entry of that directory. */
  lemma CutLands(os: System, fs: Tree, job: Job, at: Components, cut: string)
    requires RealDir(os, fs, job, at) && '/' !in cut && NUL !in cut
    ensures var path := job.Text(at) + "/" + cut; os.IsFile(fs, path) ==> OneBelow(os.Place(fs, path).at, at)
  {
    hide WellFormed, Anchored, Job.Text, Walk, Split, System.Resolve;
    if cut == "" {
      assert EndsInSeparator(job.Text(at) + "/" + cut);
    } else {
      OneSegment(cut);
      InsideLands(os, fs, job, at, cut, false);
      ParentIsDir(fs, at);
      NoSeparator(job.Text(at), cut);
      var s := os.Resolve(fs, job.root, true);
      if s.Found? { WalkName(fs, at, cut, s.left); }
    }
  }

  /** What rmdir under the text of a real directory can remove is that directory. */
  lemma RemovalLands(os: System, fs: Tree, job: Job, at: Components, path: string)
    requires RealDir(os, fs, job, at) && (path == job.Text(at) || path == job.Text(at) + "/")
    ensures os.Removable(fs, path) ==> os.RemovalPlace(fs, path).at == at
  {
    DirLands(os, fs, job, at);
    FollowNothing(fs, LinkStart(path, os.cwd), Split(path), os.maxLinks);
  }

  // ---------------------------------------------------------------- paths that keep working

  /** The way to the root of the deletion does not pass below it, and ends in a
      name of its own. */
  ghost predicate Steady(os: System, fs: Tree, job: Job)
  {
    && job.root != "" && Split(job.root) != [] && !IsDots(Split(job.root)[|Split(job.root)| - 1])
    && os.Resolve(Strip(fs, job.at), job.root, false).Found?
    && os.Resolve(Strip(fs, job.at), job.root, false).at == job.at
  }

  lemma SteadyStays(os: System, was: Tree, fs: Tree, job: Job, at: Components)
    requires OnlyBelow(was, fs, at) && job.at <= at && job.at in fs
    ensures Steady(os, was, job) ==> Steady(os, fs, job)
  {
    NothingRemoved(was, job.at);
    OnlyBelowTrans(was, was, fs, job.at, at);
    StripStays(was, fs, job.at);
  }

  lemma SteadyResolves(os: System, fs: Tree, job: Job)
    requires Steady(os, fs, job) && job.at in fs
    ensures os.Resolve(fs, job.root, false).Found? && os.Resolve(fs, job.root, false).at == job.at
    ensures !fs[job.at].LinkKind? ==> os.Resolve(fs, job.root, true) == os.Resolve(fs, job.root, false)
  {
    WalkMonotone(Strip(fs, job.at), fs, LinkStart(job.root, os.cwd), Split(job.root), false, os.maxLinks);
    FollowNothing(fs, LinkStart(job.root, os.cwd), Split(job.root), os.maxLinks);
  }

  /** Every path at and below `at` is within the buffer, with room for a
      separator and `..` after each directory. */
  ghost predicate FitsBelow(job: Job, fs: Tree, at: Components, limit: nat)
    requires job.at <= at
  {
    forall p :: p in fs && at <= p ==> |job.Text(p)| + (if fs[p] == DirKind then 3 else 0) < limit
  }

  /** Nothing but the system can stop the deletion at `at`. */
  ghost predicate Clear(os: System, fs: Tree, job: Job, at: Components, limit: nat)
    requires job.at <= at
  {
    Steady(os, fs, job) && FitsBelow(job, fs, at, limit)
  }

  /** rmdir removes an empty real directory under its own text. */
  lemma ClearRemoves(os: System, fs: Tree, job: Job, at: Components, path: string)
    requires RealDir(os, fs, job, at) && Steady(os, fs, job) && (path == job.Text(at) || path == job.Text(at) + "/")
    requires Children(fs, at) == {} && at != []
    ensures os.Removable(fs, path)
  {
    hide Walk, WellFormed, Split, IsRooted, Job.Text, Children;
    BaseExists(fs, job, at);
    SteadyResolves(os, fs, job);
    DirText(job, at, path);
    LastOfText(job, at);
    RemovalGoes(os, fs, job, at, path);
  }

  lemma RemovalGoes(os: System, fs: Tree, job: Job, at: Components, path: string)
    requires WellFormed(fs) && job.at <= at && at in fs && job.root != ""
    requires Split(path) == Split(job.root) + at[|job.at|..] && path != "" && IsRooted(path) == IsRooted(job.root)
    requires os.Resolve(fs, job.root, false) == os.Resolve(fs, job.root, true)
    requires os.Resolve(fs, job.root, true).Found? && os.Resolve(fs, job.root, true).at == job.at
    ensures os.Resolve(fs, path, false).Found? && os.Resolve(fs, path, false).at == at
  {
    hide Walk, WellFormed, Split, IsRooted;
    var rel, cs := at[|job.at|..], Split(job.root);
    assert job.at + rel == at;
    if rel == [] {
      assert cs + rel == cs && at == job.at;
    } else {
      WalkOnTo(fs, LinkStart(job.root, os.cwd), cs, job.at, rel, os.maxLinks);
    }
  }

  lemma DirText(job: Job, at: Components, path: string)
    requires Ordinary(job, at) && job.root != "" && (path == job.Text(at) || path == job.Text(at) + "/")
    ensures Split(path) == Split(job.root) + at[|job.at|..] && path != "" && IsRooted(path) == IsRooted(job.root)
  {
    SplitText(job, at, "");
    var text, cs := job.Text(at), Split(job.root) + at[|job.at|..];
    assert text + "/" + "" == text + "/" && Split("") == [] && cs + [] == cs;
  }

  lemma LastOfText(job: Job, at: Components)
    requires Ordinary(job, at) && Split(job.root) != [] && !IsDots(Split(job.root)[|Split(job.root)| - 1])
    ensures var cs := Split(job.root) + at[|job.at|..]; cs != [] && !IsDots(cs[|cs| - 1])
  {
    var cs, rel := Split(job.root), at[|job.at|..];
    if rel != [] { assert (cs + rel)[|cs + rel| - 1] == rel[|rel| - 1] == at[|at| - 1]; }
  }

  lemma BaseExists(fs: Tree, job: Job, at: Components)
    requires WellFormed(fs) && at in fs && job.at <= at && fs[at] == DirKind
    ensures job.at in fs && fs[job.at] == DirKind
  {
    AncestorsExist(fs, at, |job.at|);
    assert at[..|job.at|] == job.at;
    if |at| == |job.at| { assert at == job.at; }
  }

  // ---------------------------------------------------------------- facts about removal

  /** Deleting one entry leaves its siblings as they were. */
  lemma SiblingsStay(fs: Tree, fs': Tree, at: Components, name: string, e: Listed)
    requires OnlyBelow(fs, fs', at + [name]) && GoodEntry(fs, at, e) && e.name != name
    ensures GoodEntry(fs', at, e)
  {
    assert (at + [e.name])[|at|] == e.name && (at + [name])[|at|] == name;
  }

  /** A name that is still there was listed and is not gone. */
  lemma SurvivorWasListed(was: Tree, fs: Tree, at: Components, entries: seq<Listed>, n: string)
    requires WellFormed(was) && OnlyBelow(was, fs, at) && IsListing(was, at, entries) && n in Children(fs, at)
    ensures exists j :: 0 <= j < |entries| && !IsDots(entries[j].name) && !GoneBelow(fs, at + [entries[j].name])
  {
    var p := at + [n];
    ChildAt(fs, at, n);
    LastIsOrdinary(was, p);
    NameOf(was, at, n);
    hide WellFormed;
    assert HasName(entries, n);
    var j :| 0 <= j < |entries| && entries[j].name == n;
  }

  /** Once every listed name is gone, the directory is empty. */
  lemma AllNamesGone(was: Tree, fs: Tree, at: Components, entries: seq<Listed>)
    requires WellFormed(was) && OnlyBelow(was, fs, at) && IsListing(was, at, entries)
    requires forall j :: 0 <= j < |entries| && !IsDots(entries[j].name) ==> GoneBelow(fs, at + [entries[j].name])
    ensures Children(fs, at) == {}
  {
    hide WellFormed, OnlyBelow, IsListing, GoneBelow;
    if n :| n in Children(fs, at) {
      SurvivorWasListed(was, fs, at, entries, n);
    }
  }

  /** Some entries below `at` may have gone, but not `at` itself. */
  ghost predicate Inside(was: Tree, fs: Tree, at: Components)
  {
    WellFormed(fs) && OnlyBelow(was, fs, at) && at in fs
  }

  lemma RemovedInside(fs: Tree, at: Components, loc: Components)
    requires WellFormed(fs) && at in fs && loc in fs && OneBelow(loc, at) && fs[loc] != DirKind
    ensures Inside(fs, fs - {loc}, at)
  {
    UnlinkKeeps(fs, loc);
    NothingRemoved(fs, at);
    OnlyBelowTrans(fs, fs, fs - {loc}, at, loc);
  }

  lemma InsideTrans(a: Tree, b: Tree, c: Tree, at: Components)
    requires Inside(a, b, at) && Inside(b, c, at)
    ensures Inside(a, c, at) && c[at] == b[at]
  {
    OnlyBelowTrans(a, b, c, at, at);
  }

  lemma ChildInside(was: Tree, fs: Tree, at: Components, name: string)
    requires WellFormed(fs) && OnlyBelow(was, fs, at + [name]) && at in was
    ensures Inside(was, fs, at)
  {
    NothingRemoved(was, at);
    OnlyBelowTrans(was, was, fs, at, at + [name]);
  }

  /** A directory that entries are removed from stays what it is. */
  lemma RealDirStays(os: System, was: Tree, fs: Tree, job: Job, at: Components)
    requires RealDir(os, was, job, at) && Inside(was, fs, at)
    ensures RealDir(os, fs, job, at)
  {
    AnchoredStays(os, was, fs, job);
  }

  // ---------------------------------------------------------------- the deletion

  /** The buffer as it stands between the entries of `at`: the text of `at` and a
      separator, unless the separator was the one character too many. */
  ghost predicate Level(os: System, path: PathBuffer, job: Job, at: Components)
    reads os, path, path.data
  {
    && RealDir(os, os.fs, job, at) && path.Valid()
    && (|| (path.text == job.Text(at) + "/" && path.length == |path.text|)
        || (path.text == job.Text(at) && path.length == path.limit == |path.text| + 1))
  }

  /** What an entry leaves of the buffer is enough to restore it. */
  ghost predicate Restorable(path: PathBuffer, text: string, length: nat)
    reads path, path.data
  {
    path.Valid() && text <= path.text && (length == path.limit ==> path.text == text)
  }

  /** The entry `name` of the directory at `at` was dealt with, and only it. */
  ghost predicate Cleared(os: System, was: Tree, at: Components, name: string, ok: bool)
    reads os
  {
    && WellFormed(os.fs)
    && (IsDots(name) ==> os.fs == was)
    && (!IsDots(name) ==> OnlyBelow(was, os.fs, at + [name]) && (ok ==> GoneBelow(os.fs, at + [name])))
    && (!os.faulty ==> ok)
  }

  lemma FitsEntry(job: Job, fs: Tree, at: Components, name: string, limit: nat)
    requires job.at <= at && at in fs && fs[at] == DirKind && IsName(name)
    ensures FitsBelow(job, fs, at, limit) ==> |job.Text(at)| + 1 < limit
    ensures FitsBelow(job, fs, at, limit) && (IsDots(name) || at + [name] in fs) ==> |job.Text(at)| + 1 + |name| < limit
  {
    TextOfChild(job, at, name);
  }

  /** PathBuffer.Add of an entry's name: the text of the entry, or that text
      without its last character if it is exactly one too long. */
  method AddName(os: System, path: PathBuffer, name: string, ghost job: Job, ghost at: Components) returns (ok: bool)
    requires Level(os, path, job, at) && IsName(name)
    modifies path, path.data
    ensures Restorable(path, old(path.text), old(path.length)) && (ok ==> old(path.length) < path.limit)
    ensures ok && path.length < path.limit ==>
              path.text == job.Text(at) + "/" + name == job.Text(at + [name]) && path.length == |path.text|
    ensures ok && path.length >= path.limit ==>
              path.length == path.limit && path.text == job.Text(at) + "/" + name[..|name| - 1]
    ensures FitsBelow(job, os.fs, at, path.limit) && (IsDots(name) || at + [name] in os.fs) ==>
              ok && path.length < path.limit
  {
    hide WellFormed, Anchored, Job.Text, FitsBelow, PathBuffer.Valid;
    NameText(job, at, name);
    FitsEntry(job, os.fs, at, name, path.limit);
    assert name != "" && NUL !in name;
    ok := AddToEnd(path, name);
  }

  method AddToEnd(path: PathBuffer, name: string) returns (ok: bool)
    requires path.Valid() && (path.length == |path.text| || path.length == path.limit) && name != "" && NUL !in name
    modifies path, path.data
    ensures Restorable(path, old(path.text), old(path.length))
    ensures ok <==> old(path.length) + |name| <= path.limit
    ensures path.length == old(path.length) + if ok then |name| else 0
    ensures ok && path.length < path.limit ==> path.text == old(path.text) + name && path.length == |path.text|
    ensures ok && path.length == path.limit ==> path.text == old(path.text) + name[..|name| - 1]
  {
    hide PathBuffer.Valid;
    ghost var before := path.text;
    assert path.length < path.limit ==> before[..path.length] == before;
    CutOff(before, name, path.limit);
    ok := path.Add(name);
  }

  lemma CutOff(before: string, name: string, limit: nat)
    requires name != ""
    ensures |before| + |name| == limit ==> (before + name)[..limit - 1] == before + name[..|name| - 1]
    ensures |before| < limit <= |before| + |name| ==> before <= (before + name)[..limit - 1]
  {
  }

  /** A file that unlink removes under an entry's text, whole or cut, is an entry
      of the same directory, and under the whole text it is that entry. */
  lemma FileLands(os: System, fs: Tree, job: Job, at: Components, name: string, path: string, whole: bool)
    requires RealDir(os, fs, job, at) && IsName(name)
    requires path == job.Text(at) + "/" + if whole then name else name[..|name| - 1]
    ensures os.IsFile(fs, path) ==>
              OneBelow(os.Place(fs, path).at, at) && (whole ==> os.Place(fs, path).at == at + [name])
    ensures whole && Steady(os, fs, job) && at + [name] in fs && fs[at + [name]] != DirKind ==> os.IsFile(fs, path)
  {
    hide Walk, Split, Job.Text, System.Resolve, System.Place, Steady;
    if whole {
      NameLands(os, fs, job, at, name, path);
      EntryIsNoDots(fs, at, name);
      BaseExists(fs, job, at);
      if Steady(os, fs, job) { SteadyResolves(os, fs, job); }
    } else {
      CutLands(os, fs, job, at, name[..|name| - 1]);
    }
  }

  lemma EntryIsNoDots(fs: Tree, at: Components, name: string)
    requires WellFormed(fs)
    ensures at + [name] in fs ==> !IsDots(name)
  {
    var p := at + [name];
    assert p[|p| - 1] == name;
  }

  method DeleteFile(os: System, path: PathBuffer, name: string, ghost job: Job, ghost at: Components) returns (ok: bool)
    requires Level(os, path, job, at) && IsName(name)
    modifies os`fs, path, path.data
    ensures Inside(old(os.fs), os.fs, at) && Restorable(path, old(path.text), old(path.length))
    ensures Clear(os, old(os.fs), job, at, path.limit) ==>
              at + [name] in old(os.fs) && old(os.fs)[at + [name]] != DirKind ==>
              Cleared(os, old(os.fs), at, name, ok)
  {
    hide WellFormed, Anchored, OnlyBelow, GoneBelow, IsName, Job.Text, System.IsFile, System.Place, Steady, FitsBelow;
    ghost var was := os.fs;
    NothingRemoved(was, at);
    NothingRemoved(was, at + [name]);
    EntryIsNoDots(was, at, name);
    ok := AddName(os, path, name, job, at);
    if ok {
      var text := path.AsString();
      FileLands(os, was, job, at, name, text, path.length < path.limit);
      ok := os.Unlink(text);
      if ok {
        FileIsFile(os, was, text);
        RemovedInside(was, at, os.Place(was, text).at);
        UnlinkKeeps(was, os.Place(was, text).at);
      }
    }
  }

  lemma FileIsFile(os: System, fs: Tree, path: string)
    requires os.IsFile(fs, path)
    ensures os.Place(fs, path).Found? && fs[os.Place(fs, path).at] != DirKind
  {
  }

  lemma ChildSubtree(fs: Tree, at: Components, name: string)
    requires at in fs
    ensures Subtree(fs, at + [name]) < Subtree(fs, at)
  {
    forall p | p in fs && at + [name] <= p ensures at <= p { PrefixTrans(at, at + [name], p); }
    assert at in Subtree(fs, at) && at !in Subtree(fs, at + [name]);
  }

  lemma ClearChild(os: System, fs: Tree, job: Job, at: Components, name: string, limit: nat)
    requires job.at <= at
    ensures Clear(os, fs, job, at, limit) ==> Clear(os, fs, job, at + [name], limit)
  {
    forall p | p in fs && at + [name] <= p ensures at <= p { PrefixTrans(at, at + [name], p); }
  }

  /** Where a deletion may start: the text leads to `at`, or nowhere. */
  ghost predicate Start(os: System, path: PathBuffer, job: Job, at: Components)
    reads os, path, path.data
  {
    && WellFormed(os.fs) && job.at <= at && Ordinary(job, at) && (at != job.at ==> Anchored(os, os.fs, job))
    && path.Valid() && path.text == job.Text(at) && path.length == |path.text|
    && (os.Place(os.fs, path.text).Found? ==> os.Place(os.fs, path.text).at == at)
  }

  /** An entry of a real directory is where its text leads. */
  lemma ChildStarts(os: System, fs: Tree, job: Job, at: Components, name: string)
    requires RealDir(os, fs, job, at) && IsName(name) && !IsDots(name)
    ensures var child := at + [name];
            && Ordinary(job, child) && child != job.at
            && (os.Place(fs, job.Text(child)).Found? ==> os.Place(fs, job.Text(child)).at == child)
            && (Steady(os, fs, job) && child in fs ==> os.Stat(fs, job.Text(child)) == Some(fs[child]))
  {
    hide Walk, Split, Job.Text, System.Resolve, System.Place, System.Stat, Steady, WellFormed, Anchored;
    NameText(job, at, name);
    NameLands(os, fs, job, at, name, job.Text(at + [name]));
    BaseExists(fs, job, at);
    if Steady(os, fs, job) { SteadyResolves(os, fs, job); }
  }

  method DeleteDir(os: System, path: PathBuffer, name: string, ghost job: Job, ghost at: Components) returns (ok: bool)
    requires Level(os, path, job, at) && IsName(name)
    modifies os`fs, path, path.data
    ensures Inside(old(os.fs), os.fs, at) && Restorable(path, old(path.text), old(path.length))
    ensures Clear(os, old(os.fs), job, at, path.limit) && (IsDots(name) || at + [name] in old(os.fs)) ==>
              Cleared(os, old(os.fs), at, name, ok)
    decreases Subtree(os.fs, at), 0, 0
  {
    hide WellFormed, Anchored, Ordinary, OnlyBelow, GoneBelow, IsName, Job.Text, System.IsFile, System.Place,
         System.Stat,
         Steady, FitsBelow, Subtree;
    ghost var was, child := os.fs, at + [name];
    NothingRemoved(was, at);
    if IsDots(name) {
      return true;
    }
    NothingRemoved(was, child);
    ChildSubtree(was, at, name);
    ClearChild(os, was, job, at, name, path.limit);
    ChildStarts(os, was, job, at, name);
    ok := AddName(os, path, name, job, at);
    if ok {
      ghost var whole, text := path.length < path.limit, path.text;
      FileLands(os, was, job, at, name, text, whole);
      ok := DeleteRecursively(os, path, job, child);
      if whole {
        ChildInside(was, os.fs, at, name);
      } else if ok {
        FileIsFile(os, was, text);
        RemovedInside(was, at, os.Place(was, text).at);
      }
    }
  }

  /** One readdir result, whose type may have to be asked for. */
  method DeleteEntry(os: System, path: PathBuffer, e: Listed, ghost job: Job, ghost at: Components) returns (ok: bool)
    requires Level(os, path, job, at) && IsName(e.name)
    modifies os`fs, path, path.data
    ensures Inside(old(os.fs), os.fs, at) && Restorable(path, old(path.text), old(path.length))
    ensures Clear(os, old(os.fs), job, at, path.limit) && GoodEntry(old(os.fs), at, e) ==>
              Cleared(os, old(os.fs), at, e.name, ok)
    decreases Subtree(os.fs, at), 0, 1
  {
    hide WellFormed, Anchored, OnlyBelow, GoneBelow, Job.Text, Steady, FitsBelow, Subtree;
    NothingRemoved(os.fs, at);
    NothingRemoved(os.fs, at + [e.name]);
    var isDir := e.kind == DirKind;
    if !e.typed {
      var known := AskType(os, path, e, job, at);
      if known.None? { return false; }
      isDir := known.value == DirKind;
    }
    if isDir {
      ok := DeleteDir(os, path, e.name, job, at);
    } else {
      ok := DeleteFile(os, path, e.name, job, at);
    }
  }

  /** lstat of an entry under the directory's text, which is then restored. */
  method AskType(os: System, path: PathBuffer, e: Listed, ghost job: Job, ghost at: Components)
    returns (known: Maybe<Kind>)
    requires Level(os, path, job, at) && IsName(e.name)
    modifies path, path.data
    ensures Restorable(path, old(path.text), old(path.length))
    ensures known.Some? ==> Level(os, path, job, at) && path.text == old(path.text) && path.length == old(path.length)
    ensures Clear(os, os.fs, job, at, path.limit) && GoodEntry(os.fs, at, e) ==>
              (known.Some? ==> known.value == e.kind) && (!os.faulty ==> known.Some?)
  {
    hide WellFormed, Anchored, Ordinary, Job.Text, System.Resolve, System.Place, System.Stat, FitsBelow;
    BaseExists(os.fs, job, at);
    if Steady(os, os.fs, job) { SteadyResolves(os, os.fs, job); }
    hide Steady;
    NameLands(os, os.fs, job, at, e.name, job.Text(at) + "/" + e.name);
    var length := path.length;
    ghost var before := path.text;
    var ok := AddName(os, path, e.name, job, at);
    if !ok { return None; }
    var text := path.AsString();
    known := os.Lstat(text);
    if known.None? { return None; }
    path.Reset(length);
  }

  /** The entries before `i` are gone, the others as they were listed. */
  ghost predicate DoneUpTo(was: Tree, fs: Tree, at: Components, entries: seq<Listed>, i: nat)
  {
    && i <= |entries|
    && (forall j :: 0 <= j < i && !IsDots(entries[j].name) ==> GoneBelow(fs, at + [entries[j].name]))
    && (forall j :: i <= j < |entries| ==> GoodEntry(fs, at, entries[j]))
  }

  lemma OneMoreDone(os: System, was: Tree, before: Tree, at: Components, entries: seq<Listed>, i: nat)
    requires DoneUpTo(was, before, at, entries, i) && i < |entries| && Distinct(entries)
    requires Cleared(os, before, at, entries[i].name, true)
    ensures DoneUpTo(was, os.fs, at, entries, i + 1)
  {
    hide WellFormed;
    var name := entries[i].name;
    if !IsDots(name) {
      forall j | i < j < |entries| ensures GoodEntry(os.fs, at, entries[j]) {
        SiblingsStay(before, os.fs, at, name, entries[j]);
      }
      forall j | 0 <= j < i && !IsDots(entries[j].name) ensures GoneBelow(os.fs, at + [entries[j].name]) {
        assert GoneBelow(before, at + [entries[j].name]);
      }
    }
  }

  lemma ClearStays(os: System, was: Tree, fs: Tree, job: Job, at: Components, limit: nat)
    requires Inside(was, fs, at) && job.at <= at && was[at] == DirKind
    ensures Subtree(fs, at) <= Subtree(was, at) && fs[at] == DirKind
    ensures Clear(os, was, job, at, limit) ==> Clear(os, fs, job, at, limit)
  {
    BaseExists(fs, job, at);
    SteadyStays(os, was, fs, job, at);
  }

  /** The state between two entries of the directory at `at`. */
  ghost predicate Between(os: System, path: PathBuffer, was: Tree, job: Job, at: Components, entries: seq<Listed>,
                          i: nat)
    reads os, path, path.data
  {
    && Level(os, path, job, at) && Inside(was, os.fs, at) && at in was && was[at] == DirKind
    && Subtree(os.fs, at) <= Subtree(was, at)
    && (Clear(os, was, job, at, path.limit) ==>
          Clear(os, os.fs, job, at, path.limit) && DoneUpTo(was, os.fs, at, entries, i))
  }

  /** One entry, with the buffer back at the directory's own text. */
  method DeleteNext(os: System, path: PathBuffer, entries: seq<Listed>, i: nat, length: nat,
                    ghost was: Tree, ghost job: Job, ghost at: Components) returns (ok: bool)
    requires Between(os, path, was, job, at, entries, i) && i < |entries| && length == path.length
    requires Distinct(entries) && IsName(entries[i].name)
    modifies os`fs, path, path.data
    ensures Inside(was, os.fs, at) && Restorable(path, old(path.text), length)
    ensures ok ==> Between(os, path, was, job, at, entries, i + 1)
    ensures ok ==> path.text == old(path.text) && path.length == length
    ensures !os.faulty && Clear(os, was, job, at, path.limit) ==> ok
    decreases Subtree(os.fs, at), 0, 2
  {
    hide WellFormed, Anchored, Ordinary, OnlyBelow, GoneBelow, GoodEntry, Distinct, Job.Text, Clear, Subtree;
    ghost var now, before := os.fs, path.text;
    var fault := os.Fails();
    if fault { return false; }
    ok := DeleteEntry(os, path, entries[i], job, at);
    InsideTrans(was, now, os.fs, at);
    if ok {
      RealDirStays(os, now, os.fs, job, at);
      if Clear(os, was, job, at, path.limit) { OneMoreDone(os, was, now, at, entries, i); }
      ClearStays(os, was, os.fs, job, at, path.limit);
      path.Reset(length);
    }
  }

  /** What deleting everything at and below `at` may do. */
  ghost predicate TreeDone(os: System, was: Tree, at: Components, ok: bool)
    reads os
  {
    WellFormed(os.fs) && OnlyBelow(was, os.fs, at) && (ok ==> GoneBelow(os.fs, at))
  }

  /** The directory's entries one by one, and the directory itself at the end. */
  method DeleteContents(os: System, path: PathBuffer, entries: seq<Listed>, ghost job: Job, ghost at: Components)
    returns (ok: bool)
    requires Level(os, path, job, at) && IsListing(os.fs, at, entries)
    modifies os`fs, path, path.data
    ensures TreeDone(os, old(os.fs), at, ok) && Restorable(path, old(path.text), old(path.length))
    ensures !os.faulty && Clear(os, old(os.fs), job, at, path.limit) ==> ok
    decreases Subtree(os.fs, at), 0, 3
  {
    hide WellFormed, Anchored, OnlyBelow, GoneBelow, DoneUpTo, IsListing, IsName, Distinct, Job.Text, Clear, Subtree;
    var length := path.length;
    ghost var was, before := os.fs, path.text;
    ListedNames(was, at, entries);
    NothingRemoved(was, at);
    var i := 0;
    while i < |entries|
      invariant 0 <= i <= |entries| && Between(os, path, was, job, at, entries, i)
      invariant path.text == before && path.length == length
    {
      ok := DeleteNext(os, path, entries, i, length, was, job, at);
      if !ok { return false; }
      i := i + 1;
    }
    if Clear(os, was, job, at, path.limit) { AllDone(was, os.fs, at, entries); }
    ok := RemoveEmpty(os, path, was, job, at);
  }

  lemma AllDone(was: Tree, fs: Tree, at: Components, entries: seq<Listed>)
    requires WellFormed(was) && OnlyBelow(was, fs, at) && IsListing(was, at, entries)
    requires DoneUpTo(was, fs, at, entries, |entries|)
    ensures Children(fs, at) == {}
  {
    AllNamesGone(was, fs, at, entries);
  }

  lemma ListedNames(fs: Tree, at: Components, entries: seq<Listed>)
    requires WellFormed(fs) && at in fs && IsListing(fs, at, entries)
    ensures DoneUpTo(fs, fs, at, entries, 0) && Distinct(entries)
    ensures Subtree(fs, at) <= Subtree(fs, at)
    ensures forall j :: 0 <= j < |entries| ==> IsName(entries[j].name)
  {
    forall j | 0 <= j < |entries| ensures IsName(entries[j].name) {
      assert GoodEntry(fs, at, entries[j]);
      LastIsOrdinary(fs, at + [entries[j].name]);
    }
  }

  /** closedir and the removal of the directory, which must be empty by now. */
  method RemoveEmpty(os: System, path: PathBuffer, ghost was: Tree, ghost job: Job, ghost at: Components)
    returns (ok: bool)
    requires Level(os, path, job, at) && Inside(was, os.fs, at)
    modifies os`fs
    ensures TreeDone(os, was, at, ok)
    ensures !os.faulty && Children(old(os.fs), at) == {} && Clear(os, old(os.fs), job, at, path.limit) ==> ok
  {
    hide WellFormed, Anchored, Ordinary, OnlyBelow, GoneBelow, Job.Text, Steady, FitsBelow, Children,
         System.RemovalPlace;
    ghost var now := os.fs;
    var fault := os.Fails();
    if fault { return false; }
    var text := path.AsString();
    RemovalLands(os, now, job, at, text);
    if Children(now, at) == {} && Steady(os, now, job) {
      SteadyBelow(os, now, job);
      ClearRemoves(os, now, job, at, text);
    }
    ok := os.RemoveDir(text);
    if ok {
      UnlinkKeeps(now, at);
      OnlyBelowTrans(was, now, os.fs, at, at);
    }
  }

  lemma SteadyBelow(os: System, fs: Tree, job: Job)
    requires Steady(os, fs, job)
    ensures job.at != []
  {
    NamesAreBelow(Strip(fs, job.at), LinkStart(job.root, os.cwd), Split(job.root), os.maxLinks);
  }

  /** What happens under a path that was cut: the file that the cut text names
      goes, if there is one. */
  ghost predicate CutDone(os: System, was: Tree, text: string, ok: bool)
    reads os
  {
    && (if ok then os.IsFile(was, text) && os.fs == was - {os.Place(was, text).at} else os.fs == was)
    && (!os.faulty ==> (ok <==> os.IsFile(was, text)))
  }

  /** The part for directories. */
  method DeleteDirectory(os: System, path: PathBuffer, ghost job: Job, ghost at: Components) returns (ok: bool)
    requires path.Valid() && (path.length < path.limit ==> Start(os, path, job, at) && RealDir(os, os.fs, job, at))
    modifies os`fs, path, path.data
    ensures old(path.length) < path.limit ==> TreeDone(os, old(os.fs), at, ok)
    ensures old(path.length) < path.limit && !os.faulty && Clear(os, old(os.fs), job, at, path.limit) ==> ok
    ensures old(path.length) >= path.limit ==> !ok && os.fs == old(os.fs)
    ensures Restorable(path, old(path.text), old(path.length))
    decreases Subtree(os.fs, at), 1, 0
  {
    hide WellFormed, Anchored, Ordinary, OnlyBelow, GoneBelow, IsListing, Job.Text, System.Resolve, System.Place,
         Subtree,
         FitsBelow;
    ghost var before := path.text;
    if path.length < path.limit {
      NothingRemoved(os.fs, at);
      DirLands(os, os.fs, job, at);
      FitsEntry(job, os.fs, at, DOT, path.limit);
      BaseExists(os.fs, job, at);
      if Steady(os, os.fs, job) { SteadyResolves(os, os.fs, job); }
      assert before[..path.length] == before;
    }
    hide Steady;
    var added := path.Add("/");
    if !added { return false; }
    if path.length == path.limit { assert path.text == (before + "/")[..path.limit - 1] == before; }
    var text := path.AsString();
    var entries := os.OpenDir(text);
    if entries.None? { return false; }
    ok := DeleteContents(os, path, entries.value, job, at);
  }

  /** A path that lstat calls a directory leads to a real one. */
  lemma StartsInDir(os: System, fs: Tree, job: Job, at: Components, text: string)
    requires WellFormed(fs) && Ordinary(job, at) && (at != job.at ==> Anchored(os, fs, job)) && text == job.Text(at)
    requires os.Place(fs, text).Found? ==> os.Place(fs, text).at == at
    requires os.Stat(fs, text) == Some(DirKind)
    ensures RealDir(os, fs, job, at)
  {
    hide Walk, WellFormed;
    if at == job.at {
      assert at[|job.at|..] == [] && text == job.root + "" == job.root;
      FollowNothing(fs, LinkStart(text, os.cwd), Split(text), os.maxLinks);
    }
  }

  /** On success everything at and below the path is gone; in any case nothing
      else has changed, link targets included. */
  method DeleteRecursively(os: System, path: PathBuffer, ghost job: Job, ghost at: Components) returns (ok: bool)
    requires Start(os, path, job, at) || (path.Valid() && path.length == path.limit && WellFormed(os.fs))
    modifies os`fs, path, path.data
    ensures old(path.length) < path.limit ==> TreeDone(os, old(os.fs), at, ok)
    ensures old(path.length) < path.limit && !os.faulty && os.Stat(old(os.fs), old(path.text)).Some? ==>
              Clear(os, old(os.fs), job, at, path.limit) ==> ok
    ensures os.Stat(old(os.fs), old(path.text)).None? ==> !ok && os.fs == old(os.fs)
    ensures old(path.length) == path.limit ==> CutDone(os, old(os.fs), old(path.text), ok)
    ensures Restorable(path, old(path.text), old(path.length))
    decreases Subtree(os.fs, at), 1, 1
  {
    hide WellFormed, Anchored, Ordinary, OnlyBelow, GoneBelow, Job.Text, Clear, Subtree, System.Place, System.Stat;
    ghost var was := os.fs;
    NothingRemoved(was, at);
    var text := path.AsString();
    var known := os.Lstat(text);
    if known.None? {
      ok := false;
    } else if known.value != DirKind {
      FileIsFile(os, was, text);
      NotTheRoot(was, os.Place(was, text).at);
      UnlinkKeeps(was, os.Place(was, text).at);
      ok := os.Unlink(text);
    } else {
      if path.length < path.limit { StartsInDir(os, was, job, at, text); }
      ok := DeleteDirectory(os, path, job, at);
    }
  }

  lemma NotTheRoot(fs: Tree, p: Components)
    requires WellFormed(fs) && p in fs && fs[p] != DirKind
    ensures p != []
  {
  }

  // ---------------------------------------------------------------- Directory::Delete

  /** What a caller is promised of the path it gives: if that names nothing,
      nothing happens; otherwise nothing outside the subtree there changes, and
      on success all of it is gone. */
  ghost predicate Promise(os: System, was: Tree, root: string, ok: bool)
    reads os
  {
    if os.Stat(was, root).None? then !ok && os.fs == was
    else OnlyBelow(was, os.fs, os.Place(was, root).at) && (ok ==> GoneBelow(os.fs, os.Place(was, root).at))
  }

  /** The path fills the buffer exactly, and without its last character names a
      file. */
  predicate Misread(os: System, fs: Tree, root: string, limit: nat)
    requires 1 <= limit
  {
    |root| == limit && os.IsFile(fs, root[..limit - 1])
  }

  /** The same path with one more character never names the same file. */
  lemma OneMoreCharacter(os: System, fs: Tree, text: string, c: char)
    requires WellFormed(fs) && os.IsFile(fs, text) && os.Stat(fs, text + [c]).Some?
    ensures os.Place(fs, text + [c]).at != os.Place(fs, text).at
  {
    hide Walk, WellFormed, Split;
    assert text != "" && (text + [c])[|text|] == c;
    if c == '/' {
      assert EndsInSeparator(text + [c]);
    } else {
      var front, last := SplitLonger(text, c);
      assert !EndsInSeparator(text + [c]) && IsRooted(text + [c]) == IsRooted(text);
      var s := Walk(fs, LinkStart(text, os.cwd), front, true, os.maxLinks);
      WalkAppend(fs, LinkStart(text, os.cwd), front, [last], false, os.maxLinks);
      WalkAppend(fs, LinkStart(text, os.cwd), front, [last + [c]], false, os.maxLinks);
      OtherName(fs, s.at, last, c, s.left);
    }
  }

  lemma OtherName(fs: Tree, at: Components, name: string, c: char, left: nat)
    requires WellFormed(fs) && name != ""
    requires Walk(fs, at, [name], false, left).Found? && fs[Walk(fs, at, [name], false, left).at] != DirKind
    requires Walk(fs, at, [name + [c]], false, left).Found?
    ensures Walk(fs, at, [name], false, left).at != Walk(fs, at, [name + [c]], false, left).at
  {
    assert at in fs && fs[at] == DirKind;
    ParentIsDir(fs, at);
    WalkName(fs, at, name, left);
    WalkName(fs, at, name + [c], left);
    hide Walk, WellFormed;
    assert |name + [c]| == |name| + 1;
  }

  /** A misread path breaks the promise: another file is gone, and success is
      reported. */
  lemma MisreadBreaks(os: System, was: Tree, root: string, limit: nat)
    requires 1 <= limit && WellFormed(was) && Misread(os, was, root, limit)
    requires os.fs == was - {os.Place(was, root[..limit - 1]).at}
    ensures !Promise(os, was, root, true)
  {
    hide WellFormed, System.Place, System.Stat, OnlyBelow;
    var text, c := root[..limit - 1], root[limit - 1];
    assert root == text + [c];
    if os.Stat(was, root).Some? {
      OneMoreCharacter(os, was, text, c);
      StatPlace(os, was, root);
      assert os.Place(was, root).at in os.fs;
    }
  }

  lemma StatPlace(os: System, fs: Tree, path: string)
    requires os.Stat(fs, path).Some?
    ensures os.Place(fs, path).Found?
  {
  }

  /** The text that the buffer of a deletion starts with. */
  method FirstText(root: string, limit: nat) returns (path: PathBuffer, ok: bool)
    requires 1 <= limit && NUL !in root
    ensures fresh(path) && fresh(path.data) && path.Valid() && path.limit == limit
    ensures ok <==> |root| <= limit
    ensures ok ==> path.length == |root| && path.text == if |root| < limit then root else root[..limit - 1]
  {
    path := new PathBuffer(limit);
    ok := path.Add(root);
    assert "" + root == root;
  }

  /** Directory::Delete with `recursive`, and a buffer of its own. */
  method Delete(os: System, root: string, limit: nat) returns (ok: bool)
    requires 1 <= limit && NUL !in root && WellFormed(os.fs)
    modifies os`fs
    ensures !Misread(os, old(os.fs), root, limit) ==> Promise(os, old(os.fs), root, ok)
    ensures !os.faulty ==> (Promise(os, old(os.fs), root, ok) <==> !Misread(os, old(os.fs), root, limit))
    ensures |root| == limit ==> CutDone(os, old(os.fs), root[..limit - 1], ok)
    ensures !os.faulty && |root| < limit && os.Stat(old(os.fs), root).Some? ==>
              var at := os.Place(old(os.fs), root).at; Clear(os, old(os.fs), Job(root, at), at, limit) ==> ok
  {
    hide WellFormed, OnlyBelow, GoneBelow, Clear, Anchored, System.Place, System.Stat, PathBuffer.Valid;
    ghost var was, s := os.fs, os.Place(os.fs, root);
    ghost var at := if s.Found? then s.at else [];
    ghost var job := Job(root, at);
    NothingRemoved(was, at);
    AtRoot(job);
    if os.Stat(was, root).Some? { StatPlace(os, was, root); }
    var path;
    path, ok := FirstText(root, limit);
    if !ok { return false; }
    ok := DeleteRecursively(os, path, job, at);
    if ok && |root| == limit { MisreadBreaks(os, was, root, limit); }
  }

  lemma AtRoot(job: Job)
    ensures job.Text(job.at) == job.root && Ordinary(job, job.at)
  {
    assert job.at[|job.at|..] == [] && job.root + "" == job.root;
  }

  // ---------------------------------------------------------------- a deletion that goes wrong

  const TWO_FILES: Tree := map[[] := DirKind, ["a"] := FileKind, ["ab"] := FileKind]

  lemma TwoFilesIsTree()
    ensures WellFormed(TWO_FILES)
  {
    var a: Components, ab: Components := ["a"], ["ab"];
    assert Parent(a) == [] && Parent(ab) == [];
    assert InDirectory(TWO_FILES, a) && InDirectory(TWO_FILES, ab);
  }

  lemma TwoFiles(os: System)
    ensures os.IsFile(TWO_FILES, "/a") && os.Place(TWO_FILES, "/a").at == ["a"]
  {
    hide Walk;
    var fs := TWO_FILES;
    SplitAtSeparator("", "a");
    OneSegment("a");
    assert "" + "/" + "a" == "/a" && Split("") + ["a"] == ["a"];
    WalkName(fs, [], "a", os.maxLinks);
    assert [] + ["a"] == ["a"];
  }

  /** With room for three characters, deleting "/ab" removes "/a", keeps "/ab" and
      reports success. */
  method RemovesAnother() returns (os: System, ok: bool)
    ensures ok && os.fs == map[[] := DirKind, ["ab"] := FileKind]
  {
    hide WellFormed, System.IsFile, System.Place, Promise, Clear, System.Stat;
    os := new System(TWO_FILES, [], 40, false);
    TwoFilesIsTree();
    TwoFiles(os);
    var root := "/ab";
    assert root[..2] == "/a";
    ok := Delete(os, root, 3);
    assert TWO_FILES - {["a"]} == map[[] := DirKind, ["ab"] := FileKind];
  }
}
