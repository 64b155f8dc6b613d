/** Two small directories in which a path fills the buffer. */
module WalkExamples {
  import opened Basics
  import opened PathSpec
  import opened FileTree
  import opened WalkFrames
  import opened WalkMeaning
  import opened WalkTruth

  /** A root directory with two entries, listed with a buffer of three. */
  function TwoEntries(a: Dirent, b: Dirent): Request
  {
    var empty := Dir([], true, false);
    Request(FileSystem(map[0 := Dir([a, b], true, false), 1 := empty, 2 := empty], map[0 := 1, 1 := 0, 2 := 0]),
            0, 0, true, false, 3)
  }

  lemma TwoEntriesWalk(a: Dirent, b: Dirent)
    requires IsOrdinary(a.name) && IsOrdinary(b.name) && NUL !in a.name && NUL !in b.name && a.name != b.name
    requires a.typed && a.node in {FileNode, DirNode(1), DirNode(2)}
    requires b.typed && b.node in {FileNode, DirNode(1), DirNode(2)}
    ensures var r := TwoEntries(a, b);
            && WellFormed(r.fs) && IsPrefix(r, "/", 0) && Within(r.fs, 0, [])
            && 0 in r.fs.dirs && r.fs.dirs[0].entries == [a, b] && !r.fs.dirs[0].faulty && r.limit == 3 && r.recursive
            && WalkRoot(r, "/") == WalkFrom(r, "/", 0, 0, [])
            && (r.Lstat("/a").Some? ==> Find([a, b], "a").Some?) && Readable(r, 0) && Readable(r, 2)
  {
    var r := TwoEntries(a, b);
    assert Elements([]) == {};
    assert Split("/") == [];
    forall d, i | d in r.fs.dirs && 0 <= i < |r.fs.dirs[d].entries|
      ensures GoodEntry(r.fs, d, r.fs.dirs[d].entries[i])
    {
    }
    assert WellFormed(r.fs);
    LstatInDir(r, "/", 0, "a");
    assert "/" + "a" == "/a";
  }

  /** A file is one step. */
  lemma FileStep(r: Request, prefix: string, at: Lead, i: nat)
    requires WellFormed(r.fs) && Within(r.fs, at.dir, at.links) && i < |r.fs.dirs[at.dir].entries|
    requires var e := r.fs.dirs[at.dir].entries[i]; e.typed && e.node.FileNode? && |prefix + e.name| <= r.limit
    ensures WalkFrom(r, prefix, at.dir, i, at.links) ==
            [Step(AsFile, r.Cut(prefix + r.fs.dirs[at.dir].entries[i].name))]
            + WalkFrom(r, prefix, at.dir, i + 1, at.links)
  {
    hide WalkFrom, WellFormed, Within, LinksLeft, Request.Cut, Request.Lstat, Request.Open;
    Parts(r, prefix, at, i);
  }

  lemma LastStep(r: Request, prefix: string, at: Lead)
    requires WellFormed(r.fs) && Within(r.fs, at.dir, at.links) && !r.fs.dirs[at.dir].faulty
    ensures WalkFrom(r, prefix, at.dir, |r.fs.dirs[at.dir].entries|, at.links) == [Step(Pop, r.Cut(prefix))]
  {
    hide WellFormed, Within, LinksLeft, Request.Cut;
  }

  lemma NotAmong(a: Dirent, b: Dirent)
    requires |a.name| == |b.name| == 2
    ensures Find([a, b], "a") == None
  {
  }

  /** Two files whose paths differ in the character that is lost are reported
      under one path, and there is no such file. */
  lemma LosesTheLast()
    ensures var r := TwoEntries(Dirent("ab", true, FileNode), Dirent("ac", true, FileNode));
            && WellFormed(r.fs) && WalkRoot(r, "/") == [Step(AsFile, "/a"), Step(AsFile, "/a"), Step(Pop, "/")]
            && !IsTrue(r, Step(AsFile, "/a"))
  {
    hide TwoEntries, WalkRoot, WalkFrom, WellFormed, Within, Request.DirAt, Request.Lstat;
    var a, b := Dirent("ab", true, FileNode), Dirent("ac", true, FileNode);
    var r := TwoEntries(a, b);
    TwoEntriesWalk(a, b);
    assert "/" + "ab" == "/ab" && "/" + "ac" == "/ac" && "/ab"[..2] == "/a" && "/ac"[..2] == "/a";
    FileStep(r, "/", Lead(0, []), 0);
    FileStep(r, "/", Lead(0, []), 1);
    LastStep(r, "/", Lead(0, []));
    NotAmong(a, b);
  }

  /** A directory whose path fills the buffer, when what is left of it opens. */
  lemma StrayHere(r: Request, prefix: string, at: Lead, i: nat)
    requires WellFormed(r.fs) && Within(r.fs, at.dir, at.links) && i < |r.fs.dirs[at.dir].entries| && r.recursive
    requires var e := r.fs.dirs[at.dir].entries[i];
             && e.typed && e.node.DirNode? && !IsDots(e.name) && |prefix + e.name| == r.limit
             && r.Open(r.Cut(prefix + e.name)).Some?
    ensures Step(Astray, r.Cut(prefix + r.fs.dirs[at.dir].entries[i].name)) in WalkFrom(r, prefix, at.dir, i, at.links)
  {
    hide WalkFrom, Inside, WellFormed, Within, Request.Cut, Request.Lstat, Request.Open;
    Parts(r, prefix, at, i);
  }

  /** The directory "/ab" in a buffer of three, where "/a" opens. */
  lemma StrayAtAb(r: Request)
    requires WellFormed(r.fs) && Within(r.fs, 0, []) && r.limit == 3 && r.recursive && r.Open("/a").Some?
    requires |r.fs.dirs[0].entries| > 0 && r.fs.dirs[0].entries[0] == Dirent("ab", true, DirNode(1))
    ensures Step(Astray, "/a") in WalkFrom(r, "/", 0, 0, [])
  {
    hide WalkFrom, WellFormed, Within, Request.Open;
    assert "/" + "ab" == "/ab" && "/ab"[..2] == "/a";
    StrayHere(r, "/", Lead(0, []), 0);
  }

  lemma SecondOpens(r: Request)
    requires WellFormed(r.fs) && IsPrefix(r, "/", 0) && Readable(r, 0) && Readable(r, 2)
    requires |r.fs.dirs[0].entries| > 1 && r.fs.dirs[0].entries[1] == Dirent("a", true, DirNode(2))
    ensures r.Open("/a") == Some(2)
  {
    hide WellFormed, Request.DirAt, Request.Lstat;
    PathOfEntry(r, "/", 0, 1);
    assert "/" + "a" == "/a";
  }

  /** Another directory is opened in place of one whose path fills the buffer:
      from there on the walk is not defined. */
  lemma LosesItsWay()
    ensures var r := TwoEntries(Dirent("ab", true, DirNode(1)), Dirent("a", true, DirNode(2)));
            WellFormed(r.fs) && Step(Astray, "/a") in WalkRoot(r, "/")
  {
    hide TwoEntries, WalkRoot, WalkFrom, WellFormed, Within, IsPrefix, Request.Open, Request.Lstat, Readable, Find;
    var a, b := Dirent("ab", true, DirNode(1)), Dirent("a", true, DirNode(2));
    TwoEntriesWalk(a, b);
    SecondOpens(TwoEntries(a, b));
    StrayAtAb(TwoEntries(a, b));
  }
}
