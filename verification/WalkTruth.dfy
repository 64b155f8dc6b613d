/** What a listing says about the file system is true, and exactly when it is
    not: a path that fills the buffer has lost its last character. */
module WalkTruth {
  import opened Basics
  import opened PathSpec
  import opened FileTree
  import opened WalkFrames
  import opened WalkMeaning

  predicate IsFile(r: Request, n: Node)
  {
    n.FileNode? || (r.followLinks && n.LinkNode? && n.target.ToFile?)
  }

  predicate IsDirectory(r: Request, n: Node)
  {
    n.DirNode? || (r.followLinks && n.LinkNode? && n.target.ToDir?)
  }

  predicate Unlistable(r: Request, path: string)
  {
    var d := r.DirAt(path);
    d.None? || d.value !in r.fs.dirs || !r.fs.dirs[d.value].readable || r.fs.dirs[d.value].faulty
  }

  /** The start of the path of an entry for which the buffer is too small. */
  ghost predicate IsCutOff(r: Request, text: string)
  {
    exists path :: |path| > r.limit && text == r.Cut(path) && r.Lstat(path).Some?
  }

  /** The node found is of the kind reported. */
  predicate IsKind(r: Request, n: Maybe<Node>, kind: StepKind)
  {
    match kind
    case AsFile => n.Some? && IsFile(r, n.value)
    case AsDirectory => n.Some? && IsDirectory(r, n.value)
    case AsLink => n.Some? && n.value.LinkNode?
    case _ => true
  }

  /** The step is what the path, looked up afresh, turns out to be. */
  ghost predicate IsTrue(r: Request, s: Step)
  {
    IsKind(r, r.Lstat(s.path), s.kind) && (s.kind == AsError ==> Unlistable(r, s.path) || IsCutOff(r, s.path))
  }

  /** True of its path; or a report whose path all but fills the buffer, and true
      of a path that is one character longer. */
  ghost predicate IsTruthful(r: Request, s: Step)
  {
    IsTrue(r, s) || (IsReport(s) && |s.path| == r.limit - 1 && exists c :: IsTrue(r, Step(s.kind, s.path + [c])))
  }

  // ---------------------------------------------------------------- every report is true

  /** What the kind of step says is true wherever the node is found. */
  lemma KindIsTrue(r: Request, text: string, name: string, node: Node, links: seq<FileId>)
    requires r.Lstat(text) == Some(node)
    ensures IsTrue(r, Step(KindOf(Treat(r, name, node, links)), text))
  {
    hide Request.Lstat, Request.DirAt;
  }

  lemma EntryIsTrue(r: Request, prefix: string, d: DirId, i: nat, links: seq<FileId>)
    requires WellFormed(r.fs) && d in r.fs.dirs && i < |r.fs.dirs[d].entries| && IsPrefix(r, prefix, d)
    ensures var e := r.fs.dirs[d].entries[i];
            var t, text := TreatAt(r, prefix + e.name, e, links), r.Cut(prefix + e.name);
            && IsTruthful(r, Step(KindOf(t), text))
            && (t.Blocked? ==> IsTruthful(r, Step(AsError, text)))
  {
    hide Request.Lstat, Request.DirAt, WellFormed, IsFile, IsDirectory, Treat, IsTrue, Request.Cut, Request.Open;
    var e := r.fs.dirs[d].entries[i];
    var path := prefix + e.name;
    PathOfEntry(r, prefix, d, i);
    var t, text := TreatAt(r, path, e, links), r.Cut(path);
    if t.Blocked? { BlockedIsTrue(r, text); }
    if t.TooLong? {
      TooLongIsTrue(r, path);
    } else if t.Stray? {
      SilentIsTrue(r, text);
    } else if |path| < r.limit {
      KindIsTrue(r, path, e.name, e.node, links);
    } else if r.FromType(e) {
      KindIsTrue(r, path, e.name, e.node, links);
      LastLost(r, path);
      SilentIsTrue(r, text);
      assert IsTrue(r, Step(KindOf(t), text + [path[|path| - 1]]));
    } else if r.Lstat(text).None? {
      MissingIsTrue(r, text);
    } else {
      KindIsTrue(r, text, e.name, r.Lstat(text).value, links);
    }
  }

  lemma LastLost(r: Request, path: string)
    requires |path| == r.limit
    ensures |r.Cut(path)| == r.limit - 1 && r.Cut(path) + [path[|path| - 1]] == path
  {
  }

  lemma BlockedIsTrue(r: Request, text: string)
    requires r.Open(text).None?
    ensures IsTrue(r, Step(AsError, text))
  {
  }

  lemma TooLongIsTrue(r: Request, path: string)
    requires |path| > r.limit && r.Lstat(path).Some?
    ensures IsTrue(r, Step(AsError, r.Cut(path)))
  {
    hide Request.Lstat;
  }

  lemma SilentIsTrue(r: Request, text: string)
    ensures IsTrue(r, Step(Astray, text)) && IsTrue(r, Step(Skip, text)) && IsTruthful(r, Step(Pop, text))
  {
  }

  lemma MissingIsTrue(r: Request, text: string)
    requires r.Lstat(text).None?
    ensures IsTrue(r, Step(AsError, text))
  {
    LstatNone(r, text);
  }

  lemma EndIsTrue(r: Request, prefix: string, d: DirId, links: seq<FileId>, s: Step)
    requires WellFormed(r.fs) && Within(r.fs, d, links) && IsPrefix(r, prefix, d)
    requires s in WalkFrom(r, prefix, d, |r.fs.dirs[d].entries|, links)
    ensures IsTruthful(r, s)
  {
    CutNames(r, prefix);
    hide Request.Cut, Request.DirAt, Request.Lstat, IsCutOff;
  }

  lemma {:induction false} DirIsTrue(r: Request, path: string, isRoot: bool, d: DirId, links: seq<FileId>, s: Step)
    requires WellFormed(r.fs) && Within(r.fs, d, links)
    requires r.DirAt(r.Cut(path)) == Some(d) && IsPrefix(r, if isRoot then path else path + "/", d)
    requires s in WalkDir(r, path, isRoot, d, links)
    ensures IsTruthful(r, s)
    decreases LinksLeft(r.fs, links), r.fs.height[d], 1, 0
  {
    hide IsPrefix, Request.DirAt, Request.Cut, IsCutOff;
    if r.fs.dirs[d].readable {
      FromIsTrue(r, if isRoot then path else path + "/", d, 0, links, s);
    }
  }

  lemma {:induction false} FromIsTrue(r: Request, prefix: string, d: DirId, i: nat, links: seq<FileId>, s: Step)
    requires WellFormed(r.fs) && Within(r.fs, d, links) && i <= |r.fs.dirs[d].entries| && IsPrefix(r, prefix, d)
    requires s in WalkFrom(r, prefix, d, i, links)
    ensures IsTruthful(r, s)
    decreases LinksLeft(r.fs, links), r.fs.height[d], 0, |r.fs.dirs[d].entries| - i
  {
    hide WalkFrom, WalkDir, IsPrefix, Request.DirAt, Request.Cut, IsTruthful, TreatAt, LinksLeft, GoodEntry,
         DistinctNames, Links, Elements, KindOf, GoesOn;
    var es := r.fs.dirs[d].entries;
    if i == |es| {
      EndIsTrue(r, prefix, d, links, s);
    } else {
      var path, t := prefix + es[i].name, TreatAt(r, prefix + es[i].name, es[i], links);
      WalkFromParts(r, prefix, d, i, links, s);
      EntryIsTrue(r, prefix, d, i, links);
      EntryEnters(r, prefix, d, i, links);
      SilentIsTrue(r, r.Cut(path));
      if GoesOn(t) && s in WalkFrom(r, prefix, d, i + 1, links) {
        FromIsTrue(r, prefix, d, i + 1, links, s);
      } else if s != Step(KindOf(t), r.Cut(path)) && t.GoInto? && s != Step(Pop, r.Cut(path)) {
        DirIsTrue(r, path, false, t.dir, t.links, s);
      }
    }
  }

  /** Every report of a listing is true, but for the last character of a path
      that fills the buffer. */
  lemma ListedTruthfully(r: Request, text: string, s: Step)
    requires WellFormed(r.fs) && EndsInSeparator(text) && |text| <= r.limit && s in WalkRoot(r, text)
    ensures IsTruthful(r, s)
  {
    hide IsCutOff, Request.Cut, Request.DirAt;
    var d := r.DirAt(text);
    CutNames(r, text);
    if d.Some? && d.value in r.fs.dirs {
      assert Elements([]) == {};
      DirIsTrue(r, text, true, d.value, [], s);
    }
  }

  // ---------------------------------------------------------------- when every report is true

  /** An entry that is reached is found under its whole path. */
  lemma {:induction false} ReachedIsThere(r: Request, prefix: string, at: Lead, cs: Components)
    requires WellFormed(r.fs) && Within(r.fs, at.dir, at.links) && Reaches(r, prefix, at, cs)
    requires IsPrefix(r, prefix, at.dir)
    ensures Sight(r, at, cs).Some? && r.Lstat(prefix + Join(cs)) == Some(Sight(r, at, cs).value.e.node)
    decreases |cs|
  {
    hide WellFormed, Within, Reaches, Leads, Sight, Join, Request.Lstat, Request.DirAt, TreatAt, AllPass, IsDots;
    var j := NextOnTheWay(r, prefix, at, cs);
    var e := r.fs.dirs[at.dir].entries[j];
    PathOfEntry(r, prefix, at.dir, j);
    if |cs| == 1 {
      assert cs == [e.name];
      SightFirst(r, at, j);
    } else {
      var sub := Leads(r, e.node, at.links).value;
      assert cs == [e.name] + cs[1..];
      TreatsEntry(r, prefix + e.name, e, at.links);
      InsideWalk(r, prefix, at, j, sub);
      EntryEnters(r, prefix, at.dir, j, at.links);
      ReachedIsThere(r, prefix + e.name + "/", sub, cs[1..]);
      SightOn(r, at, j, sub, cs[1..]);
      Regrouped(prefix, e.name, Join(cs[1..]));
    }
  }

  /** An entry that is come to and listed by its type has a path that fills the
      buffer, and what is left of the path names nothing, or something of another
      kind. */
  ghost predicate Misnamed(r: Request, text: string, cs: Components)
  {
    && r.DirAt(text).Some?
    && var at, path := Lead(r.DirAt(text).value, []), text + Join(cs);
       && Reaches(r, text, at, cs) && Sight(r, at, cs).Some? && |path| == r.limit
       && var e, links := Sight(r, at, cs).value.e, Sight(r, at, cs).value.links;
          && e.typed && (r.followLinks ==> !e.node.LinkNode?) && !Strays(r, path, e, links)
          && !IsKind(r, r.Lstat(r.Cut(path)), SeenAs(r, e.node, links))
  }

  /** A report is false if and only if its entry is one of those. */
  lemma ReportIsTrue(r: Request, text: string, cs: Components, s: Step)
    requires WellFormed(r.fs) && EndsInSeparator(text) && |text| <= r.limit && MadeBy(r, text, cs, s) && IsReport(s)
    ensures IsTrue(r, s) <==> !Misnamed(r, text, cs)
  {
    hide WellFormed, Reaches, Sight, Join, Request.Lstat, Request.DirAt, Request.Cut, Unlistable, IsCutOff, Strays,
         IsKind;
    var at, path := Lead(r.DirAt(text).value, []), text + Join(cs);
    ReachesReads(r, text, at, cs);
    RootWithin(r, at);
    ReachedIsThere(r, text, at, cs);
    ReachedFits(r, text, at, cs);
    var e, links := Sight(r, at, cs).value.e, Sight(r, at, cs).value.links;
    SeenIsKind(r, r.Look(path, e).value, links);
  }

  /** Such an entry is reported. */
  lemma MisnamedIsMade(r: Request, text: string, cs: Components) returns (s: Step)
    requires Misnamed(r, text, cs)
    ensures MadeBy(r, text, cs, s) && IsReport(s)
  {
    hide Reaches, Sight, Join, Request.Lstat, Request.DirAt, Request.Cut, Strays, IsKind;
    var at, path := Lead(r.DirAt(text).value, []), text + Join(cs);
    s := StepOf(r, path, Sight(r, at, cs).value);
  }

  lemma SeenIsKind(r: Request, n: Node, links: seq<FileId>)
    ensures IsKind(r, Some(n), SeenAs(r, n, links))
  {
  }

  lemma {:induction false} ReachedFits(r: Request, prefix: string, at: Lead, cs: Components)
    requires WellFormed(r.fs) && Reaches(r, prefix, at, cs)
    ensures |prefix + Join(cs)| <= r.limit && Join(cs) != ""
    decreases |cs|
  {
    JoinFront(cs);
    hide Reaches, Leads, Join, AllPass;
    var j := NextOnTheWay(r, prefix, at, cs);
    var e := r.fs.dirs[at.dir].entries[j];
    if |cs| > 1 {
      ReachedFits(r, prefix + e.name + "/", Leads(r, e.node, at.links).value, cs[1..]);
    } else {
      assert cs == [e.name] && GoodEntry(r.fs, at.dir, e);
    }
  }

  /** Every step of a listing is true if and only if it comes to no such entry. */
  lemma TrueExactly(r: Request, text: string)
    requires WellFormed(r.fs) && EndsInSeparator(text) && |text| <= r.limit
    ensures (forall s :: s in WalkRoot(r, text) ==> IsTrue(r, s)) <==> (forall cs :: !Misnamed(r, text, cs))
  {
    hide WellFormed, WalkRoot, IsTrue, Misnamed, MadeBy;
    forall cs | Misnamed(r, text, cs) ensures exists s :: s in WalkRoot(r, text) && !IsTrue(r, s) {
      var s := MisnamedIsMade(r, text, cs);
      MadeIsListed(r, text, cs, s);
      ReportIsTrue(r, text, cs, s);
    }
    forall s | s in WalkRoot(r, text) && !IsTrue(r, s) ensures exists cs :: Misnamed(r, text, cs) {
      ListedTruthfully(r, text, s);
      var cs := ListedIsMade(r, text, s);
      ReportIsTrue(r, text, cs, s);
    }
  }
}
