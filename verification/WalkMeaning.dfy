/** Which entries a listing comes to, defined without the walk: and the steps of
    the walk are exactly what those entries make. */
module WalkMeaning {
  import opened Basics
  import opened PathSpec
  import opened FileTree
  import opened WalkFrames

  // ---------------------------------------------------------------- what can be reached

  /** A directory and the links followed on the way to it. */
  datatype Lead = Lead(dir: DirId, links: seq<FileId>)

  /** Where a node leads: into a real directory, or over a link to one that was
      not followed on the way here. */
  function Leads(r: Request, node: Node, links: seq<FileId>): Maybe<Lead>
  {
    match node
    case DirNode(d) => Some(Lead(d, links))
    case LinkNode(id, ToDir(d)) => if r.followLinks && id !in links then Some(Lead(d, [id] + links)) else None
    case _ => None
  }

  predicate Readable(r: Request, d: DirId) { d in r.fs.dirs && r.fs.dirs[d].readable }

  /** The entry is to be entered, its path exactly fills the buffer, and what is
      left of the path opens: the walk loses its way. */
  predicate Strays(r: Request, path: string, e: Dirent, links: seq<FileId>)
  {
    && r.recursive && |path| == r.limit && !IsDots(e.name)
    && r.Look(path, e).Some? && Leads(r, r.Look(path, e).value, links).Some? && r.Open(r.Cut(path)).Some?
  }

  /** Reading the directory goes on after the entry. */
  predicate Passes(r: Request, path: string, e: Dirent, links: seq<FileId>)
  {
    |path| <= r.limit && !Strays(r, path, e, links)
  }

  ghost predicate AllPass(r: Request, prefix: string, es: seq<Dirent>, links: seq<FileId>)
  {
    forall k :: 0 <= k < |es| ==> Passes(r, prefix + es[k].name, es[k], links)
  }

  /** `cs` leads through readable directories to an entry below `at`, and no
      path on the way, nor that of an earlier entry, stops the reading. */
  ghost predicate Reaches(r: Request, prefix: string, at: Lead, cs: Components)
    decreases |cs|
  {
    && cs != [] && Readable(r, at.dir) && !IsDots(cs[0])
    && exists j :: 0 <= j < |r.fs.dirs[at.dir].entries|
                   && AllPass(r, prefix, r.fs.dirs[at.dir].entries[..j], at.links)
                   && OnTheWay(r, prefix, r.fs.dirs[at.dir].entries[j], at.links, cs)
  }

  ghost predicate OnTheWay(r: Request, prefix: string, e: Dirent, links: seq<FileId>, cs: Components)
    requires cs != []
    decreases |cs|, 0
  {
    && e.name == cs[0] && |prefix + e.name| <= r.limit
    && (|cs| > 1 ==>
          && r.recursive && |prefix + e.name| < r.limit && Leads(r, e.node, links).Some?
          && Reaches(r, prefix + e.name + "/", Leads(r, e.node, links).value, cs[1..]))
  }

  /** An entry, and the links followed on the way to its directory. */
  datatype Sighting = Sighting(e: Dirent, links: seq<FileId>)

  /** The entry that `cs` names from `at`. */
  function Sight(r: Request, at: Lead, cs: Components): Maybe<Sighting>
    decreases |cs|
  {
    if cs == [] || at.dir !in r.fs.dirs then None
    else match Find(r.fs.dirs[at.dir].entries, cs[0])
      case None => None
      case Some(e) =>
        if |cs| == 1 then Some(Sighting(e, at.links))
        else match Leads(r, e.node, at.links)
          case None => None
          case Some(next) => Sight(r, next, cs[1..])
  }

  /** What a node is listed as, given the links followed to get to its directory:
      a link that is followed is what it points at, and one that is broken or was
      followed before is a link. */
  function SeenAs(r: Request, n: Node, links: seq<FileId>): StepKind
  {
    match n
    case FileNode => AsFile
    case DirNode(_) => AsDirectory
    case LinkNode(id, target) =>
      if !r.followLinks || id in links || target.Broken? then AsLink
      else if target.ToFile? then AsFile
      else AsDirectory
  }

  function MarkOf(r: Request, path: string, e: Dirent, links: seq<FileId>): StepKind
  {
    match r.Look(path, e)
    case None => AsError
    case Some(n) => if Strays(r, path, e, links) then Astray else SeenAs(r, n, links)
  }

  /** The step that the entry makes. */
  function StepOf(r: Request, path: string, s: Sighting): Step
  {
    Step(MarkOf(r, path, s.e, s.links), r.Cut(path))
  }

  predicate IsReport(s: Step) { s.kind in {AsFile, AsDirectory, AsLink} }

  /** A report, or where the walk loses its way. */
  predicate IsMark(s: Step) { IsReport(s) || s.kind == Astray }

  /** The step `s` is that of the entry that `cs` names from `at`. */
  ghost predicate Made(r: Request, prefix: string, at: Lead, cs: Components, s: Step)
  {
    && Reaches(r, prefix, at, cs) && Sight(r, at, cs).Some?
    && s == StepOf(r, prefix + Join(cs), Sight(r, at, cs).value)
  }

  // ---------------------------------------------------------------- entries and the walk

  /** What the walk does with an entry that is not a dot entry and whose path
      fits. */
  lemma TreatsEntry(r: Request, path: string, e: Dirent, links: seq<FileId>)
    requires |path| <= r.limit && !IsDots(e.name)
    ensures var t := TreatAt(r, path, e, links);
            && KindOf(t) == MarkOf(r, path, e, links) && !t.TooLong?
            && (|path| < r.limit ==> (t.GoInto? <==> Leads(r, e.node, links).Some?) && !t.Stray?)
            && (|path| < r.limit && t.GoInto? ==> Leads(r, e.node, links).value == Lead(t.dir, t.links))
  {
    hide Request.Lstat, Request.Open;
  }

  lemma PassesExactly(r: Request, path: string, e: Dirent, links: seq<FileId>)
    ensures GoesOn(TreatAt(r, path, e, links)) <==> Passes(r, path, e, links)
  {
    hide Request.Lstat, Request.Open;
  }

  lemma PassAt(r: Request, prefix: string, es: seq<Dirent>, links: seq<FileId>, i: nat, j: nat)
    requires i < j <= |es| && AllPass(r, prefix, es[..j], links)
    ensures Passes(r, prefix + es[i].name, es[i], links)
  {
    hide Passes;
    assert es[..j][i] == es[i];
  }

  lemma MorePass(r: Request, prefix: string, es: seq<Dirent>, links: seq<FileId>, i: nat)
    requires i < |es| && AllPass(r, prefix, es[..i], links) && Passes(r, prefix + es[i].name, es[i], links)
    ensures AllPass(r, prefix, es[..i + 1], links)
  {
    hide Passes;
    var front := es[..i + 1];
    forall k | 0 <= k < |front| ensures Passes(r, prefix + front[k].name, front[k], links) {
      if k < i { assert front[k] == es[..i][k]; }
    }
  }

  /** The walk of a directory from an entry on: its step, what is inside it, and
      the rest; or only its step, where that ends the directory. */
  lemma Parts(r: Request, prefix: string, at: Lead, i: nat)
    requires WellFormed(r.fs) && Within(r.fs, at.dir, at.links) && i < |r.fs.dirs[at.dir].entries|
    ensures var e := r.fs.dirs[at.dir].entries[i];
            var t, text := TreatAt(r, prefix + e.name, e, at.links), r.Cut(prefix + e.name);
            WalkFrom(r, prefix, at.dir, i, at.links) ==
              if Passes(r, prefix + e.name, e, at.links) then
                [Step(KindOf(t), text)]
                + (Inside(r, prefix, at.dir, i, at.links) + WalkFrom(r, prefix, at.dir, i + 1, at.links))
              else [Step(KindOf(t), text), Step(Pop, text)]
  {
    var e := r.fs.dirs[at.dir].entries[i];
    hide TreatAt, Inside, WellFormed, Within, LinksLeft, Request.Cut, KindOf, Passes, GoesOn;
    PassesExactly(r, prefix + e.name, e, at.links);
  }

  /** After entries that pass, the walk from `j` on is the end of that from `i` on. */
  lemma {:induction false} WalkSuffix(r: Request, prefix: string, at: Lead, i: nat, j: nat) returns (before: seq<Step>)
    requires WellFormed(r.fs) && Within(r.fs, at.dir, at.links) && i <= j <= |r.fs.dirs[at.dir].entries|
    requires AllPass(r, prefix, r.fs.dirs[at.dir].entries[..j], at.links)
    ensures WalkFrom(r, prefix, at.dir, i, at.links) == before + WalkFrom(r, prefix, at.dir, j, at.links)
    decreases j - i
  {
    hide WalkFrom, WellFormed, Within, AllPass;
    if i == j {
      before := [];
    } else {
      var first := OnePassed(r, prefix, at, i, j);
      var rest := WalkSuffix(r, prefix, at, i + 1, j);
      before := first + rest;
      Regroup(first, rest, WalkFrom(r, prefix, at.dir, j, at.links));
    }
  }

  lemma OnePassed(r: Request, prefix: string, at: Lead, i: nat, j: nat) returns (first: seq<Step>)
    requires WellFormed(r.fs) && Within(r.fs, at.dir, at.links) && i < j <= |r.fs.dirs[at.dir].entries|
    requires AllPass(r, prefix, r.fs.dirs[at.dir].entries[..j], at.links)
    ensures WalkFrom(r, prefix, at.dir, i, at.links) == first + WalkFrom(r, prefix, at.dir, i + 1, at.links)
  {
    var es := r.fs.dirs[at.dir].entries;
    hide WalkFrom, WellFormed, Within, AllPass, TreatAt, Inside, Request.Cut, KindOf, Passes;
    PassAt(r, prefix, es, at.links, i, j);
    Parts(r, prefix, at, i);
    first := [Step(KindOf(TreatAt(r, prefix + es[i].name, es[i], at.links)), r.Cut(prefix + es[i].name))];
    Regroup(first, Inside(r, prefix, at.dir, i, at.links), WalkFrom(r, prefix, at.dir, i + 1, at.links));
    first := first + Inside(r, prefix, at.dir, i, at.links);
  }

  lemma Regroup(a: seq<Step>, b: seq<Step>, c: seq<Step>)
    ensures a + (b + c) == a + b + c
  {
  }

  lemma NextOnTheWay(r: Request, prefix: string, at: Lead, cs: Components) returns (j: nat)
    requires Reaches(r, prefix, at, cs)
    ensures cs != [] && Readable(r, at.dir) && j < |r.fs.dirs[at.dir].entries|
    ensures AllPass(r, prefix, r.fs.dirs[at.dir].entries[..j], at.links)
    ensures var e := r.fs.dirs[at.dir].entries[j];
            && e.name == cs[0] && !IsDots(e.name) && |prefix + e.name| <= r.limit
            && (|cs| > 1 ==>
                  && r.recursive && |prefix + e.name| < r.limit && Leads(r, e.node, at.links).Some?
                  && Reaches(r, prefix + e.name + "/", Leads(r, e.node, at.links).value, cs[1..])
                  && Readable(r, Leads(r, e.node, at.links).value.dir))
  {
    hide Request.Look, Leads, AllPass;
    j :| 0 <= j < |r.fs.dirs[at.dir].entries| && AllPass(r, prefix, r.fs.dirs[at.dir].entries[..j], at.links)
         && OnTheWay(r, prefix, r.fs.dirs[at.dir].entries[j], at.links, cs);
    var e := r.fs.dirs[at.dir].entries[j];
    if |cs| > 1 { assert Reaches(r, prefix + e.name + "/", Leads(r, e.node, at.links).value, cs[1..]); }
  }

  /** Inside a directory that is entered, the walk is that directory's. */
  lemma InsideWalk(r: Request, prefix: string, at: Lead, j: nat, sub: Lead)
    requires WellFormed(r.fs) && Within(r.fs, at.dir, at.links) && j < |r.fs.dirs[at.dir].entries| && r.recursive
    requires var e := r.fs.dirs[at.dir].entries[j];
             TreatAt(r, prefix + e.name, e, at.links) == GoInto(sub.dir, sub.links)
    requires Readable(r, sub.dir)
    ensures Within(r.fs, sub.dir, sub.links)
    ensures Inside(r, prefix, at.dir, j, at.links) ==
            WalkFrom(r, prefix + r.fs.dirs[at.dir].entries[j].name + "/", sub.dir, 0, sub.links)
  {
    var e := r.fs.dirs[at.dir].entries[j];
    GoIntoNear(r, prefix + e.name, e, at.links);
    GoIntoDescends(r, at.dir, j, at.links);
    hide WellFormed, Within, TreatAt, Treat, LinksLeft, WalkFrom;
  }

  lemma Regrouped(a: string, b: string, c: string)
    ensures a + b + "/" + c == a + (b + "/" + c)
  {
  }

  // ---------------------------------------------------------------- nothing is missed

  lemma SightFirst(r: Request, at: Lead, j: nat)
    requires WellFormed(r.fs) && at.dir in r.fs.dirs && j < |r.fs.dirs[at.dir].entries|
    ensures var e := r.fs.dirs[at.dir].entries[j];
            Sight(r, at, [e.name]) == Some(Sighting(e, at.links)) && Join([e.name]) == e.name
  {
    var es := r.fs.dirs[at.dir].entries;
    assert DistinctNames(es);
    FindUnique(es, j);
  }

  lemma SightOn(r: Request, at: Lead, j: nat, next: Lead, rest: Components)
    requires WellFormed(r.fs) && at.dir in r.fs.dirs && j < |r.fs.dirs[at.dir].entries| && rest != []
    requires Leads(r, r.fs.dirs[at.dir].entries[j].node, at.links) == Some(next)
    ensures var e := r.fs.dirs[at.dir].entries[j];
            && Sight(r, at, [e.name] + rest) == Sight(r, next, rest)
            && Join([e.name] + rest) == e.name + "/" + Join(rest)
  {
    var es := r.fs.dirs[at.dir].entries;
    var cs := [es[j].name] + rest;
    assert DistinctNames(es) && cs[1..] == rest;
    FindUnique(es, j);
    JoinFront(cs);
    hide Leads, WellFormed;
  }

  /** The step is that of the `j`-th entry or one inside it. */
  ghost predicate WithEntry(r: Request, prefix: string, at: Lead, j: nat, s: Step)
    requires WellFormed(r.fs) && Within(r.fs, at.dir, at.links) && j < |r.fs.dirs[at.dir].entries|
  {
    var e := r.fs.dirs[at.dir].entries[j];
    || s == Step(KindOf(TreatAt(r, prefix + e.name, e, at.links)), r.Cut(prefix + e.name))
    || (Passes(r, prefix + e.name, e, at.links) && s in Inside(r, prefix, at.dir, j, at.links))
  }

  lemma WithEntryIn(r: Request, prefix: string, at: Lead, j: nat, s: Step)
    requires WellFormed(r.fs) && Within(r.fs, at.dir, at.links) && j < |r.fs.dirs[at.dir].entries|
    requires WithEntry(r, prefix, at, j, s)
    ensures s in WalkFrom(r, prefix, at.dir, j, at.links)
  {
    hide WalkFrom, WellFormed, Within, TreatAt, KindOf, Passes, Inside, Request.Cut;
    Parts(r, prefix, at, j);
  }

  /** An entry that is reached makes its step, where its first component is read. */
  lemma {:induction false} ReachedWith(r: Request, prefix: string, at: Lead, cs: Components, j: nat) returns (s: Step)
    requires WellFormed(r.fs) && Within(r.fs, at.dir, at.links) && Reaches(r, prefix, at, cs)
    requires Readable(r, at.dir) && j < |r.fs.dirs[at.dir].entries| && r.fs.dirs[at.dir].entries[j].name == cs[0]
    ensures Made(r, prefix, at, cs, s) && WithEntry(r, prefix, at, j, s)
    decreases |cs|, 0
  {
    hide WellFormed, Within, WalkFrom, WalkDir, Reaches, Leads, TreatAt, LinksLeft, Join, IsDots, AllPass, Passes,
         Inside, Request.Look, Request.Cut, Sight, MarkOf, KindOf;
    var k := NextOnTheWay(r, prefix, at, cs);
    SameEntry(r.fs, at.dir, j, k);
    var e := r.fs.dirs[at.dir].entries[j];
    TreatsEntry(r, prefix + e.name, e, at.links);
    if |cs| == 1 {
      assert cs == [e.name];
      SightFirst(r, at, j);
      s := StepOf(r, prefix + e.name, Sighting(e, at.links));
    } else {
      var sub := Leads(r, e.node, at.links).value;
      assert cs == [e.name] + cs[1..];
      InsideWalk(r, prefix, at, j, sub);
      s := EverythingListed(r, prefix + e.name + "/", sub, cs[1..]);
      SightOn(r, at, j, sub, cs[1..]);
      Regrouped(prefix, e.name, Join(cs[1..]));
      ShortPasses(r, prefix + e.name, e, at.links);
    }
  }

  lemma ShortPasses(r: Request, path: string, e: Dirent, links: seq<FileId>)
    requires |path| < r.limit
    ensures Passes(r, path, e, links)
  {
  }

  lemma SameEntry(fs: FileSystem, d: DirId, j: nat, k: nat)
    requires WellFormed(fs) && d in fs.dirs && j < |fs.dirs[d].entries| && k < |fs.dirs[d].entries|
    requires fs.dirs[d].entries[j].name == fs.dirs[d].entries[k].name
    ensures j == k
  {
    assert DistinctNames(fs.dirs[d].entries);
  }

  /** A listing comes to every entry that can be reached. */
  lemma {:induction false} EverythingListed(r: Request, prefix: string, at: Lead, cs: Components) returns (s: Step)
    requires WellFormed(r.fs) && Within(r.fs, at.dir, at.links) && Reaches(r, prefix, at, cs)
    ensures Made(r, prefix, at, cs, s) && s in WalkFrom(r, prefix, at.dir, 0, at.links)
    decreases |cs|, 1
  {
    hide WellFormed, Within, WalkFrom, Reaches, AllPass, Made, WithEntry;
    var j := NextOnTheWay(r, prefix, at, cs);
    s := ReachedWith(r, prefix, at, cs, j);
    WithEntryIn(r, prefix, at, j, s);
    var before := WalkSuffix(r, prefix, at, 0, j);
  }

  // ---------------------------------------------------------------- and nothing else is listed

  /** A step left in a directory is that of its next entry, one inside it, a
      later one, or the end. */
  lemma WalkFromParts(r: Request, prefix: string, d: DirId, i: nat, links: seq<FileId>, s: Step)
    requires WellFormed(r.fs) && Within(r.fs, d, links) && i < |r.fs.dirs[d].entries|
    requires s in WalkFrom(r, prefix, d, i, links)
    ensures var e := r.fs.dirs[d].entries[i];
            var t, text := TreatAt(r, prefix + e.name, e, links), r.Cut(prefix + e.name);
            || s == Step(KindOf(t), text)
            || s == Step(Pop, text)
            || (GoesOn(t) && s in WalkFrom(r, prefix, d, i + 1, links))
            || (t.GoInto? && r.recursive && Within(r.fs, t.dir, t.links)
                && s in WalkDir(r, prefix + e.name, false, t.dir, t.links))
            || (t.Blocked? && s == Step(AsError, text))
  {
    var e := r.fs.dirs[d].entries[i];
    var t := TreatAt(r, prefix + e.name, e, links);
    if t.GoInto? && r.recursive {
      GoIntoNear(r, prefix + e.name, e, links);
      GoIntoDescends(r, d, i, links);
    }
    hide WellFormed, Within, LinksLeft, Treat, TreatAt, WalkDir, Request.Cut;
  }

  /** Entering a directory of a recursive listing. */
  lemma EntryEnters(r: Request, prefix: string, d: DirId, i: nat, links: seq<FileId>)
    requires WellFormed(r.fs) && Within(r.fs, d, links) && i < |r.fs.dirs[d].entries| && IsPrefix(r, prefix, d)
    ensures var e := r.fs.dirs[d].entries[i];
            var path := prefix + e.name;
            var t := TreatAt(r, path, e, links);
            t.GoInto? && r.recursive ==>
              && r.DirAt(r.Cut(path)) == Some(t.dir) && IsPrefix(r, path + "/", t.dir)
              && r.fs.height.Keys == r.fs.dirs.Keys && t.dir in r.fs.dirs
              && (LinksLeft(r.fs, t.links) < LinksLeft(r.fs, links)
                  || (t.links == links && r.fs.height[t.dir] < r.fs.height[d]))
  {
    hide LinksLeft, Request.DirAt, Request.Lstat, TreatAt, Treat, Follow, Links, GoodEntry, DistinctNames, Elements;
    var e := r.fs.dirs[d].entries[i];
    if TreatAt(r, prefix + e.name, e, links).GoInto? && r.recursive {
      GoIntoNear(r, prefix + e.name, e, links);
      GoIntoDescends(r, d, i, links);
      PathOfEntry(r, prefix, d, i);
    }
  }

  lemma {:induction false} DirReaches(r: Request, path: string, isRoot: bool, at: Lead, s: Step)
    returns (cs: Components)
    requires WellFormed(r.fs) && Within(r.fs, at.dir, at.links)
    requires IsPrefix(r, if isRoot then path else path + "/", at.dir)
    requires IsMark(s) && s in WalkDir(r, path, isRoot, at.dir, at.links)
    ensures Made(r, if isRoot then path else path + "/", at, cs, s)
    decreases LinksLeft(r.fs, at.links), r.fs.height[at.dir], 1, 0
  {
    hide Made, IsPrefix;
    var k;
    cs, k := FromReaches(r, if isRoot then path else path + "/", at, 0, s);
  }

  /** Every mark left in a directory is made by an entry, which is read at `k`. */
  lemma {:induction false} FromReaches(r: Request, prefix: string, at: Lead, i: nat, s: Step)
    returns (cs: Components, k: nat)
    requires WellFormed(r.fs) && Within(r.fs, at.dir, at.links) && i <= |r.fs.dirs[at.dir].entries|
    requires AllPass(r, prefix, r.fs.dirs[at.dir].entries[..i], at.links) && IsPrefix(r, prefix, at.dir)
    requires r.fs.dirs[at.dir].readable && IsMark(s) && s in WalkFrom(r, prefix, at.dir, i, at.links)
    ensures Made(r, prefix, at, cs, s) && cs != []
    ensures i <= k < |r.fs.dirs[at.dir].entries| && r.fs.dirs[at.dir].entries[k].name == cs[0]
    decreases LinksLeft(r.fs, at.links), r.fs.height[at.dir], 0, |r.fs.dirs[at.dir].entries| - i
  {
    hide WalkFrom, WalkDir, TreatAt, Made, LinksLeft, IsMark, AllPass, Request.Cut, Passes, KindOf,
         GoodEntry, DistinctNames, Links, Elements, IsPrefix;
    var es := r.fs.dirs[at.dir].entries;
    if i == |es| {
      EndSteps(r, prefix, at, s);
    } else {
      var e := es[i];
      WalkFromParts(r, prefix, at.dir, i, at.links, s);
      NotAMark(s);
      PassesExactly(r, prefix + e.name, e, at.links);
      var path, t := prefix + e.name, TreatAt(r, prefix + e.name, e, at.links);
      if GoesOn(t) && s in WalkFrom(r, prefix, at.dir, i + 1, at.links) {
        MorePass(r, prefix, es, at.links, i);
        cs, k := FromReaches(r, prefix, at, i + 1, s);
      } else if s == Step(KindOf(t), r.Cut(path)) {
        cs, k := [e.name], i;
        MarkIsMade(r, prefix, at, i, s);
      } else {
        EntryEnters(r, prefix, at.dir, i, at.links);
        var rest := DirReaches(r, path, false, Lead(t.dir, t.links), s);
        cs, k := [e.name] + rest, i;
        MadeOn(r, prefix, at, i, rest, s);
      }
    }
  }

  lemma EndSteps(r: Request, prefix: string, at: Lead, s: Step)
    requires WellFormed(r.fs) && Within(r.fs, at.dir, at.links)
    requires s in WalkFrom(r, prefix, at.dir, |r.fs.dirs[at.dir].entries|, at.links)
    ensures !IsMark(s)
  {
  }

  lemma NotAMark(s: Step)
    requires IsMark(s)
    ensures s.kind != Pop && s.kind != AsError && s.kind != Skip
  {
  }

  /** What is entered is no dot entry and leads on. */
  lemma EntersNear(r: Request, prefix: string, at: Lead, i: nat)
    requires at.dir in r.fs.dirs && i < |r.fs.dirs[at.dir].entries| && r.recursive
    requires var e := r.fs.dirs[at.dir].entries[i]; TreatAt(r, prefix + e.name, e, at.links).GoInto?
    ensures var e := r.fs.dirs[at.dir].entries[i];
            var t := TreatAt(r, prefix + e.name, e, at.links);
            && |prefix + e.name| < r.limit && !IsDots(e.name)
            && t == Treat(r, e.name, e.node, at.links) && Leads(r, e.node, at.links) == Some(Lead(t.dir, t.links))
  {
    GoIntoNear(r, prefix + r.fs.dirs[at.dir].entries[i].name, r.fs.dirs[at.dir].entries[i], at.links);
  }

  lemma MarkIsMade(r: Request, prefix: string, at: Lead, i: nat, s: Step)
    requires WellFormed(r.fs) && Within(r.fs, at.dir, at.links) && Readable(r, at.dir) && IsPrefix(r, prefix, at.dir)
    requires i < |r.fs.dirs[at.dir].entries| && AllPass(r, prefix, r.fs.dirs[at.dir].entries[..i], at.links)
    requires var e := r.fs.dirs[at.dir].entries[i];
             IsMark(s) && s == Step(KindOf(TreatAt(r, prefix + e.name, e, at.links)), r.Cut(prefix + e.name))
    ensures Made(r, prefix, at, [r.fs.dirs[at.dir].entries[i].name], s)
  {
    hide Request.Lstat, Request.Open, Request.Look, Request.Cut, IsPrefix, WellFormed, Within, AllPass, Sight, Join,
         MarkOf, TreatAt, Leads;
    var e := r.fs.dirs[at.dir].entries[i];
    MarkFits(r, prefix, at, i, s);
    SightFirst(r, at, i);
    TreatsEntry(r, prefix + e.name, e, at.links);
    assert OnTheWay(r, prefix, e, at.links, [e.name]);
  }

  lemma MarkFits(r: Request, prefix: string, at: Lead, i: nat, s: Step)
    requires WellFormed(r.fs) && at.dir in r.fs.dirs && i < |r.fs.dirs[at.dir].entries| && IsPrefix(r, prefix, at.dir)
    requires var e := r.fs.dirs[at.dir].entries[i];
             IsMark(s) && s.kind == KindOf(TreatAt(r, prefix + e.name, e, at.links))
    ensures var e := r.fs.dirs[at.dir].entries[i]; |prefix + e.name| <= r.limit && !IsDots(e.name)
  {
    hide Request.Lstat, Request.DirAt, Request.Open, IsPrefix;
    if IsDots(r.fs.dirs[at.dir].entries[i].name) { DotsIgnored(r, prefix, at, i); }
  }

  /** The dot entries are never reported, even cut. */
  lemma DotsIgnored(r: Request, prefix: string, at: Lead, i: nat)
    requires WellFormed(r.fs) && at.dir in r.fs.dirs && i < |r.fs.dirs[at.dir].entries| && IsPrefix(r, prefix, at.dir)
    requires IsDots(r.fs.dirs[at.dir].entries[i].name)
    ensures var e := r.fs.dirs[at.dir].entries[i];
            KindOf(TreatAt(r, prefix + e.name, e, at.links)) !in {AsFile, AsDirectory, AsLink, Astray}
  {
    hide Request.Lstat, Request.DirAt, Request.Open;
    var e := r.fs.dirs[at.dir].entries[i];
    assert GoodEntry(r.fs, at.dir, e);
    if |prefix + e.name| == r.limit {
      CutDots(r, prefix, at.dir, e.name);
    }
  }

  /** A dot entry that has lost its last character is a directory, if anything. */
  lemma CutDots(r: Request, prefix: string, d: DirId, name: string)
    requires WellFormed(r.fs) && d in r.fs.dirs && IsPrefix(r, prefix, d) && IsDots(name) && |prefix + name| == r.limit
    ensures var n := r.Lstat(r.Cut(prefix + name)); n.Some? ==> n.value.DirNode?
  {
    hide Request.DirAt, WellFormed, Lookup, Split;
    if name == DOT {
      assert r.Cut(prefix + name) == prefix;
    } else {
      assert r.Cut(prefix + name) == prefix + DOT;
      hide Request.Lstat;
      LstatInDir(r, prefix, d, DOT);
      DotEntry(r.fs, d);
    }
  }

  lemma DotEntry(fs: FileSystem, d: DirId)
    requires WellFormed(fs) && d in fs.dirs
    ensures var n := Lookup(fs, d, DOT); n.Some? ==> n.value.DirNode?
  {
    var es := fs.dirs[d].entries;
    if Find(es, DOT).Some? {
      var i :| 0 <= i < |es| && es[i] == Find(es, DOT).value;
      assert GoodEntry(fs, d, es[i]);
    }
  }

  /** What is made inside an entered directory is made from here. */
  lemma MadeOn(r: Request, prefix: string, at: Lead, i: nat, rest: Components, s: Step)
    requires WellFormed(r.fs) && Readable(r, at.dir) && i < |r.fs.dirs[at.dir].entries| && r.recursive
    requires AllPass(r, prefix, r.fs.dirs[at.dir].entries[..i], at.links)
    requires var e := r.fs.dirs[at.dir].entries[i];
             var t := TreatAt(r, prefix + e.name, e, at.links);
             t.GoInto? && Made(r, prefix + e.name + "/", Lead(t.dir, t.links), rest, s)
    ensures Made(r, prefix, at, [r.fs.dirs[at.dir].entries[i].name] + rest, s)
  {
    hide TreatAt, AllPass, Leads, WellFormed, Sight, Join, StepOf;
    var e := r.fs.dirs[at.dir].entries[i];
    var t := TreatAt(r, prefix + e.name, e, at.links);
    var cs := [e.name] + rest;
    EntersNear(r, prefix, at, i);
    SightOn(r, at, i, Lead(t.dir, t.links), rest);
    Regrouped(prefix, e.name, Join(rest));
    assert cs[1..] == rest && OnTheWay(r, prefix, e, at.links, cs);
  }

  // ---------------------------------------------------------------- a whole listing

  /** The entry that `cs` names below the root of the listing is come to, and
      makes the step `s`. */
  ghost predicate MadeBy(r: Request, text: string, cs: Components, s: Step)
  {
    r.DirAt(text).Some? && Made(r, text, Lead(r.DirAt(text).value, []), cs, s)
  }

  /** The marks of a listing are exactly those of the entries that can be reached:
      each report has the path of its entry, as far as it goes into the buffer,
      and the kind that the links followed on the way make it. */
  lemma ListedExactly(r: Request, text: string, s: Step)
    requires WellFormed(r.fs) && EndsInSeparator(text) && |text| <= r.limit && IsMark(s)
    ensures s in WalkRoot(r, text) <==> exists cs :: MadeBy(r, text, cs, s)
  {
    hide Made, WellFormed, WalkDir, WalkFrom, Request.DirAt, Request.Cut, Within, IsMark;
    if s in WalkRoot(r, text) {
      NotAMark(s);
      var cs := ListedIsMade(r, text, s);
    }
    if cs :| MadeBy(r, text, cs, s) {
      MadeIsListed(r, text, cs, s);
    }
  }

  lemma ListedIsMade(r: Request, text: string, s: Step) returns (cs: Components)
    requires WellFormed(r.fs) && EndsInSeparator(text) && |text| <= r.limit && IsMark(s) && s in WalkRoot(r, text)
    ensures MadeBy(r, text, cs, s)
  {
    hide Made, WellFormed, WalkDir, WalkFrom, Request.DirAt, Request.Cut, Within, IsMark;
    NotAMark(s);
    var at := Lead(r.DirAt(text).value, []);
    RootWithin(r, at);
    cs := DirReaches(r, text, true, at, s);
  }

  lemma MadeIsListed(r: Request, text: string, cs: Components, s: Step)
    requires WellFormed(r.fs) && MadeBy(r, text, cs, s)
    ensures s in WalkRoot(r, text)
  {
    hide WellFormed, WalkDir, WalkFrom, Request.DirAt, Request.Cut, Within, Reaches, StepOf, Sight, Join;
    var at := Lead(r.DirAt(text).value, []);
    ReachesReads(r, text, at, cs);
    RootWithin(r, at);
    RootSteps(r, text, at);
    var t := EverythingListed(r, text, at, cs);
  }

  lemma RootWithin(r: Request, at: Lead)
    requires at.links == []
    ensures at.dir in r.fs.dirs ==> Within(r.fs, at.dir, at.links)
  {
    assert Elements([]) == {};
  }

  lemma ReachesReads(r: Request, prefix: string, at: Lead, cs: Components)
    requires Reaches(r, prefix, at, cs)
    ensures Readable(r, at.dir)
  {
  }

  lemma RootSteps(r: Request, text: string, at: Lead)
    requires WellFormed(r.fs) && r.DirAt(text) == Some(at.dir) && at.links == [] && Within(r.fs, at.dir, [])
    requires Readable(r, at.dir)
    ensures WalkRoot(r, text) == WalkFrom(r, text, at.dir, 0, [])
  {
  }

  /** Every report is about an entry that the listing came to. With links
      followed, what is reported as a link is broken or was followed on the way. */
  lemma ReportedAs(r: Request, text: string, s: Step) returns (cs: Components, e: Dirent, links: seq<FileId>)
    requires WellFormed(r.fs) && EndsInSeparator(text) && |text| <= r.limit && IsReport(s) && s in WalkRoot(r, text)
    ensures r.DirAt(text).Some? && Sight(r, Lead(r.DirAt(text).value, []), cs) == Some(Sighting(e, links))
    ensures s.path == r.Cut(text + Join(cs))
    ensures var n := r.Look(text + Join(cs), e);
            && n.Some? && s.kind == SeenAs(r, n.value, links)
            && (s.kind == AsLink ==>
                  n.value.LinkNode? && (!r.followLinks || n.value.target.Broken? || n.value.id in links))
  {
    hide WellFormed, WalkRoot, Request.DirAt, Request.Cut, Request.Look, Reaches, Sight, Join, Strays;
    cs := ListedIsMade(r, text, s);
    var at := Lead(r.DirAt(text).value, []);
    e, links := Sight(r, at, cs).value.e, Sight(r, at, cs).value.links;
  }

  // ---------------------------------------------------------------- where the walk is defined

  /** An entry of exactly PATH_MAX characters is come to and entered, and another
      directory opens in its place. */
  ghost predicate StraysAt(r: Request, text: string, cs: Components)
  {
    && r.DirAt(text).Some?
    && var at, path := Lead(r.DirAt(text).value, []), text + Join(cs);
       && Reaches(r, text, at, cs) && Sight(r, at, cs).Some?
       && Strays(r, path, Sight(r, at, cs).value.e, Sight(r, at, cs).value.links)
  }

  /** The listing never loses its way. */
  ghost predicate KeepsItsWay(r: Request, text: string) { forall cs :: !StraysAt(r, text, cs) }

  lemma StraysIsMark(r: Request, path: string, s: Sighting)
    ensures StepOf(r, path, s).kind == Astray <==> Strays(r, path, s.e, s.links)
  {
    hide Request.Lstat, Request.Open;
  }

  /** The walk is defined throughout if and only if the listing never comes to
      such an entry. */
  lemma DefinedExactly(r: Request, text: string)
    requires WellFormed(r.fs) && EndsInSeparator(text) && |text| <= r.limit
    ensures AllDefined(WalkRoot(r, text)) <==> KeepsItsWay(r, text)
  {
    hide WellFormed, WalkRoot, Request.DirAt, Request.Cut, Reaches, Sight, Join, Strays, StepOf;
    forall s | s in WalkRoot(r, text) && s.kind.Astray? ensures !KeepsItsWay(r, text) {
      var cs := ListedIsMade(r, text, s);
      StraysIsMark(r, text + Join(cs), Sight(r, Lead(r.DirAt(text).value, []), cs).value);
      assert StraysAt(r, text, cs);
    }
    forall cs | StraysAt(r, text, cs) ensures !AllDefined(WalkRoot(r, text)) {
      var at, path := Lead(r.DirAt(text).value, []), text + Join(cs);
      var s := StepOf(r, path, Sight(r, at, cs).value);
      StraysIsMark(r, path, Sight(r, at, cs).value);
      MadeIsListed(r, text, cs, s);
    }
  }

  /** Enough for that: no recursion, or no path of exactly PATH_MAX characters. */
  lemma ShortKeepsItsWay(r: Request, text: string)
    requires r.recursive && r.DirAt(text).Some? ==>
               forall cs :: Reaches(r, text, Lead(r.DirAt(text).value, []), cs) ==> |text + Join(cs)| != r.limit
    ensures KeepsItsWay(r, text)
  {
    hide Reaches, Sight, Join, Request.DirAt, Request.Look, Request.Open;
  }
}
