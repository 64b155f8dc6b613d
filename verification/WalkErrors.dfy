/** Which errors a listing meets, defined without the walk: and the errors of the
    walk are exactly those. */
module WalkErrors {
  import opened Basics
  import opened PathSpec
  import opened FileTree
  import opened WalkFrames
  import opened WalkMeaning

  /** The entry cannot be listed: its path is too long; or it exactly fills the
      buffer, and what is left of it names nothing, or is to be entered and does
      not open. */
  predicate EntryFails(r: Request, path: string, e: Dirent, links: seq<FileId>)
  {
    || |path| > r.limit
    || (&& |path| == r.limit
        && (|| r.Look(path, e).None?
            || (&& r.recursive && !IsDots(e.name) && Leads(r, r.Look(path, e).value, links).Some?
                && r.Open(r.Cut(path)).None?)))
  }

  ghost predicate FailsAt(r: Request, prefix: string, at: Lead, j: nat, shown: string)
    requires at.dir in r.fs.dirs && j < |r.fs.dirs[at.dir].entries|
  {
    var es := r.fs.dirs[at.dir].entries;
    && AllPass(r, prefix, es[..j], at.links) && EntryFails(r, prefix + es[j].name, es[j], at.links)
    && shown == r.Cut(prefix + es[j].name)
  }

  /** A directory fails: it does not open, one of its entries fails before the
      reading stops, or all are read and then the reading fails. */
  ghost predicate FailsHere(r: Request, path: string, prefix: string, at: Lead, shown: string)
  {
    if !Readable(r, at.dir) then shown == r.Cut(path)
    else
      var dir := r.fs.dirs[at.dir];
      || (exists j :: 0 <= j < |dir.entries| && FailsAt(r, prefix, at, j, shown))
      || (AllPass(r, prefix, dir.entries, at.links) && dir.faulty && shown == r.Cut(prefix))
  }

  function PrefixOf(path: string, isRoot: bool): string { if isRoot then path else path + "/" }

  /** The directory that `cs` leads to is entered, and fails. */
  ghost predicate Fails(r: Request, path: string, isRoot: bool, at: Lead, cs: Components, shown: string)
    decreases |cs|
  {
    if cs == [] then FailsHere(r, path, PrefixOf(path, isRoot), at, shown)
    else
      && Readable(r, at.dir)
      && exists j :: 0 <= j < |r.fs.dirs[at.dir].entries|
                     && FailsIn(r, PrefixOf(path, isRoot), at, j, cs, shown)
  }

  ghost predicate FailsIn(r: Request, prefix: string, at: Lead, j: nat, cs: Components, shown: string)
    requires cs != [] && at.dir in r.fs.dirs && j < |r.fs.dirs[at.dir].entries|
    decreases |cs|, 0
  {
    var e := r.fs.dirs[at.dir].entries[j];
    && AllPass(r, prefix, r.fs.dirs[at.dir].entries[..j], at.links)
    && e.name == cs[0] && !IsDots(e.name) && r.recursive && |prefix + e.name| < r.limit
    && Leads(r, e.node, at.links).Some?
    && Fails(r, prefix + e.name, false, Leads(r, e.node, at.links).value, cs[1..], shown)
  }

  // ---------------------------------------------------------------- entries

  lemma EntryFailsExactly(r: Request, path: string, e: Dirent, links: seq<FileId>)
    ensures var t := TreatAt(r, path, e, links);
            EntryFails(r, path, e, links) <==> KindOf(t) == AsError || t.Blocked?
  {
    hide Request.Lstat, Request.Open;
  }

  lemma BlockedInside(r: Request, prefix: string, at: Lead, j: nat)
    requires WellFormed(r.fs) && Within(r.fs, at.dir, at.links) && j < |r.fs.dirs[at.dir].entries|
    requires var e := r.fs.dirs[at.dir].entries[j]; TreatAt(r, prefix + e.name, e, at.links).Blocked?
    ensures var path := prefix + r.fs.dirs[at.dir].entries[j].name;
            Step(AsError, r.Cut(path)) in Inside(r, prefix, at.dir, j, at.links)
  {
    hide TreatAt, WellFormed, Within, Request.Cut;
  }

  /** An entry that fails has an error step. */
  lemma FailureWith(r: Request, prefix: string, at: Lead, j: nat)
    requires WellFormed(r.fs) && Within(r.fs, at.dir, at.links) && j < |r.fs.dirs[at.dir].entries|
    requires var e := r.fs.dirs[at.dir].entries[j]; EntryFails(r, prefix + e.name, e, at.links)
    ensures WithEntry(r, prefix, at, j, Step(AsError, r.Cut(prefix + r.fs.dirs[at.dir].entries[j].name)))
  {
    var e := r.fs.dirs[at.dir].entries[j];
    hide TreatAt, WellFormed, Within, Request.Cut, Inside, EntryFails, Passes, WalkFrom;
    var t := TreatAt(r, prefix + e.name, e, at.links);
    EntryFailsExactly(r, prefix + e.name, e, at.links);
    if t.Blocked? {
      PassesExactly(r, prefix + e.name, e, at.links);
      BlockedInside(r, prefix, at, j);
    }
  }

  // ---------------------------------------------------------------- no failure is missed

  lemma InWalk(r: Request, prefix: string, at: Lead, j: nat, s: Step)
    requires WellFormed(r.fs) && Within(r.fs, at.dir, at.links) && j < |r.fs.dirs[at.dir].entries|
    requires AllPass(r, prefix, r.fs.dirs[at.dir].entries[..j], at.links) && WithEntry(r, prefix, at, j, s)
    ensures s in WalkFrom(r, prefix, at.dir, 0, at.links)
  {
    hide WalkFrom, WellFormed, Within, AllPass, WithEntry;
    WithEntryIn(r, prefix, at, j, s);
    var before := WalkSuffix(r, prefix, at, 0, j);
  }

  lemma FailureHere(r: Request, path: string, isRoot: bool, at: Lead, shown: string)
    requires WellFormed(r.fs) && Within(r.fs, at.dir, at.links)
    requires FailsHere(r, path, PrefixOf(path, isRoot), at, shown)
    ensures Step(AsError, shown) in WalkDir(r, path, isRoot, at.dir, at.links)
  {
    var prefix, dir := PrefixOf(path, isRoot), r.fs.dirs[at.dir];
    hide WalkFrom, WellFormed, Within, AllPass, Request.Cut, EntryFails, WithEntry, LinksLeft;
    if Readable(r, at.dir) {
      if j :| 0 <= j < |dir.entries| && FailsAt(r, prefix, at, j, shown) {
        FailureWith(r, prefix, at, j);
        InWalk(r, prefix, at, j, Step(AsError, shown));
      } else {
        assert dir.entries[..|dir.entries|] == dir.entries;
        var before := WalkSuffix(r, prefix, at, 0, |dir.entries|);
        FaultAtEnd(r, prefix, at);
      }
    }
  }

  lemma FaultAtEnd(r: Request, prefix: string, at: Lead)
    requires WellFormed(r.fs) && Within(r.fs, at.dir, at.links)
    ensures var s := Step(AsError, r.Cut(prefix));
            s in WalkFrom(r, prefix, at.dir, |r.fs.dirs[at.dir].entries|, at.links) <==> r.fs.dirs[at.dir].faulty
  {
    hide WellFormed, Within, Request.Cut, LinksLeft;
  }

  /** Inside a directory that is entered is its walk. */
  lemma EnteredInside(r: Request, prefix: string, at: Lead, j: nat)
    requires WellFormed(r.fs) && Within(r.fs, at.dir, at.links) && j < |r.fs.dirs[at.dir].entries| && r.recursive
    requires var e := r.fs.dirs[at.dir].entries[j];
             !IsDots(e.name) && |prefix + e.name| < r.limit && Leads(r, e.node, at.links).Some?
    ensures var e := r.fs.dirs[at.dir].entries[j];
            var sub := Leads(r, e.node, at.links).value;
            && Within(r.fs, sub.dir, sub.links) && Passes(r, prefix + e.name, e, at.links)
            && Inside(r, prefix, at.dir, j, at.links) == WalkDir(r, prefix + e.name, false, sub.dir, sub.links)
  {
    var e := r.fs.dirs[at.dir].entries[j];
    TreatsEntry(r, prefix + e.name, e, at.links);
    GoIntoNear(r, prefix + e.name, e, at.links);
    GoIntoDescends(r, at.dir, j, at.links);
    ShortPasses(r, prefix + e.name, e, at.links);
    hide WellFormed, Within, TreatAt, Treat, LinksLeft, WalkDir, Leads, Passes;
  }

  lemma {:induction false} FailureIsListed(r: Request, path: string, isRoot: bool, at: Lead, cs: Components,
                                           shown: string)
    requires WellFormed(r.fs) && Within(r.fs, at.dir, at.links) && Fails(r, path, isRoot, at, cs, shown)
    ensures Step(AsError, shown) in WalkDir(r, path, isRoot, at.dir, at.links)
    decreases |cs|
  {
    hide WalkFrom, WellFormed, Within, AllPass, Leads, LinksLeft, FailsHere, Inside, Passes, TreatAt, KindOf;
    if cs == [] {
      FailureHere(r, path, isRoot, at, shown);
    } else {
      var prefix, es := PrefixOf(path, isRoot), r.fs.dirs[at.dir].entries;
      var j :| 0 <= j < |es| && FailsIn(r, prefix, at, j, cs, shown);
      EnteredInside(r, prefix, at, j);
      FailureIsListed(r, prefix + es[j].name, false, Leads(r, es[j].node, at.links).value, cs[1..], shown);
      InWalk(r, prefix, at, j, Step(AsError, shown));
    }
  }

  // ---------------------------------------------------------------- and there is no other

  lemma {:induction false} DirFails(r: Request, path: string, isRoot: bool, at: Lead, shown: string)
    returns (cs: Components)
    requires WellFormed(r.fs) && Within(r.fs, at.dir, at.links) && IsPrefix(r, PrefixOf(path, isRoot), at.dir)
    requires Step(AsError, shown) in WalkDir(r, path, isRoot, at.dir, at.links)
    ensures Fails(r, path, isRoot, at, cs, shown)
    decreases LinksLeft(r.fs, at.links), r.fs.height[at.dir], 1, 0
  {
    hide IsPrefix, WalkFrom, Fails, Passes;
    if r.fs.dirs[at.dir].readable {
      cs := FromFails(r, path, isRoot, at, 0, shown);
    } else {
      cs := [];
      UnreadableFails(r, path, isRoot, at, shown);
    }
  }

  lemma UnreadableFails(r: Request, path: string, isRoot: bool, at: Lead, shown: string)
    requires WellFormed(r.fs) && Within(r.fs, at.dir, at.links) && !r.fs.dirs[at.dir].readable
    requires Step(AsError, shown) in WalkDir(r, path, isRoot, at.dir, at.links)
    ensures Fails(r, path, isRoot, at, [], shown)
  {
  }

  lemma {:induction false} FromFails(r: Request, path: string, isRoot: bool, at: Lead, i: nat, shown: string)
    returns (cs: Components)
    requires WellFormed(r.fs) && Within(r.fs, at.dir, at.links) && i <= |r.fs.dirs[at.dir].entries|
    requires AllPass(r, PrefixOf(path, isRoot), r.fs.dirs[at.dir].entries[..i], at.links)
    requires IsPrefix(r, PrefixOf(path, isRoot), at.dir) && r.fs.dirs[at.dir].readable
    requires Step(AsError, shown) in WalkFrom(r, PrefixOf(path, isRoot), at.dir, i, at.links)
    ensures Fails(r, path, isRoot, at, cs, shown)
    decreases LinksLeft(r.fs, at.links), r.fs.height[at.dir], 0, |r.fs.dirs[at.dir].entries| - i
  {
    hide WalkFrom, WalkDir, TreatAt, LinksLeft, AllPass, Request.Cut, Passes, KindOf, GoodEntry, DistinctNames,
         Links, Elements, IsPrefix, Fails, EntryFails, PrefixOf;
    var prefix, es, s := PrefixOf(path, isRoot), r.fs.dirs[at.dir].entries, Step(AsError, shown);
    if i == |es| {
      cs := [];
      EndFails(r, path, isRoot, at, shown);
    } else {
      var e := es[i];
      var t := TreatAt(r, prefix + e.name, e, at.links);
      WalkFromParts(r, prefix, at.dir, i, at.links, s);
      PassesExactly(r, prefix + e.name, e, at.links);
      EntryFailsExactly(r, prefix + e.name, e, at.links);
      if GoesOn(t) && s in WalkFrom(r, prefix, at.dir, i + 1, at.links) {
        MorePass(r, prefix, es, at.links, i);
        cs := FromFails(r, path, isRoot, at, i + 1, shown);
      } else if shown == r.Cut(prefix + e.name) && (KindOf(t) == AsError || t.Blocked?) {
        cs := [];
        EntryIsFailure(r, path, isRoot, at, i, shown);
      } else {
        EntryEnters(r, prefix, at.dir, i, at.links);
        EntersNear(r, prefix, at, i);
        PrefixBelow(prefix + e.name);
        var rest := DirFails(r, prefix + e.name, false, Lead(t.dir, t.links), shown);
        cs := [e.name] + rest;
        FailureBelow(r, path, isRoot, at, i, rest, shown);
      }
    }
  }

  lemma PrefixBelow(path: string)
    ensures PrefixOf(path, false) == path + "/"
  {
  }

  lemma EndFails(r: Request, path: string, isRoot: bool, at: Lead, shown: string)
    requires WellFormed(r.fs) && Within(r.fs, at.dir, at.links) && Readable(r, at.dir)
    requires var es := r.fs.dirs[at.dir].entries; AllPass(r, PrefixOf(path, isRoot), es[..|es|], at.links)
    requires Step(AsError, shown) in
               WalkFrom(r, PrefixOf(path, isRoot), at.dir, |r.fs.dirs[at.dir].entries|, at.links)
    ensures Fails(r, path, isRoot, at, [], shown)
  {
    hide WellFormed, Within, AllPass, Request.Cut, LinksLeft, EntryFails;
    var es := r.fs.dirs[at.dir].entries;
    assert es[..|es|] == es;
  }

  lemma EntryIsFailure(r: Request, path: string, isRoot: bool, at: Lead, i: nat, shown: string)
    requires Readable(r, at.dir) && i < |r.fs.dirs[at.dir].entries|
    requires FailsAt(r, PrefixOf(path, isRoot), at, i, shown)
    ensures Fails(r, path, isRoot, at, [], shown)
  {
    hide FailsAt, AllPass, PrefixOf;
  }

  lemma FailureBelow(r: Request, path: string, isRoot: bool, at: Lead, i: nat, rest: Components, shown: string)
    requires Readable(r, at.dir) && i < |r.fs.dirs[at.dir].entries|
    requires var prefix, es := PrefixOf(path, isRoot), r.fs.dirs[at.dir].entries;
             && AllPass(r, prefix, es[..i], at.links) && !IsDots(es[i].name) && r.recursive
             && |prefix + es[i].name| < r.limit && Leads(r, es[i].node, at.links).Some?
             && Fails(r, prefix + es[i].name, false, Leads(r, es[i].node, at.links).value, rest, shown)
    ensures Fails(r, path, isRoot, at, [r.fs.dirs[at.dir].entries[i].name] + rest, shown)
  {
    hide AllPass, Leads, PrefixOf;
    var cs := [r.fs.dirs[at.dir].entries[i].name] + rest;
    assert cs[1..] == rest;
    assert FailsIn(r, PrefixOf(path, isRoot), at, i, cs, shown);
  }

  // ---------------------------------------------------------------- a whole listing

  /** The root of the listing is not there, or a directory that is entered fails. */
  ghost predicate ErrorAt(r: Request, text: string, shown: string)
  {
    if r.DirAt(text).None? then shown == r.Cut(text)
    else exists cs :: Fails(r, text, true, Lead(r.DirAt(text).value, []), cs, shown)
  }

  /** The errors of a listing are exactly those of the directories that it enters:
      that the root is not there; that a directory does not open; that an entry's
      path does not fit, is not found when cut or does not open when cut; and that
      the reading of a directory fails at its end. */
  lemma ErrorsExactly(r: Request, text: string, shown: string)
    requires WellFormed(r.fs) && EndsInSeparator(text) && |text| <= r.limit
    ensures Step(AsError, shown) in WalkRoot(r, text) <==> ErrorAt(r, text, shown)
  {
    hide WellFormed, WalkDir, Request.DirAt, Fails, Within, Request.Cut;
    if r.DirAt(text).Some? {
      var at := Lead(r.DirAt(text).value, []);
      RootWithin(r, at);
      if at.dir !in r.fs.dirs {
        NoRootFails(r, text, at, shown);
      } else {
        assert IsPrefix(r, PrefixOf(text, true), at.dir);
        if Step(AsError, shown) in WalkRoot(r, text) {
          var cs := DirFails(r, text, true, at, shown);
        }
        if cs :| Fails(r, text, true, at, cs, shown) {
          FailureIsListed(r, text, true, at, cs, shown);
        }
      }
    }
  }

  lemma NoRootFails(r: Request, text: string, at: Lead, shown: string)
    requires at.dir !in r.fs.dirs && r.DirAt(text) == Some(at.dir) && at.links == []
    ensures ErrorAt(r, text, shown) <==> shown == r.Cut(text)
  {
    if shown == r.Cut(text) { assert Fails(r, text, true, at, [], shown); }
  }
}
