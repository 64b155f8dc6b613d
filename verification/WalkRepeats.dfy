/** A listing reports a path twice exactly when two entries that it comes to have
    paths that are the same as far as they go into the buffer. */
module WalkRepeats {
  import opened Basics
  import opened PathSpec
  import opened FileTree
  import opened WalkFrames
  import opened WalkMeaning
  import opened WalkTruth

  /** Two reports of the path `shown`. */
  ghost predicate SamePath(s: Step, t: Step, shown: string)
  {
    IsReport(s) && IsReport(t) && s.path == shown && t.path == shown
  }

  /** The path is reported twice. */
  ghost predicate Repeats(w: seq<Step>, shown: string)
  {
    exists i, j :: 0 <= i < j < |w| && SamePath(w[i], w[j], shown)
  }

  lemma RepeatsIn(before: seq<Step>, w: seq<Step>, after: seq<Step>, shown: string)
    requires Repeats(w, shown)
    ensures Repeats(before + w + after, shown)
  {
    hide SamePath;
    var i, j :| 0 <= i < j < |w| && SamePath(w[i], w[j], shown);
    var all := before + w + after;
    assert all[|before| + i] == w[i] && all[|before| + j] == w[j];
  }

  lemma RepeatsAcross(a: seq<Step>, b: seq<Step>, s: Step, t: Step, shown: string)
    requires s in a && t in b && SamePath(s, t, shown)
    ensures Repeats(a + b, shown)
  {
    hide SamePath;
    var i :| 0 <= i < |a| && a[i] == s;
    var j :| 0 <= j < |b| && b[j] == t;
    assert (a + b)[i] == s && (a + b)[|a| + j] == t;
  }

  lemma RepeatsSplit(a: seq<Step>, b: seq<Step>, shown: string) returns (s: Step, t: Step)
    requires Repeats(a + b, shown)
    ensures Repeats(a, shown) || Repeats(b, shown) || (s in a && t in b && SamePath(s, t, shown))
  {
    hide SamePath;
    var w := a + b;
    var i, j :| 0 <= i < j < |w| && SamePath(w[i], w[j], shown);
    s, t := w[i], w[j];
    if j < |a| {
      assert a[i] == w[i] && a[j] == w[j];
    } else if i >= |a| {
      assert b[i - |a|] == w[i] && b[j - |a|] == w[j];
    }
  }

  // ---------------------------------------------------------------- two entries

  /** The entry that `cs` names from `at` is come to and reported. */
  ghost predicate Reported(r: Request, prefix: string, at: Lead, cs: Components)
  {
    && Reaches(r, prefix, at, cs) && Sight(r, at, cs).Some?
    && IsReport(StepOf(r, prefix + Join(cs), Sight(r, at, cs).value))
  }

  /** Two entries reported, of whose paths the buffer holds the same. */
  ghost predicate Clash(r: Request, prefix: string, at: Lead, cs: Components, ds: Components, shown: string)
  {
    && cs != ds && Reported(r, prefix, at, cs) && Reported(r, prefix, at, ds)
    && r.Cut(prefix + Join(cs)) == shown && r.Cut(prefix + Join(ds)) == shown
  }

  lemma MadeClash(r: Request, prefix: string, at: Lead, cs: Components, ds: Components, s: Step, t: Step,
                  shown: string)
    requires cs != ds && Made(r, prefix, at, cs, s) && Made(r, prefix, at, ds, t) && SamePath(s, t, shown)
    ensures Clash(r, prefix, at, cs, ds, shown)
  {
    hide Reaches, Sight, Join, MarkOf, Request.Cut;
  }

  lemma ReportedIsMade(r: Request, prefix: string, at: Lead, cs: Components) returns (s: Step)
    requires Reported(r, prefix, at, cs)
    ensures Made(r, prefix, at, cs, s) && IsReport(s) && s.path == r.Cut(prefix + Join(cs))
  {
    hide Reaches, Sight, Join, MarkOf, Request.Cut;
    s := StepOf(r, prefix + Join(cs), Sight(r, at, cs).value);
  }

  // ---------------------------------------------------------------- repeats come from two entries

  lemma InsideMade(r: Request, prefix: string, at: Lead, i: nat, s: Step) returns (rest: Components)
    requires WellFormed(r.fs) && Within(r.fs, at.dir, at.links) && Readable(r, at.dir) && IsPrefix(r, prefix, at.dir)
    requires i < |r.fs.dirs[at.dir].entries| && AllPass(r, prefix, r.fs.dirs[at.dir].entries[..i], at.links)
    requires IsReport(s) && s in Inside(r, prefix, at.dir, i, at.links)
    ensures rest != [] && Made(r, prefix, at, [r.fs.dirs[at.dir].entries[i].name] + rest, s)
  {
    hide TreatAt, WellFormed, Within, WalkDir, LinksLeft, IsPrefix, Made, AllPass, Request.Cut;
    var e := r.fs.dirs[at.dir].entries[i];
    var t := InsideEnters(r, prefix, at, i, s);
    rest := DirReaches(r, prefix + e.name, false, Lead(t.dir, t.links), s);
    MadeSome(r, prefix + e.name + "/", Lead(t.dir, t.links), rest, s);
    MadeOn(r, prefix, at, i, rest, s);
  }

  lemma MadeSome(r: Request, prefix: string, at: Lead, cs: Components, s: Step)
    requires Made(r, prefix, at, cs, s)
    ensures cs != []
  {
  }

  /** A report inside an entry is inside a directory that is entered. */
  lemma InsideEnters(r: Request, prefix: string, at: Lead, i: nat, s: Step) returns (t: Treatment)
    requires WellFormed(r.fs) && Within(r.fs, at.dir, at.links) && i < |r.fs.dirs[at.dir].entries|
    requires IsPrefix(r, prefix, at.dir) && IsReport(s) && s in Inside(r, prefix, at.dir, i, at.links)
    ensures var e := r.fs.dirs[at.dir].entries[i];
            && t == TreatAt(r, prefix + e.name, e, at.links) && t.GoInto? && r.recursive
            && Within(r.fs, t.dir, t.links) && IsPrefix(r, prefix + e.name + "/", t.dir)
            && Inside(r, prefix, at.dir, i, at.links) == WalkDir(r, prefix + e.name, false, t.dir, t.links)
            && r.fs.height.Keys == r.fs.dirs.Keys
            && (LinksLeft(r.fs, t.links) < LinksLeft(r.fs, at.links)
                || (t.links == at.links && r.fs.height[t.dir] < r.fs.height[at.dir]))
  {
    var e := r.fs.dirs[at.dir].entries[i];
    t := TreatAt(r, prefix + e.name, e, at.links);
    if t.GoInto? && r.recursive {
      EntersNear(r, prefix, at, i);
      GoIntoDescends(r, at.dir, i, at.links);
    }
    EntryEnters(r, prefix, at.dir, i, at.links);
    hide TreatAt, Treat, WalkDir, LinksLeft, IsPrefix, GoodEntry, DistinctNames, Links, Request.Cut, Request.DirAt;
  }

  lemma {:induction false} DirClash(r: Request, path: string, isRoot: bool, at: Lead, shown: string)
    returns (cs: Components, ds: Components)
    requires WellFormed(r.fs) && Within(r.fs, at.dir, at.links)
    requires IsPrefix(r, if isRoot then path else path + "/", at.dir)
    requires Repeats(WalkDir(r, path, isRoot, at.dir, at.links), shown)
    ensures Clash(r, if isRoot then path else path + "/", at, cs, ds, shown)
    decreases LinksLeft(r.fs, at.links), r.fs.height[at.dir], 1, 0
  {
    hide Clash, IsPrefix, LinksLeft;
    cs, ds := FromClash(r, if isRoot then path else path + "/", at, 0, shown);
  }

  lemma {:induction false} FromClash(r: Request, prefix: string, at: Lead, i: nat, shown: string)
    returns (cs: Components, ds: Components)
    requires WellFormed(r.fs) && Within(r.fs, at.dir, at.links) && i <= |r.fs.dirs[at.dir].entries|
    requires AllPass(r, prefix, r.fs.dirs[at.dir].entries[..i], at.links) && IsPrefix(r, prefix, at.dir)
    requires r.fs.dirs[at.dir].readable && Repeats(WalkFrom(r, prefix, at.dir, i, at.links), shown)
    ensures Clash(r, prefix, at, cs, ds, shown)
    decreases LinksLeft(r.fs, at.links), r.fs.height[at.dir], 0, |r.fs.dirs[at.dir].entries| - i
  {
    hide WalkFrom, WalkDir, TreatAt, Made, LinksLeft, AllPass, Request.Cut, Passes, KindOf, Repeats, Clash, Inside,
         GoodEntry, DistinctNames, Links, Elements, IsPrefix, SamePath;
    var es := r.fs.dirs[at.dir].entries;
    if i == |es| {
      EndRepeats(r, prefix, at, shown);
    } else {
      var e := es[i];
      Parts(r, prefix, at, i);
      var text, kind := r.Cut(prefix + e.name), KindOf(TreatAt(r, prefix + e.name, e, at.links));
      if !Passes(r, prefix + e.name, e, at.links) {
        LastRepeats(kind, text, shown);
      } else {
        MorePass(r, prefix, es, at.links, i);
        var inside, rest := Inside(r, prefix, at.dir, i, at.links), WalkFrom(r, prefix, at.dir, i + 1, at.links);
        var s, t := RepeatsSplit([Step(kind, text)], inside + rest, shown);
        OneRepeats(Step(kind, text), shown);
        if Repeats(inside + rest, shown) {
          s, t := RepeatsSplit(inside, rest, shown);
          if Repeats(inside, shown) {
            cs, ds := InsideClash(r, prefix, at, i, shown);
          } else if Repeats(rest, shown) {
            cs, ds := FromClash(r, prefix, at, i + 1, shown);
          } else {
            cs, ds := ApartClash(r, prefix, at, i, s, t, shown);
          }
        } else {
          cs, ds := FirstClash(r, prefix, at, i, s, t, shown);
        }
      }
    }
  }

  lemma EndRepeats(r: Request, prefix: string, at: Lead, shown: string)
    requires WellFormed(r.fs) && Within(r.fs, at.dir, at.links)
    ensures !Repeats(WalkFrom(r, prefix, at.dir, |r.fs.dirs[at.dir].entries|, at.links), shown)
  {
    hide Request.Cut;
  }

  lemma LastRepeats(kind: StepKind, text: string, shown: string)
    ensures !Repeats([Step(kind, text), Step(Pop, text)], shown)
  {
  }

  lemma OneRepeats(s: Step, shown: string)
    ensures !Repeats([s], shown)
  {
  }

  lemma {:induction false} InsideClash(r: Request, prefix: string, at: Lead, i: nat, shown: string)
    returns (cs: Components, ds: Components)
    requires WellFormed(r.fs) && Within(r.fs, at.dir, at.links) && Readable(r, at.dir) && IsPrefix(r, prefix, at.dir)
    requires i < |r.fs.dirs[at.dir].entries| && AllPass(r, prefix, r.fs.dirs[at.dir].entries[..i], at.links)
    requires Repeats(Inside(r, prefix, at.dir, i, at.links), shown)
    ensures Clash(r, prefix, at, cs, ds, shown)
    decreases LinksLeft(r.fs, at.links), r.fs.height[at.dir], 0, |r.fs.dirs[at.dir].entries| - i, 0
  {
    hide WalkDir, TreatAt, Made, LinksLeft, AllPass, Request.Cut, Clash, Inside, GoodEntry, DistinctNames, Links,
         Elements, IsPrefix, Repeats, IsReport;
    var e := r.fs.dirs[at.dir].entries[i];
    var s := SomeReport(Inside(r, prefix, at.dir, i, at.links), shown);
    var t := InsideEnters(r, prefix, at, i, s);
    var sub := Lead(t.dir, t.links);
    var cs', ds' := DirClash(r, prefix + e.name, false, sub, shown);
    cs, ds := [e.name] + cs', [e.name] + ds';
    ClashOn(r, prefix, at, i, sub, cs', ds', shown);
  }

  lemma SomeReport(w: seq<Step>, shown: string) returns (s: Step)
    requires Repeats(w, shown)
    ensures s in w && IsReport(s)
  {
    var i, j :| 0 <= i < j < |w| && SamePath(w[i], w[j], shown);
    s := w[i];
  }

  lemma ClashOn(r: Request, prefix: string, at: Lead, i: nat, sub: Lead, cs: Components, ds: Components, shown: string)
    requires WellFormed(r.fs) && Readable(r, at.dir) && i < |r.fs.dirs[at.dir].entries| && r.recursive
    requires AllPass(r, prefix, r.fs.dirs[at.dir].entries[..i], at.links)
    requires var e := r.fs.dirs[at.dir].entries[i];
             && TreatAt(r, prefix + e.name, e, at.links) == GoInto(sub.dir, sub.links)
             && Clash(r, prefix + e.name + "/", sub, cs, ds, shown)
    ensures var e := r.fs.dirs[at.dir].entries[i]; Clash(r, prefix, at, [e.name] + cs, [e.name] + ds, shown)
  {
    hide WellFormed, AllPass, TreatAt, Reported, Made, Request.Cut, Join;
    var e := r.fs.dirs[at.dir].entries[i];
    var s := ReportedIsMade(r, prefix + e.name + "/", sub, cs);
    var t := ReportedIsMade(r, prefix + e.name + "/", sub, ds);
    MadeOn(r, prefix, at, i, cs, s);
    MadeOn(r, prefix, at, i, ds, t);
    assert ([e.name] + cs)[1..] == cs && ([e.name] + ds)[1..] == ds;
    MadeClash(r, prefix, at, [e.name] + cs, [e.name] + ds, s, t, shown);
  }

  /** A report inside an entry, and one of a later entry. */
  lemma ApartClash(r: Request, prefix: string, at: Lead, i: nat, s: Step, t: Step, shown: string)
    returns (cs: Components, ds: Components)
    requires WellFormed(r.fs) && Within(r.fs, at.dir, at.links) && Readable(r, at.dir) && IsPrefix(r, prefix, at.dir)
    requires i < |r.fs.dirs[at.dir].entries| && AllPass(r, prefix, r.fs.dirs[at.dir].entries[..i], at.links)
    requires AllPass(r, prefix, r.fs.dirs[at.dir].entries[..i + 1], at.links) && SamePath(s, t, shown)
    requires s in Inside(r, prefix, at.dir, i, at.links) && t in WalkFrom(r, prefix, at.dir, i + 1, at.links)
    ensures Clash(r, prefix, at, cs, ds, shown)
  {
    hide WellFormed, Within, AllPass, Inside, WalkFrom, Made, Clash, IsPrefix;
    var k;
    cs := InsideMade(r, prefix, at, i, s);
    cs := [r.fs.dirs[at.dir].entries[i].name] + cs;
    ds, k := FromReaches(r, prefix, at, i + 1, t);
    if cs == ds { SameEntry(r.fs, at.dir, i, k); }
    MadeClash(r, prefix, at, cs, ds, s, t, shown);
  }

  /** The report of an entry, and one inside it or of a later entry. */
  lemma FirstClash(r: Request, prefix: string, at: Lead, i: nat, s: Step, t: Step, shown: string)
    returns (cs: Components, ds: Components)
    requires WellFormed(r.fs) && Within(r.fs, at.dir, at.links) && Readable(r, at.dir) && IsPrefix(r, prefix, at.dir)
    requires i < |r.fs.dirs[at.dir].entries| && AllPass(r, prefix, r.fs.dirs[at.dir].entries[..i], at.links)
    requires AllPass(r, prefix, r.fs.dirs[at.dir].entries[..i + 1], at.links) && SamePath(s, t, shown)
    requires var e := r.fs.dirs[at.dir].entries[i];
             s in [Step(KindOf(TreatAt(r, prefix + e.name, e, at.links)), r.Cut(prefix + e.name))]
    requires t in Inside(r, prefix, at.dir, i, at.links) + WalkFrom(r, prefix, at.dir, i + 1, at.links)
    ensures Clash(r, prefix, at, cs, ds, shown)
  {
    hide WellFormed, Within, AllPass, Inside, WalkFrom, Made, Clash, IsPrefix, TreatAt, KindOf, Request.Cut;
    var e := r.fs.dirs[at.dir].entries[i];
    cs := [e.name];
    MarkIsMade(r, prefix, at, i, s);
    if t in Inside(r, prefix, at.dir, i, at.links) {
      var rest := InsideMade(r, prefix, at, i, t);
      ds := [e.name] + rest;
      assert |ds| > |cs|;
    } else {
      var k;
      ds, k := FromReaches(r, prefix, at, i + 1, t);
      if cs == ds { SameEntry(r.fs, at.dir, i, k); }
    }
    MadeClash(r, prefix, at, cs, ds, s, t, shown);
  }

  // ---------------------------------------------------------------- two entries make a repeat

  lemma {:induction false} ClashRepeats(r: Request, prefix: string, at: Lead, cs: Components, ds: Components,
                                        shown: string)
    requires WellFormed(r.fs) && Within(r.fs, at.dir, at.links) && Clash(r, prefix, at, cs, ds, shown)
    ensures Repeats(WalkFrom(r, prefix, at.dir, 0, at.links), shown)
    decreases |cs|
  {
    hide WellFormed, Within, Reaches, WalkFrom, Repeats, AllPass, Leads, Request.Cut, Sight, Join, MarkOf;
    var j := NextOnTheWay(r, prefix, at, cs);
    var k := NextOnTheWay(r, prefix, at, ds);
    var m := if j <= k then j else k;
    if j == k {
      TailsRepeat(r, prefix, at, cs, ds, j, shown);
    } else if j < k {
      HeadsRepeat(r, prefix, at, cs, ds, j, k, shown);
    } else {
      HeadsRepeat(r, prefix, at, ds, cs, k, j, shown);
    }
    var before := WalkSuffix(r, prefix, at, 0, m);
    var w := WalkFrom(r, prefix, at.dir, m, at.links);
    RepeatsIn(before, w, [], shown);
    assert before + w + [] == before + w;
  }

  /** Below different entries. */
  lemma HeadsRepeat(r: Request, prefix: string, at: Lead, cs: Components, ds: Components, j: nat, k: nat, shown: string)
    requires WellFormed(r.fs) && Within(r.fs, at.dir, at.links) && Clash(r, prefix, at, cs, ds, shown)
    requires cs != [] && ds != [] && Readable(r, at.dir) && j < k < |r.fs.dirs[at.dir].entries|
    requires AllPass(r, prefix, r.fs.dirs[at.dir].entries[..k], at.links)
    requires r.fs.dirs[at.dir].entries[j].name == cs[0] && r.fs.dirs[at.dir].entries[k].name == ds[0]
    ensures Repeats(WalkFrom(r, prefix, at.dir, j, at.links), shown)
  {
    hide WellFormed, Within, Reaches, WalkFrom, Repeats, AllPass, Passes, Inside, WithEntry, Made, TreatAt, KindOf,
         Request.Cut, Sight, Join, MarkOf;
    var s := ReportedWith(r, prefix, at, cs, j);
    var t := ReportedWith(r, prefix, at, ds, k);
    WithEntryIn(r, prefix, at, k, t);
    var before := WalkSuffix(r, prefix, at, j + 1, k);
    WithinEntry(r, prefix, at, j, k, s, t, shown);
  }

  lemma ReportedWith(r: Request, prefix: string, at: Lead, cs: Components, j: nat) returns (s: Step)
    requires WellFormed(r.fs) && Within(r.fs, at.dir, at.links) && Reported(r, prefix, at, cs) && cs != []
    requires Readable(r, at.dir) && j < |r.fs.dirs[at.dir].entries| && r.fs.dirs[at.dir].entries[j].name == cs[0]
    ensures WithEntry(r, prefix, at, j, s) && IsReport(s) && s.path == r.Cut(prefix + Join(cs))
  {
    hide WellFormed, Within, Reaches, WithEntry, Sight, Join, MarkOf, Request.Cut;
    s := ReachedWith(r, prefix, at, cs, j);
  }

  lemma WithinEntry(r: Request, prefix: string, at: Lead, j: nat, k: nat, s: Step, t: Step, shown: string)
    requires WellFormed(r.fs) && Within(r.fs, at.dir, at.links) && j < k <= |r.fs.dirs[at.dir].entries|
    requires AllPass(r, prefix, r.fs.dirs[at.dir].entries[..k], at.links)
    requires WithEntry(r, prefix, at, j, s) && t in WalkFrom(r, prefix, at.dir, j + 1, at.links)
    requires SamePath(s, t, shown)
    ensures Repeats(WalkFrom(r, prefix, at.dir, j, at.links), shown)
  {
    var e := r.fs.dirs[at.dir].entries[j];
    hide WellFormed, Within, WalkFrom, Repeats, AllPass, Passes, Inside, TreatAt, KindOf, Request.Cut, SamePath;
    PassAt(r, prefix, r.fs.dirs[at.dir].entries, at.links, j, k);
    Parts(r, prefix, at, j);
    var first := [Step(KindOf(TreatAt(r, prefix + e.name, e, at.links)), r.Cut(prefix + e.name))];
    var inside, rest := Inside(r, prefix, at.dir, j, at.links), WalkFrom(r, prefix, at.dir, j + 1, at.links);
    Regroup(first, inside, rest);
    assert s in first + inside;
    RepeatsAcross(first + inside, rest, s, t, shown);
  }

  /** Below the same entry. */
  lemma {:induction false} TailsRepeat(r: Request, prefix: string, at: Lead, cs: Components, ds: Components,
                                       j: nat, shown: string)
    requires WellFormed(r.fs) && Within(r.fs, at.dir, at.links) && Clash(r, prefix, at, cs, ds, shown)
    requires cs != [] && ds != [] && Readable(r, at.dir) && j < |r.fs.dirs[at.dir].entries|
    requires AllPass(r, prefix, r.fs.dirs[at.dir].entries[..j], at.links)
    requires r.fs.dirs[at.dir].entries[j].name == cs[0] == ds[0]
    ensures Repeats(WalkFrom(r, prefix, at.dir, j, at.links), shown)
    decreases |cs|, 0
  {
    hide WellFormed, Within, Reaches, WalkFrom, Repeats, AllPass, Leads, Request.Cut, Sight, Join, Clash, TreatAt,
         KindOf, Passes, Inside, IsDots;
    var e := r.fs.dirs[at.dir].entries[j];
    BothDeeper(r, prefix, at, cs, ds, shown);
    var sub := TailsClash(r, prefix, at, cs, ds, j, shown);
    TreatsEntry(r, prefix + e.name, e, at.links);
    InsideWalk(r, prefix, at, j, sub);
    ClashRepeats(r, prefix + e.name + "/", sub, cs[1..], ds[1..], shown);
    ShortPasses(r, prefix + e.name, e, at.links);
    Parts(r, prefix, at, j);
    var first := [Step(KindOf(TreatAt(r, prefix + e.name, e, at.links)), r.Cut(prefix + e.name))];
    var inside, rest := Inside(r, prefix, at.dir, j, at.links), WalkFrom(r, prefix, at.dir, j + 1, at.links);
    Regroup(first, inside, rest);
    RepeatsIn(first, inside, rest, shown);
  }

  /** An entry and something below it do not have the same path, even cut. */
  lemma BothDeeper(r: Request, prefix: string, at: Lead, cs: Components, ds: Components, shown: string)
    requires WellFormed(r.fs) && Clash(r, prefix, at, cs, ds, shown) && cs != [] && ds != [] && cs[0] == ds[0]
    ensures |cs| > 1 && |ds| > 1
  {
    hide WellFormed, Reaches, Sight, Join, MarkOf, Request.Cut;
    if |cs| == 1 {
      Deeper(r, prefix, at, cs, ds);
    } else if |ds| == 1 {
      Deeper(r, prefix, at, ds, cs);
    }
  }

  lemma Deeper(r: Request, prefix: string, at: Lead, cs: Components, ds: Components)
    requires WellFormed(r.fs) && Reaches(r, prefix, at, ds) && |cs| == 1 && ds != [] && cs[0] == ds[0] && cs != ds
    ensures r.Cut(prefix + Join(cs)) != r.Cut(prefix + Join(ds))
  {
    assert cs == [cs[0]];
    assert |ds| > 1 || ds == cs;
    JoinFront(ds);
    hide Reaches, WellFormed, Leads, AllPass;
    var j := NextOnTheWay(r, prefix, at, ds);
    ReachedFits(r, prefix, at, ds);
    var e := r.fs.dirs[at.dir].entries[j];
    ReachedFits(r, prefix + e.name + "/", Leads(r, e.node, at.links).value, ds[1..]);
    assert Join(cs) == e.name;
    assert |prefix + Join(ds)| >= |prefix + Join(cs)| + 2;
  }

  lemma TailsClash(r: Request, prefix: string, at: Lead, cs: Components, ds: Components, j: nat, shown: string)
    returns (sub: Lead)
    requires WellFormed(r.fs) && Within(r.fs, at.dir, at.links) && Clash(r, prefix, at, cs, ds, shown)
    requires |cs| > 1 && |ds| > 1 && Readable(r, at.dir) && j < |r.fs.dirs[at.dir].entries|
    requires r.fs.dirs[at.dir].entries[j].name == cs[0] == ds[0]
    ensures var e := r.fs.dirs[at.dir].entries[j];
            && Leads(r, e.node, at.links) == Some(sub) && Readable(r, sub.dir) && r.recursive
            && |prefix + e.name| < r.limit && !IsDots(e.name)
            && Clash(r, prefix + e.name + "/", sub, cs[1..], ds[1..], shown)
  {
    hide WellFormed, Within, Reaches, AllPass, Leads, Request.Cut, Sight, Join, MarkOf, IsDots;
    var e := r.fs.dirs[at.dir].entries[j];
    sub := TailReported(r, prefix, at, cs, j);
    var other := TailReported(r, prefix, at, ds, j);
    assert cs == [e.name] + cs[1..] && ds == [e.name] + ds[1..];
  }

  lemma TailReported(r: Request, prefix: string, at: Lead, cs: Components, j: nat) returns (sub: Lead)
    requires WellFormed(r.fs) && Reported(r, prefix, at, cs) && |cs| > 1
    requires Readable(r, at.dir) && j < |r.fs.dirs[at.dir].entries| && r.fs.dirs[at.dir].entries[j].name == cs[0]
    ensures var e := r.fs.dirs[at.dir].entries[j];
            && Leads(r, e.node, at.links) == Some(sub) && Readable(r, sub.dir) && r.recursive
            && |prefix + e.name| < r.limit && !IsDots(e.name)
            && Reported(r, prefix + e.name + "/", sub, cs[1..])
            && prefix + Join(cs) == prefix + e.name + "/" + Join(cs[1..])
  {
    hide WellFormed, Reaches, AllPass, Leads, Sight, Join, MarkOf, IsDots, Request.Cut;
    var k := NextOnTheWay(r, prefix, at, cs);
    SameEntry(r.fs, at.dir, j, k);
    var e := r.fs.dirs[at.dir].entries[j];
    sub := Leads(r, e.node, at.links).value;
    assert cs == [e.name] + cs[1..];
    SightOn(r, at, j, sub, cs[1..]);
    Regrouped(prefix, e.name, Join(cs[1..]));
  }

  // ---------------------------------------------------------------- a whole listing

  /** A path is reported twice if and only if two entries that are come to have
      the same path in the buffer. */
  lemma RepeatsExactly(r: Request, text: string, shown: string)
    requires WellFormed(r.fs) && EndsInSeparator(text) && |text| <= r.limit
    ensures Repeats(WalkRoot(r, text), shown) <==>
            r.DirAt(text).Some? && exists cs, ds :: Clash(r, text, Lead(r.DirAt(text).value, []), cs, ds, shown)
  {
    hide WellFormed, WalkDir, WalkFrom, Request.DirAt, Clash, Within, Repeats, Request.Cut;
    OneErrorRepeats(r.Cut(text), shown);
    if r.DirAt(text).Some? {
      var at := Lead(r.DirAt(text).value, []);
      RootWithin(r, at);
      assert IsPrefix(r, text, at.dir);
      if Repeats(WalkRoot(r, text), shown) {
        var cs, ds := DirClash(r, text, true, at, shown);
      }
      if cs, ds :| Clash(r, text, at, cs, ds, shown) {
        ClashReads(r, text, at, cs, ds, shown);
        RootSteps(r, text, at);
        ClashRepeats(r, text, at, cs, ds, shown);
      }
    }
  }

  lemma OneErrorRepeats(text: string, shown: string)
    ensures !Repeats([Step(AsError, text), Step(Pop, text)], shown)
  {
  }

  lemma ClashReads(r: Request, prefix: string, at: Lead, cs: Components, ds: Components, shown: string)
    requires Clash(r, prefix, at, cs, ds, shown)
    ensures Readable(r, at.dir)
  {
    ReachesReads(r, prefix, at, cs);
  }

  /** The names on the way are those of entries. */
  lemma {:induction false} ReachedSegments(r: Request, prefix: string, at: Lead, cs: Components)
    requires WellFormed(r.fs) && Reaches(r, prefix, at, cs)
    ensures forall c :: c in cs ==> IsSegment(c)
    decreases |cs|
  {
    hide Reaches, Leads, AllPass;
    var j := NextOnTheWay(r, prefix, at, cs);
    var e := r.fs.dirs[at.dir].entries[j];
    assert GoodEntry(r.fs, at.dir, e) && cs == [e.name] + cs[1..];
    if |cs| > 1 {
      ReachedSegments(r, prefix + e.name + "/", Leads(r, e.node, at.links).value, cs[1..]);
    } else {
      assert cs[1..] == [];
    }
  }

  /** One of the two fills the buffer, and the path reported is one short of it. */
  lemma ClashFills(r: Request, prefix: string, at: Lead, cs: Components, ds: Components, shown: string)
    requires WellFormed(r.fs) && Clash(r, prefix, at, cs, ds, shown)
    ensures |prefix + Join(cs)| == r.limit || |prefix + Join(ds)| == r.limit
    ensures |shown| == r.limit - 1
  {
    hide WellFormed, Reaches, Sight, Join, MarkOf;
    ReachedFits(r, prefix, at, cs);
    ReachedFits(r, prefix, at, ds);
    if prefix + Join(cs) == prefix + Join(ds) {
      assert Join(cs) == (prefix + Join(cs))[|prefix|..] == Join(ds);
      ReachedSegments(r, prefix, at, cs);
      ReachedSegments(r, prefix, at, ds);
      SplitJoin(cs);
      SplitJoin(ds);
    }
  }

  /** So no path but one of PATH_MAX - 1 characters is reported twice. */
  lemma EachOnce(r: Request, text: string, shown: string)
    requires WellFormed(r.fs) && EndsInSeparator(text) && |text| <= r.limit && |shown| != r.limit - 1
    ensures !Repeats(WalkRoot(r, text), shown)
  {
    hide WellFormed, WalkRoot, Request.DirAt, Clash, Repeats;
    RepeatsExactly(r, text, shown);
    if Repeats(WalkRoot(r, text), shown) {
      var at := Lead(r.DirAt(text).value, []);
      var cs, ds :| Clash(r, text, at, cs, ds, shown);
      ClashFills(r, text, at, cs, ds, shown);
    }
  }
}
