/** A finite file system and the recursive reference for listing it.

    Real directories form a tree (every real subdirectory has a smaller
    height); symbolic links may point anywhere, so following them may cycle. */
module FileTree {
  import opened Basics
  import opened PathSpec

  type DirId = nat

  /** The (st_dev, st_ino) pair of a symbolic link itself. */
  datatype FileId = FileId(dev: nat, ino: nat)

  datatype Target = Broken | ToFile | ToDir(dir: DirId)

  datatype Node = FileNode | DirNode(dir: DirId) | LinkNode(id: FileId, target: Target)

  /** One readdir result; `typed` is false when d_type is DT_UNKNOWN. */
  datatype Dirent = Dirent(name: string, typed: bool, node: Node)

  /** `readable` is false when opening fails; `faulty` when readdir ends in an error. */
  datatype Dir = Dir(entries: seq<Dirent>, readable: bool, faulty: bool)

  datatype FileSystem = FileSystem(dirs: map<DirId, Dir>, height: map<DirId, nat>)

  ghost predicate GoodEntry(fs: FileSystem, d: DirId, e: Dirent)
    requires d in fs.dirs && fs.height.Keys == fs.dirs.Keys
  {
    && IsSegment(e.name) && NUL !in e.name && (IsDots(e.name) ==> e.node.DirNode?)
    && (e.node.DirNode? ==> e.node.dir in fs.dirs && (IsDots(e.name) || fs.height[e.node.dir] < fs.height[d]))
    && (e.node.LinkNode? && e.node.target.ToDir? ==> e.node.target.dir in fs.dirs)
  }

  ghost predicate WellFormed(fs: FileSystem)
  {
    && fs.height.Keys == fs.dirs.Keys
    && (forall d, i :: d in fs.dirs && 0 <= i < |fs.dirs[d].entries| ==> GoodEntry(fs, d, fs.dirs[d].entries[i]))
    && (forall d :: d in fs.dirs ==> DistinctNames(fs.dirs[d].entries))
  }

  ghost predicate DistinctNames(es: seq<Dirent>)
  {
    forall i, j :: 0 <= i < j < |es| ==> es[i].name != es[j].name
  }

  // ---------------------------------------------------------------- path resolution

  /** The entry called `name` among `es`. */
  function Find(es: seq<Dirent>, name: string): (r: Maybe<Dirent>)
    ensures r.Some? ==> r.value in es && r.value.name == name
  {
    if es == [] then None
    else if es[0].name == name then Some(es[0])
    else Find(es[1..], name)
  }

  function Lookup(fs: FileSystem, d: DirId, name: string): Maybe<Node>
  {
    if d !in fs.dirs then None
    else match Find(fs.dirs[d].entries, name) case None => None case Some(e) => Some(e.node)
  }

  /** The directory that `node` is, links followed. */
  function Follow(node: Node): Maybe<DirId>
  {
    match node
    case FileNode => None
    case DirNode(d) => Some(d)
    case LinkNode(_, ToDir(d)) => Some(d)
    case LinkNode(_, _) => None
  }

  function Descend(fs: FileSystem, from: Maybe<DirId>, name: string): Maybe<DirId>
  {
    if from.None? then None
    else match Lookup(fs, from.value, name)
      case None => None
      case Some(node) => Follow(node)
  }

  function ResolveDir(fs: FileSystem, from: DirId, cs: Components): Maybe<DirId>
    decreases |cs|
  {
    if cs == [] then Some(from)
    else Descend(fs, ResolveDir(fs, from, cs[..|cs| - 1]), cs[|cs| - 1])
  }

  type BufferSize = n: nat | 2 <= n witness 2

  /** What a listing is asked for, the file system it is asked of, and the size
      of the path buffer (PATH_MAX). */
  datatype Request = Request(fs: FileSystem, root: DirId, cwd: DirId, recursive: bool, followLinks: bool,
                             limit: BufferSize)
  {
    function Start(path: string): DirId { if IsRooted(path) then root else cwd }

    /** The directory a path names, all links followed. */
    function DirAt(path: string): Maybe<DirId> { ResolveDir(fs, Start(path), Split(path)) }

    /** open(path, O_DIRECTORY) and fdopendir. */
    function Open(path: string): Maybe<DirId>
    {
      var d := DirAt(path);
      if d.Some? && d.value in fs.dirs && fs.dirs[d.value].readable then d else None
    }

    /** fstatat(path, AT_SYMLINK_NOFOLLOW); a final separator makes it follow a link. */
    function Lstat(path: string): Maybe<Node>
    {
      var cs := Split(path);
      if cs == [] || EndsInSeparator(path) then
        match DirAt(path) case None => None case Some(d) => Some(DirNode(d))
      else match ResolveDir(fs, Start(path), cs[..|cs| - 1])
        case None => None
        case Some(d) => Lookup(fs, d, cs[|cs| - 1])
    }

    /** What the buffer holds of a path: all of it, or as much as there is room
        for before the terminator. */
    function Cut(path: string): (text: string)
      ensures |text| < limit && text <= path && (|path| < limit ==> text == path)
    {
      if |path| < limit then path else path[..limit - 1]
    }

    /** The type that readdir gives is enough. */
    predicate FromType(e: Dirent) { e.typed && !(followLinks && e.node.LinkNode?) }

    /** What the entry, whose path is `path`, is taken for: what readdir says or
        what lstat says of the text in the buffer. */
    function Look(path: string, e: Dirent): Maybe<Node>
    {
      if |path| < limit || FromType(e) then Some(e.node) else Lstat(Cut(path))
    }
  }

  lemma {:induction false} FindUnique(es: seq<Dirent>, i: nat)
    requires i < |es|
    requires DistinctNames(es)
    ensures Find(es, es[i].name) == Some(es[i])
  {
    if i > 0 { FindUnique(es[1..], i - 1); }
  }

  lemma SplitName(prefix: string, name: string)
    requires EndsInSeparator(prefix) && IsSegment(name)
    ensures Split(prefix + name) == Split(prefix) + [name]
    ensures Split(prefix + name + "/") == Split(prefix + name)
    ensures IsRooted(prefix + name) == IsRooted(prefix + name + "/") == IsRooted(prefix)
  {
    var body := prefix[..|prefix| - 1];
    assert prefix == body + "/" + "" && prefix + name == body + "/" + name;
    SplitAtSeparator(body, "");
    SplitAtSeparator(body, name);
    SplitPrefix(name, "");
    assert name + "" == name;
    assert prefix + name + "/" == (prefix + name) + "/" + "";
    SplitAtSeparator(prefix + name, "");
  }

  /** A name after a directory's own text is looked up in that directory. */
  lemma LstatInDir(r: Request, prefix: string, d: DirId, name: string)
    requires EndsInSeparator(prefix) && r.DirAt(prefix) == Some(d) && IsSegment(name)
    ensures r.Lstat(prefix + name) == Lookup(r.fs, d, name)
  {
    hide Split;
    assert !EndsInSeparator(prefix + name);
    SplitName(prefix, name);
    assert (Split(prefix) + [name])[..|Split(prefix)|] == Split(prefix);
  }

  /** Appending a name to a directory's own text, which ends in a separator,
      addresses that directory's entry; appending a separator changes nothing. */
  lemma PathOfEntry(r: Request, prefix: string, d: DirId, i: nat)
    requires WellFormed(r.fs) && d in r.fs.dirs && i < |r.fs.dirs[d].entries|
    requires EndsInSeparator(prefix) && r.DirAt(prefix) == Some(d)
    ensures var e := r.fs.dirs[d].entries[i];
            && r.Lstat(prefix + e.name) == Some(e.node)
            && r.DirAt(prefix + e.name) == Follow(e.node)
            && r.DirAt(prefix + e.name + "/") == Follow(e.node)
  {
    hide Split, Follow, Request.Lstat;
    var es := r.fs.dirs[d].entries;
    var name := es[i].name;
    assert GoodEntry(r.fs, d, es[i]);
    SplitName(prefix, name);
    assert Lookup(r.fs, d, name) == Some(es[i].node) by { FindUnique(es, i); }
    LstatInDir(r, prefix, d, name);
    assert (Split(prefix) + [name])[..|Split(prefix)|] == Split(prefix);
  }

  /** A directory's own text loses only its separator when it fills the buffer. */
  lemma CutNames(r: Request, prefix: string)
    requires EndsInSeparator(prefix) && |prefix| <= r.limit
    ensures r.DirAt(r.Cut(prefix)) == r.DirAt(prefix)
  {
    if |prefix| == r.limit {
      var body := prefix[..|prefix| - 1];
      assert prefix == body + "/" + "" && r.Cut(prefix) == body && body[0] == prefix[0];
      SplitAtSeparator(body, "");
      assert Split(body) + [] == Split(body);
    }
  }

  /** Only links of the file system are met. */
  lemma LstatFinds(r: Request, text: string)
    ensures var n := r.Lstat(text); n.Some? && n.value.LinkNode? ==> n.value.id in Links(r.fs)
  {
    var cs, n := Split(text), r.Lstat(text);
    if n.Some? && n.value.LinkNode? {
      var d := ResolveDir(r.fs, r.Start(text), cs[..|cs| - 1]).value;
      var es := r.fs.dirs[d].entries;
      var i :| 0 <= i < |es| && es[i] == Find(es, cs[|cs| - 1]).value;
    }
  }

  /** What is not there is no directory either. */
  lemma LstatNone(r: Request, text: string)
    requires r.Lstat(text).None?
    ensures r.DirAt(text).None?
  {
  }

  // ---------------------------------------------------------------- the reference walk

  /** `Astray` is where the walk leaves what is defined: a directory is opened
      under a path that has lost its last character. */
  datatype StepKind = AsFile | AsDirectory | AsLink | AsError | Skip | Pop | Astray

  /** One step of the walk with the text of the path it is about. */
  datatype Step = Step(kind: StepKind, path: string)

  /** How an entry is treated, given the links followed to reach its directory:
      passed over, reported, entered, entered in vain, refused for the length of
      its path, which ends the directory, or lost. */
  datatype Treatment =
      Ignore
    | Report(kind: StepKind)
    | GoInto(dir: DirId, links: seq<FileId>)
    | Blocked(links: seq<FileId>)
    | TooLong
    | Stray

  function Treat(r: Request, name: string, node: Node, links: seq<FileId>): (t: Treatment)
    ensures t.Ignore? || t.GoInto? || (t.Report? && t.kind in {AsFile, AsLink})
  {
    match node
    case FileNode => Report(AsFile)
    case DirNode(d) => if IsDots(name) then Ignore else GoInto(d, links)
    case LinkNode(id, target) =>
      if !r.followLinks || id in links || target.Broken? then Report(AsLink)
      else if target.ToFile? then Report(AsFile)
      else if IsDots(name) then Ignore
      else GoInto(target.dir, [id] + links)
  }

  function TreatAt(r: Request, path: string, e: Dirent, links: seq<FileId>): Treatment
  {
    if |path| > r.limit then TooLong
    else match r.Look(path, e)
      case None => Report(AsError)
      case Some(node) =>
        var t := Treat(r, e.name, node, links);
        if |path| < r.limit || !t.GoInto? || !r.recursive then t
        else if r.Open(r.Cut(path)).Some? then Stray
        else Blocked(t.links)
  }

  /** What is entered has room for a separator and is what readdir says. */
  lemma GoIntoNear(r: Request, path: string, e: Dirent, links: seq<FileId>)
    requires TreatAt(r, path, e, links).GoInto? && r.recursive
    ensures |path| < r.limit && TreatAt(r, path, e, links) == Treat(r, e.name, e.node, links)
  {
  }

  ghost function Links(fs: FileSystem): set<FileId>
  {
    set d, i | d in fs.dirs && 0 <= i < |fs.dirs[d].entries| && fs.dirs[d].entries[i].node.LinkNode?
      :: fs.dirs[d].entries[i].node.id
  }

  ghost function Elements(links: seq<FileId>): set<FileId> { set x | x in links }

  /** How many links a walk may still follow. */
  ghost function LinksLeft(fs: FileSystem, links: seq<FileId>): nat { |Links(fs) - Elements(links)| }

  ghost predicate Within(fs: FileSystem, d: DirId, links: seq<FileId>)
  {
    && d in fs.dirs
    && Elements(links) <= Links(fs)
    && (forall i, j :: 0 <= i < j < |links| ==> links[i] != links[j])
  }

  lemma FewerLinks(fs: FileSystem, id: FileId, links: seq<FileId>)
    requires id in Links(fs) && id !in links
    ensures LinksLeft(fs, [id] + links) < LinksLeft(fs, links)
    ensures Elements([id] + links) == Elements(links) + {id}
  {
    var a, b := Links(fs) - Elements([id] + links), Links(fs) - Elements(links);
    assert Elements([id] + links) == Elements(links) + {id};
    assert id in b && a == b - {id};
  }

  /** Entering a directory goes down: fewer links left to follow, or the same
      and a lower directory. */
  lemma GoIntoDescends(r: Request, d: DirId, i: nat, links: seq<FileId>)
    requires WellFormed(r.fs) && Within(r.fs, d, links) && i < |r.fs.dirs[d].entries|
    requires var e := r.fs.dirs[d].entries[i]; Treat(r, e.name, e.node, links).GoInto?
    ensures var e := r.fs.dirs[d].entries[i];
            var t := Treat(r, e.name, e.node, links);
            && Within(r.fs, t.dir, t.links)
            && Follow(e.node) == Some(t.dir)
            && ((t.links == links && r.fs.height[t.dir] < r.fs.height[d])
                || LinksLeft(r.fs, t.links) < LinksLeft(r.fs, links))
  {
    hide LinksLeft;
    var e := r.fs.dirs[d].entries[i];
    assert GoodEntry(r.fs, d, e);
    if e.node.LinkNode? {
      FewerLinks(r.fs, e.node.id, links);
    }
  }

  /** The steps of listing directory `d`, reached under the text `path`
      (without its separator unless it is the root of the listing). */
  ghost function WalkDir(r: Request, path: string, isRoot: bool, d: DirId, links: seq<FileId>): (w: seq<Step>)
    requires WellFormed(r.fs) && Within(r.fs, d, links)
    ensures w != [] && w[|w| - 1].kind == Pop
    decreases LinksLeft(r.fs, links), r.fs.height[d], 1, 0
  {
    if !r.fs.dirs[d].readable then [Step(AsError, r.Cut(path)), Step(Pop, r.Cut(path))]
    else WalkFrom(r, if isRoot then path else path + "/", d, 0, links)
  }

  /** The steps left in `d` from its `i`-th entry on. */
  ghost function WalkFrom(r: Request, prefix: string, d: DirId, i: nat, links: seq<FileId>): (w: seq<Step>)
    requires WellFormed(r.fs) && Within(r.fs, d, links) && i <= |r.fs.dirs[d].entries|
    ensures w != [] && w[|w| - 1].kind == Pop
    decreases LinksLeft(r.fs, links), r.fs.height[d], 0, |r.fs.dirs[d].entries| - i
  {
    var es := r.fs.dirs[d].entries;
    if i == |es| then
      (if r.fs.dirs[d].faulty then [Step(AsError, r.Cut(prefix))] else []) + [Step(Pop, r.Cut(prefix))]
    else
      var path := prefix + es[i].name;
      var t, text := TreatAt(r, path, es[i], links), r.Cut(path);
      if !GoesOn(t) then [Step(KindOf(t), text), Step(Pop, text)]
      else [Step(KindOf(t), text)] + (Inside(r, prefix, d, i, links) + WalkFrom(r, prefix, d, i + 1, links))
  }

  /** What the walk does inside the `i`-th entry of `d`. */
  ghost function Inside(r: Request, prefix: string, d: DirId, i: nat, links: seq<FileId>): seq<Step>
    requires WellFormed(r.fs) && Within(r.fs, d, links) && i < |r.fs.dirs[d].entries|
    decreases LinksLeft(r.fs, links), r.fs.height[d], 0, |r.fs.dirs[d].entries| - i, 0
  {
    var e := r.fs.dirs[d].entries[i];
    var path := prefix + e.name;
    match TreatAt(r, path, e, links)
    case GoInto(sub, links') =>
      if r.recursive then
        GoIntoNear(r, path, e, links);
        GoIntoDescends(r, d, i, links);
        WalkDir(r, path, false, sub, links')
      else []
    case Blocked(_) => [Step(AsError, r.Cut(path)), Step(Pop, r.Cut(path))]
    case _ => []
  }

  /** Reading the directory goes on after the entry. */
  predicate GoesOn(t: Treatment) { !t.TooLong? && !t.Stray? }

  function KindOf(t: Treatment): StepKind
  {
    match t
    case Ignore => Skip
    case Report(kind) => kind
    case GoInto(_, _) => AsDirectory
    case Blocked(_) => AsDirectory
    case TooLong => AsError
    case Stray => Astray
  }
}
