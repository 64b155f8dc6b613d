/** A file tree with links and how paths are resolved in it: links on the way
    are followed, the last component only on request, `..` is the real parent. */
module LinkedTree {
  import opened Basics
  import opened PathSpec

  datatype Kind = FileKind | LinkKind(target: string) | DirKind

  /** Every file by its real location. */
  type Tree = map<Components, Kind>

  ghost predicate WellFormed(fs: Tree)
  {
    && [] in fs && fs[[]] == DirKind
    && (forall p :: p in fs && p != [] ==> IsOrdinary(p[|p| - 1]) && NUL !in p[|p| - 1])
    && (forall p :: p in fs && p != [] ==> InDirectory(fs, p))
  }

  ghost predicate InDirectory(fs: Tree, p: Components)
  {
    p != [] && Parent(p) in fs && fs[Parent(p)] == DirKind
  }

  function Parent(p: Components): Components { if p == [] then [] else p[..|p| - 1] }

  /** Names in the directory at `at`. */
  function Children(fs: Tree, at: Components): set<string>
  {
    set p | p in fs && |p| == |at| + 1 && p[..|at|] == at :: p[|at|]
  }

  /** Nothing but entries at or below `at` went, and nothing came or changed. */
  ghost predicate OnlyBelow(fs: Tree, fs': Tree, at: Components)
  {
    Within(fs', fs) && forall p :: p in fs && !(at <= p) ==> p in fs'
  }

  ghost predicate Within(fs': Tree, fs: Tree) { forall p :: p in fs' ==> p in fs && fs'[p] == fs[p] }

  ghost predicate GoneBelow(fs: Tree, at: Components) { forall p :: p in fs ==> !(at <= p) }

  ghost function Subtree(fs: Tree, at: Components): set<Components> { set p | p in fs && at <= p }

  lemma {:induction false} AncestorsExist(fs: Tree, p: Components, n: nat)
    requires WellFormed(fs) && p in fs && n <= |p|
    ensures p[..n] in fs && (n < |p| ==> fs[p[..n]] == DirKind)
    decreases |p|
  {
    if n < |p| {
      var q := Parent(p);
      assert InDirectory(fs, p) && q[..n] == p[..n];
      if n < |q| { AncestorsExist(fs, q, n); } else { assert q[..n] == q; }
    } else {
      assert p[..n] == p;
    }
  }

  /** Whatever is below a directory is under one of its names. */
  lemma UnderSomeName(fs: Tree, at: Components, p: Components)
    requires WellFormed(fs) && p in fs && at <= p && p != at
    ensures at in fs && fs[at] == DirKind && p[|at|] in Children(fs, at)
  {
    hide WellFormed, Children;
    AncestorsExist(fs, p, |at| + 1);
    AncestorsExist(fs, p, |at|);
    assert p[..|at|] == at && p[..|at| + 1] == at + [p[|at|]];
    NameOf(fs, at, p[|at|]);
  }

  lemma NameOf(fs: Tree, at: Components, name: string)
    requires at + [name] in fs
    ensures name in Children(fs, at)
  {
    var q := at + [name];
    assert |q| == |at| + 1 && q[..|at|] == at && q[|at|] == name;
  }

  lemma ChildAt(fs: Tree, at: Components, n: string)
    requires n in Children(fs, at)
    ensures at + [n] in fs
  {
    var p :| p in fs && |p| == |at| + 1 && p[..|at|] == at && p[|at|] == n;
    assert p == at + [n];
  }

  // ---------------------------------------------------------------- resolution

  /** Where a path leads, and how many more links may be followed from there. */
  datatype Spot = Missing | Found(at: Components, left: nat)

  function Walk(fs: Tree, at: Components, cs: Components, follow: bool, left: nat): (s: Spot)
    ensures s.Found? ==> s.at in fs
    decreases left, |cs|
  {
    if at !in fs then Missing
    else if cs == [] then Found(at, left)
    else if fs[at] != DirKind then Missing
    else Into(fs, at, cs, follow, left)
  }

  /** The first component of `cs` in the directory at `at`. */
  function Into(fs: Tree, at: Components, cs: Components, follow: bool, left: nat): (s: Spot)
    requires cs != []
    ensures s.Found? ==> s.at in fs
    decreases left, |cs|, 0
  {
    var c, rest := cs[0], cs[1..];
    var next := at + [c];
    if c == DOT then Walk(fs, at, rest, follow, left)
    else if c == DOTDOT then Walk(fs, Parent(at), rest, follow, left)
    else if next !in fs then Missing
    else if fs[next].LinkKind? && (rest != [] || follow) then
      if left == 0 then Missing
      else Walk(fs, LinkStart(fs[next].target, at), Split(fs[next].target) + rest, follow, left - 1)
    else Walk(fs, next, rest, follow, left)
  }

  function LinkStart(target: string, at: Components): Components { if IsRooted(target) then [] else at }

  /** What a path leads to in a smaller tree it leads to in a larger one. */
  lemma {:induction false} WalkMonotone(small: Tree, fs: Tree, at: Components, cs: Components, follow: bool, left: nat)
    requires Within(small, fs)
    ensures Walk(small, at, cs, follow, left).Found? ==>
              Walk(fs, at, cs, follow, left) == Walk(small, at, cs, follow, left)
    decreases left, |cs|
  {
    if at in small && cs != [] && small[at] == DirKind {
      var c, rest := cs[0], cs[1..];
      var next := at + [c];
      if c == DOT {
        WalkMonotone(small, fs, at, rest, follow, left);
      } else if c == DOTDOT {
        WalkMonotone(small, fs, Parent(at), rest, follow, left);
      } else if next in small {
        if small[next].LinkKind? && (rest != [] || follow) {
          if left > 0 {
            var t := small[next].target;
            WalkMonotone(small, fs, LinkStart(t, at), Split(t) + rest, follow, left - 1);
          }
        } else {
          WalkMonotone(small, fs, next, rest, follow, left);
        }
      }
    }
  }

  /** A path of two parts: the first is followed to its end. */
  lemma {:induction false} WalkAppend(fs: Tree, at: Components, cs: Components, ds: Components, follow: bool, left: nat)
    requires ds != []
    ensures Walk(fs, at, cs + ds, follow, left) ==
            match Walk(fs, at, cs, true, left)
            case Missing => Missing
            case Found(p, l) => Walk(fs, p, ds, follow, l)
    decreases left, |cs|
  {
    if cs == [] {
      assert cs + ds == ds;
    } else if at in fs && fs[at] == DirKind {
      var c, rest := cs[0], cs[1..];
      var next := at + [c];
      assert (cs + ds)[0] == c && (cs + ds)[1..] == rest + ds;
      if c == DOT {
        WalkAppend(fs, at, rest, ds, follow, left);
      } else if c == DOTDOT {
        WalkAppend(fs, Parent(at), rest, ds, follow, left);
      } else if next in fs {
        if fs[next].LinkKind? {
          if left > 0 {
            var t := fs[next].target;
            assert Split(t) + (rest + ds) == (Split(t) + rest) + ds;
            WalkAppend(fs, LinkStart(t, at), Split(t) + rest, ds, follow, left - 1);
          }
        } else {
          WalkAppend(fs, next, rest, ds, follow, left);
        }
      }
    }
  }

  /** Following makes no difference to a path that does not end in a link. */
  lemma {:induction false} FollowNothing(fs: Tree, at: Components, cs: Components, left: nat)
    ensures var s := Walk(fs, at, cs, false, left);
            s.Found? && s.at in fs && !fs[s.at].LinkKind? ==> Walk(fs, at, cs, true, left) == s
    decreases left, |cs|
  {
    if at in fs && cs != [] && fs[at] == DirKind {
      var c, rest := cs[0], cs[1..];
      var next := at + [c];
      if c == DOT {
        FollowNothing(fs, at, rest, left);
      } else if c == DOTDOT {
        FollowNothing(fs, Parent(at), rest, left);
      } else if next in fs {
        if fs[next].LinkKind? && rest != [] {
          if left > 0 {
            var t := fs[next].target;
            FollowNothing(fs, LinkStart(t, at), Split(t) + rest, left - 1);
          }
        } else {
          FollowNothing(fs, next, rest, left);
        }
      }
    }
  }

  /** Names under real directories lead straight down. */
  lemma {:induction false} Straight(fs: Tree, at: Components, rel: Components, follow: bool, left: nat)
    requires WellFormed(fs) && at + rel in fs && (follow ==> !fs[at + rel].LinkKind?)
    ensures Walk(fs, at, rel, follow, left) == Found(at + rel, left)
    decreases |rel|
  {
    hide WellFormed;
    if rel == [] {
      assert at + rel == at;
    } else {
      OneDown(fs, at, rel);
      Straight(fs, at + [rel[0]], rel[1..], follow, left);
    }
  }

  lemma OneDown(fs: Tree, at: Components, rel: Components)
    requires WellFormed(fs) && at + rel in fs && rel != []
    ensures at in fs && fs[at] == DirKind && IsOrdinary(rel[0])
    ensures var next := at + [rel[0]];
            && next in fs && next + rel[1..] == at + rel
            && (if rel[1..] == [] then next == at + rel else fs[next] == DirKind)
  {
    var p, next := at + rel, at + [rel[0]];
    hide WellFormed;
    FirstOf(at, rel);
    AncestorsExist(fs, p, |at|);
    AncestorsExist(fs, p, |at| + 1);
    LastIsOrdinary(fs, next);
  }

  lemma FirstOf(at: Components, rel: Components)
    requires rel != []
    ensures (at + rel)[..|at|] == at && (at + rel)[..|at| + 1] == at + [rel[0]]
    ensures at + [rel[0]] + rel[1..] == at + rel
    ensures rel[1..] == [] ==> at + [rel[0]] == at + rel
  {
  }

  lemma LastIsOrdinary(fs: Tree, p: Components)
    requires WellFormed(fs)
    ensures p in fs && p != [] ==> IsOrdinary(p[|p| - 1]) && NUL !in p[|p| - 1]
  {
  }

  /** A path that comes to `base` and goes on through real directories. */
  lemma WalkOn(fs: Tree, start: Components, cs: Components, base: Components, rel: Components, ds: Components,
               follow: bool, left: nat)
    requires WellFormed(fs) && base + rel in fs && fs[base + rel] == DirKind
    requires Walk(fs, start, cs, true, left).Found? ==> Walk(fs, start, cs, true, left).at == base
    ensures var s := Walk(fs, start, cs, true, left);
            && (ds != [] ==> Walk(fs, start, cs + rel + ds, follow, left) ==
                               if s.Missing? then Missing else Walk(fs, base + rel, ds, follow, s.left))
            && Walk(fs, start, cs + rel, true, left) == if s.Missing? then Missing else Found(base + rel, s.left)
  {
    hide Walk, WellFormed;
    var s := Walk(fs, start, cs, true, left);
    if s.Found? { Straight(fs, base, rel, true, s.left); }
    if rel == [] {
      assert cs + rel == cs && base + rel == base;
    } else {
      WalkAppend(fs, start, cs, rel, true, left);
    }
    if ds != [] { WalkAppend(fs, start, cs + rel, ds, follow, left); }
  }

  lemma WalkOnTo(fs: Tree, start: Components, cs: Components, base: Components, rel: Components, left: nat)
    requires WellFormed(fs) && base + rel in fs && rel != []
    requires Walk(fs, start, cs, true, left).Found? && Walk(fs, start, cs, true, left).at == base
    ensures Walk(fs, start, cs + rel, false, left) == Found(base + rel, Walk(fs, start, cs, true, left).left)
  {
    hide Walk, WellFormed;
    Straight(fs, base, rel, false, Walk(fs, start, cs, true, left).left);
    WalkAppend(fs, start, cs, rel, false, left);
  }

  /** A path that ends in a name does not lead to the root of the tree. */
  lemma NamesAreBelow(fs: Tree, start: Components, cs: Components, left: nat)
    requires cs != [] && !IsDots(cs[|cs| - 1])
    ensures Walk(fs, start, cs, false, left).Found? ==> Walk(fs, start, cs, false, left).at != []
  {
    var front, c := cs[..|cs| - 1], cs[|cs| - 1];
    assert cs == front + [c] && [c][1..] == [];
    WalkAppend(fs, start, front, [c], false, left);
    var s := Walk(fs, start, front, true, left);
    if s.Found? && fs[s.at] == DirKind {
      var next := s.at + [c];
      assert Walk(fs, s.at, [c], false, s.left) == Into(fs, s.at, [c], false, s.left);
      assert next in fs ==> Walk(fs, next, [], false, s.left) == Found(next, s.left);
    }
  }

  /** A last name in a directory, not followed. */
  lemma WalkName(fs: Tree, at: Components, name: string, left: nat)
    requires at in fs && fs[at] == DirKind && Parent(at) in fs
    ensures Walk(fs, at, [name], false, left) ==
            if name == DOT then Found(at, left)
            else if name == DOTDOT then Found(Parent(at), left)
            else if at + [name] in fs then Found(at + [name], left)
            else Missing
  {
    var cs := [name];
    assert cs[0] == name && cs[1..] == [];
    assert Walk(fs, at, cs, false, left) == Into(fs, at, cs, false, left);
  }

  /** The tree without what is strictly below `at`. */
  function Strip(fs: Tree, at: Components): Tree
  {
    map p | p in fs && (at <= p ==> p == at) :: fs[p]
  }

  // ---------------------------------------------------------------- removal

  lemma UnlinkKeeps(fs: Tree, at: Components)
    requires WellFormed(fs) && at in fs && at != [] && (fs[at] != DirKind || Children(fs, at) == {})
    ensures WellFormed(fs - {at}) && OnlyBelow(fs, fs - {at}, at) && GoneBelow(fs - {at}, at)
  {
    forall p | p in fs && at <= p ensures p == at {
      if p != at { UnderSomeName(fs, at, p); }
    }
    forall p | p in fs - {at} && p != [] ensures InDirectory(fs - {at}, p) {
      assert InDirectory(fs, p) && Parent(p) <= p;
    }
  }

  lemma OnlyBelowTrans(a: Tree, b: Tree, c: Tree, at: Components, sub: Components)
    requires OnlyBelow(a, b, at) && OnlyBelow(b, c, sub) && at <= sub
    ensures OnlyBelow(a, c, at)
  {
    forall p | p in a && !(at <= p) ensures p in c {
      if sub <= p { PrefixTrans(at, sub, p); }
    }
  }

  lemma PrefixTrans(a: Components, b: Components, c: Components)
    requires a <= b && b <= c
    ensures a <= c
  {
  }

  lemma NothingRemoved(fs: Tree, at: Components)
    ensures OnlyBelow(fs, fs, at)
  {
  }

  /** Removing strictly below `at` leaves the rest of the tree the same. */
  lemma StripStays(was: Tree, fs: Tree, at: Components)
    requires OnlyBelow(was, fs, at) && at in fs
    ensures Strip(fs, at) == Strip(was, at) && Within(Strip(fs, at), fs)
  {
    forall p | p in Strip(was, at) ensures p in Strip(fs, at) {}
  }
}
