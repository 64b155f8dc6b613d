/** Lexical normalisation of Unix paths, as a stack of components.

    This is the reference against which the one-pass, two-index cleaner of
    module `PathCleaner` is proved, together with what the reference promises:
    its shape, idempotence, compositionality, and that it never changes which
    file of a link-free tree a resolving path names. */
module PathSpec {

  type Components = seq<string>

  const DOT: string := "."
  const DOTDOT: string := ".."

  /** Index of the first separator of `s`, or its length. */
  function SegmentEnd(s: string): (n: nat)
    ensures n <= |s|
    ensures '/' !in s[..n]
    ensures n < |s| ==> s[n] == '/'
    ensures s != "" && s[0] != '/' ==> 0 < n
  {
    if s == "" || s[0] == '/' then 0
    else
      var n := SegmentEnd(s[1..]);
      assert s[..n + 1] == [s[0]] + s[1..][..n];
      n + 1
  }

  /** The non-empty pieces between separators. */
  function Split(s: string): Components
    decreases |s|
  {
    if s == "" then []
    else if s[0] == '/' then Split(s[1..])
    else [s[..SegmentEnd(s)]] + Split(s[SegmentEnd(s)..])
  }

  predicate IsSegment(c: string) { c != "" && '/' !in c }

  predicate IsOrdinary(c: string) { IsSegment(c) && c != DOT && c != DOTDOT }

  predicate IsDots(c: string) { c == DOT || c == DOTDOT }

  predicate EndsInSeparator(s: string) { s != "" && s[|s| - 1] == '/' }

  predicate IsRooted(s: string) { s != "" && s[0] == '/' }

  /** One component against the stack of components kept so far. */
  function Apply(rooted: bool, stack: Components, c: string): Components
  {
    if c == DOT then stack
    else if c != DOTDOT then stack + [c]
    else if stack != [] && stack[|stack| - 1] != DOTDOT then stack[..|stack| - 1]
    else if rooted then stack
    else stack + [DOTDOT]
  }

  function ApplyAll(rooted: bool, stack: Components, cs: Components): Components
    decreases |cs|
  {
    if cs == [] then stack else ApplyAll(rooted, Apply(rooted, stack, cs[0]), cs[1..])
  }

  function Join(stack: Components): string
  {
    if stack == [] then ""
    else if |stack| == 1 then stack[0]
    else Join(stack[..|stack| - 1]) + "/" + stack[|stack| - 1]
  }

  function Body(rooted: bool, stack: Components): string
  {
    if rooted then "/" + Join(stack) else Join(stack)
  }

  function Render(rooted: bool, stack: Components): string
  {
    if !rooted && stack == [] then DOT else Body(rooted, stack)
  }

  function Normal(s: string): Components { ApplyAll(IsRooted(s), [], Split(s)) }

  function Clean(s: string): string { Render(IsRooted(s), Normal(s)) }

  /** The shape of a normalised stack: `..` only as a leading run, and never
      under the root; nothing empty, no `.`. */
  ghost predicate Normalised(rooted: bool, stack: Components)
  {
    exists ups: nat :: LeadingUps(rooted, stack, ups)
  }

  ghost predicate LeadingUps(rooted: bool, stack: Components, ups: nat)
  {
    && ups <= |stack|
    && (rooted ==> ups == 0)
    && (forall i :: 0 <= i < ups ==> stack[i] == DOTDOT)
    && (forall i :: ups <= i < |stack| ==> IsOrdinary(stack[i]))
  }

  lemma {:induction false} SplitSegments(s: string)
    ensures forall c :: c in Split(s) ==> IsSegment(c)
    decreases |s|
  {
    if s == "" {
    } else if s[0] == '/' {
      SplitSegments(s[1..]);
    } else {
      SplitSegments(s[SegmentEnd(s)..]);
    }
  }

  lemma {:induction false} ApplyAllAppend(rooted: bool, stack: Components, cs: Components, ds: Components)
    ensures ApplyAll(rooted, stack, cs + ds) == ApplyAll(rooted, ApplyAll(rooted, stack, cs), ds)
    decreases |cs|
  {
    if cs == [] {
      assert cs + ds == ds;
    } else {
      assert (cs + ds)[1..] == cs[1..] + ds;
      ApplyAllAppend(rooted, Apply(rooted, stack, cs[0]), cs[1..], ds);
    }
  }

  lemma ApplyKeepsShape(rooted: bool, stack: Components, c: string)
    requires Normalised(rooted, stack) && IsSegment(c)
    ensures Normalised(rooted, Apply(rooted, stack, c))
  {
    var ups: nat :| LeadingUps(rooted, stack, ups);
    if c == DOT {
    } else if c != DOTDOT || (|stack| > ups) {
      assert LeadingUps(rooted, Apply(rooted, stack, c), ups);
    } else if rooted {
      assert stack == [];
    } else {
      assert LeadingUps(rooted, Apply(rooted, stack, c), ups + 1);
    }
  }

  lemma {:induction false} ApplyAllKeepsShape(rooted: bool, stack: Components, cs: Components)
    requires Normalised(rooted, stack)
    requires forall c :: c in cs ==> IsSegment(c)
    ensures Normalised(rooted, ApplyAll(rooted, stack, cs))
    decreases |cs|
  {
    if cs != [] {
      ApplyKeepsShape(rooted, stack, cs[0]);
      ApplyAllKeepsShape(rooted, Apply(rooted, stack, cs[0]), cs[1..]);
    }
  }

  /** Every normal form drops empty and `.` components, keeps `..` only as a
      leading run, and has no `..` at all when rooted. */
  lemma NormalShape(s: string)
    ensures Normalised(IsRooted(s), Normal(s))
  {
    SplitSegments(s);
    assert LeadingUps(IsRooted(s), [], 0);
    ApplyAllKeepsShape(IsRooted(s), [], Split(s));
  }

  lemma {:induction false} SplitPrefix(c: string, s: string)
    requires IsSegment(c)
    requires s == "" || s[0] == '/'
    ensures Split(c + s) == [c] + Split(s)
  {
    var t := c + s;
    var n := SegmentEnd(t);
    forall i | 0 <= i < |c| ensures t[i] != '/' { assert t[i] == c[i]; }
    forall i | 0 <= i < n ensures t[i] != '/' { assert t[..n][i] == t[i]; }
    assert s != "" ==> t[|c|] == '/';
    assert n == |c|;
    assert t[..n] == c && t[n..] == s;
  }

  /** A separator splits: what the components are before and after it. */
  lemma {:induction false} SplitAtSeparator(a: string, b: string)
    ensures Split(a + "/" + b) == Split(a) + Split(b)
    decreases |a|
  {
    if a == "" {
      assert (a + "/" + b)[1..] == b;
    } else if a[0] == '/' {
      assert (a + "/" + b)[1..] == a[1..] + "/" + b;
      SplitAtSeparator(a[1..], b);
    } else {
      hide Split;
      var n := SegmentEnd(a);
      SplitAtSeparator(a[n..], b);
      SplitHead(a[..n], a[n..], b);
      assert a == a[..n] + a[n..];
    }
  }

  lemma SplitHead(c: string, rest: string, b: string)
    requires IsSegment(c) && (rest == "" || rest[0] == '/') && Split(rest + "/" + b) == Split(rest) + Split(b)
    ensures Split(c + rest + "/" + b) == Split(c + rest) + Split(b)
  {
    hide Split;
    SplitPrefix(c, rest);
    SplitPrefix(c, rest + "/" + b);
    assert c + rest + "/" + b == c + (rest + "/" + b);
    assert [c] + Split(rest) + Split(b) == [c] + (Split(rest) + Split(b));
  }

  lemma SplitSegment(c: string)
    requires IsSegment(c)
    ensures Split(c) == [c]
  {
    SplitPrefix(c, "");
    assert c + "" == c && Split("") == [];
  }

  /** One more character makes the last component longer. */
  lemma {:induction false} SplitLonger(s: string, c: char) returns (front: Components, last: string)
    requires s != "" && s[|s| - 1] != '/' && c != '/'
    ensures IsSegment(last) && Split(s) == front + [last] && Split(s + [c]) == front + [last + [c]]
    decreases |s|
  {
    if s[0] == '/' {
      assert (s + [c])[1..] == s[1..] + [c];
      front, last := SplitLonger(s[1..], c);
    } else {
      hide Split;
      var n := SegmentEnd(s);
      var head, rest := s[..n], s[n..];
      assert s == head + rest && s + [c] == head + (rest + [c]);
      if rest == "" {
        assert s == head;
        SplitSegment(head);
        SplitSegment(head + [c]);
        front, last := [], head;
        assert [] + [head] == [head] && [] + [head + [c]] == [head + [c]];
      } else {
        SplitPrefix(head, rest);
        SplitPrefix(head, rest + [c]);
        var below, end := SplitLonger(rest, c);
        front, last := [head] + below, end;
        assert [head] + (below + [end]) == front + [end];
        assert [head] + (below + [end + [c]]) == front + [end + [c]];
      }
    }
  }

  lemma {:induction false} SplitJoin(stack: Components)
    requires forall c :: c in stack ==> IsSegment(c)
    ensures Split(Join(stack)) == stack
    decreases |stack|
  {
    if stack == [] {
    } else {
      var front, c := stack[..|stack| - 1], stack[|stack| - 1];
      SplitPrefix(c, "");
      assert c + "" == c && Split(c) == [c];
      assert stack == front + [c];
      if |stack| > 1 {
        SplitJoin(front);
        SplitAtSeparator(Join(front), c);
      }
    }
  }

  lemma Rejoined(a: string, b: string, c: string)
    ensures a + "/" + b + "/" + c == a + "/" + (b + "/" + c)
  {
  }

  lemma {:induction false} JoinFront(stack: Components)
    requires stack != []
    ensures Join(stack) == if |stack| == 1 then stack[0] else stack[0] + "/" + Join(stack[1..])
    decreases |stack|
  {
    if |stack| > 2 {
      var front, c := stack[..|stack| - 1], stack[|stack| - 1];
      JoinFront(front);
      assert stack[1..][..|stack| - 2] == front[1..];
      Rejoined(stack[0], Join(front[1..]), c);
    }
  }

  lemma {:induction false} JoinHead(stack: Components)
    requires stack != [] && forall c :: c in stack ==> IsSegment(c)
    ensures Join(stack) != "" && Join(stack)[0] != '/'
    decreases |stack|
  {
    assert stack[0] in stack;
    if |stack| > 1 {
      assert stack[..|stack| - 1] != [];
      JoinHead(stack[..|stack| - 1]);
    }
  }

  lemma NormalisedSegments(rooted: bool, stack: Components)
    requires Normalised(rooted, stack)
    ensures forall c :: c in stack ==> IsSegment(c)
  {
    var ups: nat :| LeadingUps(rooted, stack, ups);
    assert IsSegment(DOTDOT);
  }

  /** Reading a rendered normal form gives back its root flag and components,
      up to the `.` that stands for the empty relative path. */
  lemma RenderReads(rooted: bool, stack: Components)
    requires Normalised(rooted, stack)
    ensures Render(rooted, stack) != "" && IsRooted(Render(rooted, stack)) == rooted
    ensures Split(Render(rooted, stack)) == if !rooted && stack == [] then [DOT] else stack
  {
    NormalisedSegments(rooted, stack);
    SplitJoin(stack);
    if rooted {
      assert ("/" + Join(stack))[1..] == Join(stack);
    } else if stack == [] {
      SplitPrefix(DOT, "");
      assert DOT + "" == DOT;
    } else {
      JoinHead(stack);
    }
  }

  lemma {:induction false} NormalisedIsFixed(rooted: bool, done: Components, rest: Components)
    requires Normalised(rooted, done + rest)
    ensures ApplyAll(rooted, done, rest) == done + rest
    decreases |rest|
  {
    if rest == [] {
      assert done + rest == done;
    } else {
      var ups: nat :| LeadingUps(rooted, done + rest, ups);
      assert (done + rest)[|done|] == rest[0];
      assert done != [] ==> (done + rest)[|done| - 1] == done[|done| - 1];
      assert Apply(rooted, done, rest[0]) == done + [rest[0]];
      assert done + [rest[0]] + rest[1..] == done + rest;
      NormalisedIsFixed(rooted, done + [rest[0]], rest[1..]);
    }
  }

  /** Reading back a rendered normal form and normalising is the identity. */
  lemma RenderIsNormal(rooted: bool, stack: Components)
    requires Normalised(rooted, stack)
    ensures Normal(Render(rooted, stack)) == stack
  {
    RenderReads(rooted, stack);
    assert [] + stack == stack;
    NormalisedIsFixed(rooted, [], stack);
  }

  lemma CleanReads(s: string)
    ensures Clean(s) != "" && IsRooted(Clean(s)) == IsRooted(s) && Normal(Clean(s)) == Normal(s)
  {
    NormalShape(s);
    RenderReads(IsRooted(s), Normal(s));
    RenderIsNormal(IsRooted(s), Normal(s));
  }

  lemma CleanIdempotent(s: string)
    ensures Clean(Clean(s)) == Clean(s)
  {
    CleanReads(s);
  }

  // ---------------------------------------------------------------- length

  /** The room that components take with a separator each. */
  function Weight(stack: Components): nat
  {
    if stack == [] then 0 else Weight(stack[..|stack| - 1]) + |stack[|stack| - 1]| + 1
  }

  lemma {:induction false} JoinWeight(stack: Components)
    ensures |Join(stack)| == if stack == [] then 0 else Weight(stack) - 1
    decreases |stack|
  {
    if stack != [] { JoinWeight(stack[..|stack| - 1]); }
  }

  lemma ApplyWeight(rooted: bool, stack: Components, c: string)
    ensures Weight(Apply(rooted, stack, c)) <= Weight(stack) + |c| + 1
  {
    assert (stack + [c])[..|stack|] == stack;
  }

  lemma {:induction false} ReadWeight(rooted: bool, stack: Components, s: string)
    ensures Weight(ApplyAll(rooted, stack, Split(s))) <= Weight(stack) + |s| + if s == "" || s[0] == '/' then 0 else 1
    decreases |s|
  {
    if s == "" {
    } else if s[0] == '/' {
      ReadWeight(rooted, stack, s[1..]);
    } else {
      var n := SegmentEnd(s);
      ApplyWeight(rooted, stack, s[..n]);
      ReadWeight(rooted, Apply(rooted, stack, s[..n]), s[n..]);
      assert ([s[..n]] + Split(s[n..]))[1..] == Split(s[n..]);
    }
  }

  /** Cleaning never makes a path longer, except the empty one. */
  lemma CleanNoLonger(s: string)
    ensures s != "" ==> |Clean(s)| <= |s|
    ensures s == "" ==> Clean(s) == DOT
  {
    JoinWeight(Normal(s));
    ReadWeight(IsRooted(s), [], s);
  }

  // ---------------------------------------------------------------- composition

  /** Cleaning a prefix first changes nothing, exactly when the prefix is not
      empty: the empty prefix is read as ".", which loses the root. */
  lemma CleanCompositional(a: string, b: string)
    ensures Clean(a + "/" + b) == Clean(Clean(a) + "/" + b) <==> a != ""
  {
    var c := Clean(a);
    if a == "" {
      assert a + "/" + b == "/" + b && c == DOT;
      assert Normalised(false, Normal(c + "/" + b)) && IsRooted("/" + b) by {
        NormalShape(c + "/" + b);
      }
      RenderReads(false, Normal(c + "/" + b));
      NormalShape("/" + b);
      RenderReads(true, Normal("/" + b));
    } else {
      CleanReads(a);
      assert IsRooted(a + "/" + b) == IsRooted(a);
      assert IsRooted(c + "/" + b) == IsRooted(c);
      SplitAtSeparator(a, b);
      SplitAtSeparator(c, b);
      ApplyAllAppend(IsRooted(a), [], Split(a), Split(b));
      ApplyAllAppend(IsRooted(a), [], Split(c), Split(b));
    }
  }

  // ---------------------------------------------------------------- meaning

  /** Where `cs` leads from directory `at` in the link-free tree whose paths
      are those in `tree`; None when a named component does not exist. */
  datatype Place = Nowhere | At(path: Components)

  ghost function Enter(tree: iset<Components>, at: Components, c: string): Place
  {
    if c == DOT then At(at)
    else if c == DOTDOT then At(if at == [] then [] else at[..|at| - 1])
    else if at + [c] in tree then At(at + [c])
    else Nowhere
  }

  ghost function Resolve(tree: iset<Components>, at: Components, cs: Components): Place
    decreases |cs|
  {
    if cs == [] then At(at)
    else match Enter(tree, at, cs[0])
      case Nowhere => Nowhere
      case At(next) => Resolve(tree, next, cs[1..])
  }

  lemma {:induction false} ResolveAppend(tree: iset<Components>, at: Components, cs: Components, c: string)
    ensures Resolve(tree, at, cs + [c]) ==
            match Resolve(tree, at, cs) case Nowhere => Nowhere case At(p) => Enter(tree, p, c)
    decreases |cs|
  {
    if cs == [] {
      assert cs + [c] == [c];
    } else {
      assert (cs + [c])[1..] == cs[1..] + [c];
      match Enter(tree, at, cs[0])
      case Nowhere =>
      case At(next) => ResolveAppend(tree, next, cs[1..], c);
    }
  }

  /** One component of the cleaner keeps the place that the kept stack names. */
  lemma ApplyKeepsPlace(tree: iset<Components>, rooted: bool, start: Components, stack: Components,
                        c: string, here: Components, next: Components)
    requires rooted ==> start == []
    requires Normalised(rooted, stack)
    requires Resolve(tree, start, stack) == At(here)
    requires Enter(tree, here, c) == At(next)
    ensures Resolve(tree, start, Apply(rooted, stack, c)) == At(next)
  {
    var ups: nat :| LeadingUps(rooted, stack, ups);
    if c == DOT {
    } else if c == DOTDOT && |stack| > ups {
      var front, last := stack[..|stack| - 1], stack[|stack| - 1];
      assert stack == front + [last];
      ResolveAppend(tree, start, front, last);
    } else if c == DOTDOT && rooted {
      assert stack == [] && here == [];
    } else {
      ResolveAppend(tree, start, stack, c);
    }
  }

  lemma {:induction false} ApplyAllKeepsPlace(tree: iset<Components>, rooted: bool, start: Components,
                                              stack: Components, cs: Components, here: Components)
    requires rooted ==> start == []
    requires Normalised(rooted, stack) && forall c :: c in cs ==> IsSegment(c)
    requires Resolve(tree, start, stack) == At(here)
    requires Resolve(tree, here, cs).At?
    ensures Resolve(tree, start, ApplyAll(rooted, stack, cs)) == Resolve(tree, here, cs)
    decreases |cs|
  {
    if cs != [] {
      var next := Enter(tree, here, cs[0]).path;
      ApplyKeepsPlace(tree, rooted, start, stack, cs[0], here, next);
      ApplyKeepsShape(rooted, stack, cs[0]);
      ApplyAllKeepsPlace(tree, rooted, start, Apply(rooted, stack, cs[0]), cs[1..], next);
    }
  }

  /** Cleaning preserves meaning: on every link-free tree, a path that resolves
      still names the same file after cleaning. `cwd` is where a relative path
      starts. */
  lemma CleanPreservesMeaning(tree: iset<Components>, cwd: Components, s: string)
    requires Resolve(tree, if IsRooted(s) then [] else cwd, Split(s)).At?
    ensures Resolve(tree, if IsRooted(s) then [] else cwd, Split(Clean(s)))
         == Resolve(tree, if IsRooted(s) then [] else cwd, Split(s))
  {
    var start := if IsRooted(s) then [] else cwd;
    SplitSegments(s);
    assert LeadingUps(IsRooted(s), [], 0);
    ApplyAllKeepsPlace(tree, IsRooted(s), start, [], Split(s), start);
    NormalShape(s);
    RenderReads(IsRooted(s), Normal(s));
  }
}
