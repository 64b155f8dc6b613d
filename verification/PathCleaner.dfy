/** File::CleanUnixPath: one pass over the input with a read index and a write
    index into a caller's buffer, backing the write index up over a component
    when it meets `..`. Proved to compute `PathSpec.Clean`. */
module PathCleaner {
  import opened Basics
  import opened PathSpec

  predicate IsSeparator(c: char) { c == '/' || c == NUL }

  lemma BodyPush(rooted: bool, stack: Components, c: string)
    ensures Body(rooted, stack + [c]) == Body(rooted, stack) + (if stack == [] then "" else "/") + c
  {
    assert (stack + [c])[..|stack|] == stack;
  }

  lemma {:induction false} BodyGrows(rooted: bool, stack: Components, n: nat)
    requires n <= |stack|
    ensures |Body(rooted, stack[..n])| <= |Body(rooted, stack)|
    decreases |stack|
  {
    if n == |stack| {
      assert stack[..n] == stack;
    } else {
      var front, c := stack[..|stack| - 1], stack[|stack| - 1];
      assert stack == front + [c] && stack[..n] == front[..n];
      BodyPush(rooted, front, c);
      BodyGrows(rooted, front, n);
    }
  }

  /** Nothing but the root has been written exactly while the stack is empty. */
  lemma BodyEmpty(rooted: bool, stack: Components)
    requires forall c :: c in stack ==> IsSegment(c)
    ensures |Body(rooted, stack)| == (if rooted then 1 else 0) <==> stack == []
  {
    if stack != [] { JoinHead(stack); }
  }

  /** The next component of the unread input and what is left after it. */
  lemma NextComponent(s: string, i: nat, j: nat)
    requires i < j <= |s|
    requires '/' !in s[i..j]
    requires j == |s| || s[j] == '/'
    ensures Split(s[i..]) == [s[i..j]] + Split(s[j..])
  {
    assert s[i..] == s[i..j] + s[j..];
    SplitPrefix(s[i..j], s[j..]);
  }

  /** Reading a component applies it to the stack. */
  lemma ReadComponent(s: string, rooted: bool, i: nat, j: nat, stack: Components)
    requires i < j <= |s| && '/' !in s[i..j] && (j == |s| || s[j] == '/')
    ensures ApplyAll(rooted, stack, Split(s[i..])) == ApplyAll(rooted, Apply(rooted, stack, s[i..j]), Split(s[j..]))
  {
    NextComponent(s, i, j);
    hide Split, Apply;
    assert ([s[i..j]] + Split(s[j..]))[1..] == Split(s[j..]);
  }

  /** Everything the outer loop keeps about its indices. */
  predicate Positions(s: string, rooted: bool, i: nat, o: nat, outlen: nat)
  {
    && o <= i <= |s|
    && (i < outlen || i == if rooted then 1 else 0)
    && (rooted ==> 1 <= o)
    && (i < |s| && s[i] != '/' ==>
          (o < i || o == (if rooted then 1 else 0)) && (i == 0 || s[i - 1] == '/'))
  }

  /** What the outer loop keeps about what it has written: the text is the
      rendering of a normalised stack, `dotdot` the end of its leading `..` run,
      and the unread input takes that stack to the normal form of the whole. */
  ghost predicate Kept(s: string, rooted: bool, i: nat, text: string, dotdot: nat, stack: Components, ups: nat)
  {
    && i <= |s|
    && text == Body(rooted, stack)
    && LeadingUps(rooted, stack, ups)
    && dotdot == |Body(rooted, stack[..ups])|
    && ApplyAll(rooted, stack, Split(s[i..])) == Normal(s)
  }

  lemma KeptUps(s: string, rooted: bool, i: nat, text: string, dotdot: nat, stack: Components, ups: nat)
    requires Kept(s, rooted, i, text, dotdot, stack, ups)
    ensures forall c :: c in stack ==> IsSegment(c)
    ensures dotdot <= |text| && ups <= |stack|
    ensures |text| > dotdot <==> |stack| > ups
  {
    assert Normalised(rooted, stack);
    NormalisedSegments(rooted, stack);
    if |stack| > ups {
      var front, c := stack[..|stack| - 1], stack[|stack| - 1];
      assert stack == front + [c] && front[..ups] == stack[..ups];
      BodyPush(rooted, front, c);
      BodyGrows(rooted, front, ups);
    } else {
      assert stack[..ups] == stack;
    }
  }

  lemma KeptStart(s: string)
    requires s != ""
    ensures var rooted := IsRooted(s);
            Kept(s, rooted, if rooted then 1 else 0, if rooted then "/" else "", if rooted then 1 else 0, [], 0)
  {
    assert s[0..] == s;
    assert IsRooted(s) ==> Split(s) == Split(s[1..]);
  }

  lemma KeptEnd(s: string, text: string, dotdot: nat, stack: Components, ups: nat)
    requires Kept(s, IsRooted(s), |s|, text, dotdot, stack, ups)
    ensures Clean(s) == if text == "" then DOT else text
  {
    assert s[|s|..] == "";
    KeptUps(s, IsRooted(s), |s|, text, dotdot, stack, ups);
    BodyEmpty(IsRooted(s), stack);
  }

  lemma KeptPop(s: string, rooted: bool, i: nat, text: string, dotdot: nat, stack: Components, ups: nat)
    requires Kept(s, rooted, i, text, dotdot, stack, ups)
    requires i + 2 <= |s| && s[i..i + 2] == DOTDOT && (i + 2 == |s| || s[i + 2] == '/')
    requires |stack| > ups
    ensures var front := stack[..|stack| - 1];
            Kept(s, rooted, i + 2, Body(rooted, front), dotdot, front, ups)
  {
    hide Split, ApplyAll, Normal, Body;
    var front := stack[..|stack| - 1];
    ReadComponent(s, rooted, i, i + 2, stack);
    assert Apply(rooted, stack, DOTDOT) == front;
    assert front[..ups] == stack[..ups];
  }

  lemma PoppedText(s: string, rooted: bool, i: nat, text: string, dotdot: nat, stack: Components, ups: nat)
    requires Kept(s, rooted, i, text, dotdot, stack, ups)
    requires |stack| > ups
    ensures var front := stack[..|stack| - 1];
            && text == Body(rooted, front) + (if front == [] then "" else "/") + stack[|stack| - 1]
            && dotdot <= |Body(rooted, front)|
            && (front == [] ==> dotdot == |Body(rooted, front)|)
  {
    hide ApplyAll, Normal, Split, LeadingUps;
    var front, c := stack[..|stack| - 1], stack[|stack| - 1];
    assert ups <= |front| by { KeptUps(s, rooted, i, text, dotdot, stack, ups); }
    assert stack == front + [c] && front[..ups] == stack[..ups];
    BodyPush(rooted, front, c);
    BodyGrows(rooted, front, ups);
    assert front == [] ==> front[..ups] == [];
  }

  lemma KeptStay(s: string, rooted: bool, i: nat, j: nat, text: string, dotdot: nat, stack: Components, ups: nat)
    requires Kept(s, rooted, i, text, dotdot, stack, ups)
    requires i < j <= |s|
    requires || (j == i + 1 && s[i] == '/')
             || (s[i..j] == DOT && (j == |s| || s[j] == '/'))
             || (s[i..j] == DOTDOT && (j == |s| || s[j] == '/') && rooted && |stack| == ups)
    ensures Kept(s, rooted, j, text, dotdot, stack, ups)
  {
    assert s[i..j][0] == s[i];
    if s[i] == '/' {
      assert j == i + 1 && s[i..][1..] == s[j..];
      assert Split(s[i..]) == Split(s[j..]);
    } else {
      ReadComponent(s, rooted, i, j, stack);
    }
  }

  function Separated(rooted: bool, text: string): string
  {
    if |text| == (if rooted then 1 else 0) then text else text + "/"
  }

  lemma SeparatedPush(s: string, rooted: bool, i: nat, text: string, dotdot: nat, stack: Components, ups: nat,
                      c: string)
    requires Kept(s, rooted, i, text, dotdot, stack, ups)
    ensures Body(rooted, stack + [c]) == Separated(rooted, text) + c
  {
    BodyPush(rooted, stack, c);
    KeptUps(s, rooted, i, text, dotdot, stack, ups);
    BodyEmpty(rooted, stack);
  }

  lemma KeptName(s: string, rooted: bool, i: nat, j: nat, text: string, dotdot: nat, stack: Components, ups: nat)
    requires Kept(s, rooted, i, text, dotdot, stack, ups)
    requires i < j <= |s| && (j == |s| || s[j] == '/') && IsOrdinary(s[i..j])
    ensures Kept(s, rooted, j, Separated(rooted, text) + s[i..j], dotdot, stack + [s[i..j]], ups)
  {
    hide Split, ApplyAll, Normal, Body;
    ReadComponent(s, rooted, i, j, stack);
    SeparatedPush(s, rooted, i, text, dotdot, stack, ups, s[i..j]);
    assert (stack + [s[i..j]])[..ups] == stack[..ups];
    assert LeadingUps(rooted, stack + [s[i..j]], ups);
  }

  lemma KeptUp(s: string, i: nat, text: string, dotdot: nat, stack: Components, ups: nat)
    requires Kept(s, false, i, text, dotdot, stack, ups)
    requires i + 2 <= |s| && (i + 2 == |s| || s[i + 2] == '/') && s[i..i + 2] == DOTDOT
    requires |stack| == ups
    ensures var text' := Separated(false, text) + DOTDOT;
            Kept(s, false, i + 2, text', |text'|, stack + [DOTDOT], ups + 1)
  {
    hide Split, ApplyAll, Normal, Body;
    ReadComponent(s, false, i, i + 2, stack);
    SeparatedPush(s, false, i, text, dotdot, stack, ups, DOTDOT);
    assert (stack + [DOTDOT])[..ups + 1] == stack + [DOTDOT];
    assert LeadingUps(false, stack + [DOTDOT], ups + 1);
  }

  lemma NotSpecial(s: string, i: nat, j: nat)
    requires i < j <= |s| && '/' !in s[i..j] && (j == |s| || s[j] == '/')
    requires !(s[i] == '.' && IsSeparator(CharAt(s, i + 1)))
    requires !(s[i] == '.' && CharAt(s, i + 1) == '.' && IsSeparator(CharAt(s, i + 2)))
    ensures IsOrdinary(s[i..j])
  {
    var c := s[i..j];
    assert c[0] == s[i] && |c| == j - i;
    assert |c| > 1 ==> c[1] == s[i + 1];
  }

  /** `..` after an ordinary component: the write index back over it. */
  method BackUp(s: string, rooted: bool, i: nat, out: array<char>, o: nat, dotdot: nat,
                ghost stack: Components, ghost ups: nat)
    returns (o': nat)
    requires o <= out.Length && dotdot < o
    requires Kept(s, rooted, i, out[..o], dotdot, stack, ups)
    requires i + 2 <= |s| && s[i..i + 2] == DOTDOT && (i + 2 == |s| || s[i + 2] == '/')
    ensures dotdot <= o' < o && stack != []
    ensures Kept(s, rooted, i + 2, out[..o'], dotdot, stack[..|stack| - 1], ups)
  {
    hide Kept;
    KeptUps(s, rooted, i, out[..o], dotdot, stack, ups);
    KeptPop(s, rooted, i, out[..o], dotdot, stack, ups);
    PoppedText(s, rooted, i, out[..o], dotdot, stack, ups);
    ghost var front, c := Body(rooted, stack[..|stack| - 1]), stack[|stack| - 1];
    ghost var sep := if |stack| == 1 then "" else "/";
    o' := o - 1;
    while o' > dotdot && out[o'] != '/'
      invariant |front| <= o' < o
    {
      assert out[o'] == out[..o][o'];
      o' := o' - 1;
    }
    forall k | |front| + |sep| <= k < o ensures out[k] != '/' {
      assert out[k] == out[..o][k] == c[k - |front| - |sep|];
      assert c in stack && c[k - |front| - |sep|] in c;
    }
    assert out[..o'] == front;
  }

  /** `..` with nothing to cancel in a relative path: written out. */
  method WriteUp(out: array<char>, o: nat) returns (o': nat)
    requires o + (if o == 0 then 2 else 3) <= out.Length
    modifies out
    ensures o' == o + (if o == 0 then 2 else 3)
    ensures out[..o'] == Separated(false, old(out[..o])) + DOTDOT
    ensures forall k :: o' <= k < out.Length ==> out[k] == old(out[k])
  {
    o' := o;
    if o' > 0 {
      out[o'] := '/';
      o' := o' + 1;
    }
    assert out[..o'] == Separated(false, old(out[..o]));
    out[o'], out[o' + 1] := '.', '.';
    o' := o' + 2;
  }

  /** An ordinary component: a separator where one is needed, then the
      characters up to the next separator, or out of room. */
  method WriteName(s: string, rooted: bool, out: array<char>, outlen: nat, i: nat, o: nat)
    returns (ok: bool, j: nat, o': nat)
    requires NUL !in s && outlen <= out.Length && o <= out.Length
    requires i < |s| && s[i] != '/' && Positions(s, rooted, i, o, outlen)
    modifies out
    ensures i <= j <= |s| && o <= o' <= j && '/' !in s[i..j] && o' <= out.Length
    ensures ok ==> i < j < outlen && (j == |s| || s[j] == '/')
    ensures !ok ==> j < |s| && j + 1 >= outlen
    ensures out[..o'] == Separated(rooted, old(out[..o])) + s[i..j]
    ensures forall k :: o' <= k < out.Length || (o <= k < out.Length && outlen <= k) ==> out[k] == old(out[k])
  {
    o' := o;
    if (rooted && o != 1) || (!rooted && o != 0) {
      out[o'] := '/';
      o' := o' + 1;
    }
    assert out[..o'] == Separated(rooted, old(out[..o]));
    ok, j, o' := CopyName(s, out, outlen, i, o');
  }

  method CopyName(s: string, out: array<char>, outlen: nat, i: nat, o: nat) returns (ok: bool, j: nat, o': nat)
    requires NUL !in s && outlen <= out.Length
    requires i < |s| && s[i] != '/' && o <= i && o <= out.Length
    modifies out
    ensures i <= j <= |s| && o' == o + (j - i) <= out.Length && '/' !in s[i..j]
    ensures ok ==> i < j < outlen && (j == |s| || s[j] == '/')
    ensures !ok ==> j < |s| && j + 1 >= outlen
    ensures out[..o'] == old(out[..o]) + s[i..j]
    ensures forall k :: o' <= k < out.Length || (o <= k < out.Length && outlen <= k) ==> out[k] == old(out[k])
  {
    j, o' := i, o;
    while !IsSeparator(CharAt(s, j))
      invariant i <= j <= |s| && o' == o + (j - i) <= out.Length && '/' !in s[i..j]
      invariant if j == i then !IsSeparator(CharAt(s, j)) else j < outlen
      invariant out[..o'] == old(out[..o]) + s[i..j]
      invariant forall k :: o' <= k < out.Length || (o <= k < out.Length && outlen <= k) ==> out[k] == old(out[k])
      decreases |s| - j
    {
      if j + 1 >= outlen { return false, j, o'; }
      out[o'] := s[j];
      o', j := o' + 1, j + 1;
    }
    return true, j, o';
  }

  /** The three cases of a `..` component. */
  method CleanUp(s: string, rooted: bool, i: nat, out: array<char>, outlen: nat, o: nat, dotdot: nat,
                 ghost stack: Components, ghost ups: nat)
    returns (o': nat, dotdot': nat, ghost stack': Components, ghost ups': nat)
    requires outlen <= out.Length && Positions(s, rooted, i, o, outlen) && i + 2 < outlen
    requires rooted ==> 1 <= dotdot
    requires Kept(s, rooted, i, out[..o], dotdot, stack, ups)
    requires i + 2 <= |s| && s[i..i + 2] == DOTDOT && (i + 2 == |s| || s[i + 2] == '/')
    modifies out
    ensures o' <= i + 2 && (rooted ==> 1 <= o' && 1 <= dotdot')
    ensures Kept(s, rooted, i + 2, out[..o'], dotdot', stack', ups')
    ensures forall k :: outlen <= k < out.Length ==> out[k] == old(out[k])
  {
    hide Kept;
    KeptUps(s, rooted, i, out[..o], dotdot, stack, ups);
    o', dotdot', stack', ups' := o, dotdot, stack, ups;
    if o > dotdot {
      o' := BackUp(s, rooted, i, out, o, dotdot, stack, ups);
      stack' := stack[..|stack| - 1];
    } else if rooted {
      KeptStay(s, rooted, i, i + 2, out[..o], dotdot, stack, ups);
    } else {
      KeptUp(s, i, out[..o], dotdot, stack, ups);
      o' := WriteUp(out, o);
      dotdot' := o';
      stack', ups' := stack + [DOTDOT], ups + 1;
    }
  }

  /** snprintf(out, outlen, "."). */
  method WriteDot(out: array<char>, outlen: nat)
    requires outlen <= out.Length
    modifies out
    ensures 2 <= outlen ==> out[..1] == DOT && out[1] == NUL
    ensures outlen == 1 ==> out[0] == NUL
    ensures forall k :: outlen <= k < out.Length ==> out[k] == old(out[k])
  {
    if outlen > 1 { out[0] := '.'; }
    if outlen > 0 { out[if outlen > 1 then 1 else 0] := NUL; }
  }

  /** What is written whatever `outlen` says: the root, and its terminator. */
  function Unchecked(s: string): nat { if s == "/" then 2 else if IsRooted(s) then 1 else 0 }

  /** The value returned: the length of the input decides, not that of the
      result. The empty path and the root are never refused. */
  function Returned(s: string, outlen: nat): int
  {
    if |s| >= outlen && s != "" && s != "/" then -1 else |Clean(s)|
  }

  method CleanUnixPath(s: string, out: array<char>, outlen: nat) returns (r: int)
    requires NUL !in s
    requires outlen <= out.Length && Unchecked(s) <= out.Length
    modifies out
    ensures r == Returned(s, outlen)
    ensures r != -1 && (outlen > 1 || s == "/") ==> 0 <= r < out.Length && out[..r] == Clean(s) && out[r] == NUL
    ensures r != -1 && outlen > 1 ==> r < outlen
    ensures forall k :: outlen <= k < out.Length && Unchecked(s) <= k ==> out[k] == old(out[k])
  {
    hide Kept;
    if CharAt(s, 0) == NUL {
      assert Clean(s) == DOT;
      WriteDot(out, outlen);
      return 1;
    }
    var rooted := IsRooted(s);
    var i, o: nat := 0, 0;
    if rooted {
      out[0] := '/';
      i, o := 1, 1;
    }
    var dotdot := o;
    ghost var stack: Components, ups: nat := [], 0;
    assert out[..o] == if rooted then "/" else "";
    KeptStart(s);

    while CharAt(s, i) != NUL
      invariant Positions(s, rooted, i, o, outlen)
      invariant o <= out.Length && (rooted ==> 1 <= dotdot)
      invariant Kept(s, rooted, i, out[..o], dotdot, stack, ups)
      invariant forall k :: outlen <= k < out.Length && Unchecked(s) <= k ==> out[k] == old(out[k])
      decreases |s| - i
    {
      KeptUps(s, rooted, i, out[..o], dotdot, stack, ups);
      if s[i] == '/' {
        if i + 1 >= outlen { return -1; }
        KeptStay(s, rooted, i, i + 1, out[..o], dotdot, stack, ups);
        i := i + 1;
      } else if s[i] == '.' && IsSeparator(CharAt(s, i + 1)) {
        if i + 1 >= outlen { return -1; }
        KeptStay(s, rooted, i, i + 1, out[..o], dotdot, stack, ups);
        i := i + 1;
      } else if s[i] == '.' && CharAt(s, i + 1) == '.' && IsSeparator(CharAt(s, i + 2)) {
        if i + 2 >= outlen { return -1; }
        o, dotdot, stack, ups := CleanUp(s, rooted, i, out, outlen, o, dotdot, stack, ups);
        i := i + 2;
      } else {
        ghost var text := out[..o];
        var ok, j;
        ok, j, o := WriteName(s, rooted, out, outlen, i, o);
        if !ok { return -1; }
        NotSpecial(s, i, j);
        KeptName(s, rooted, i, j, text, dotdot, stack, ups);
        stack := stack + [s[i..j]];
        i := j;
      }
    }
    KeptEnd(s, out[..o], dotdot, stack, ups);
    if o == 0 {
      WriteDot(out, outlen);
      return 1;
    }
    out[o] := NUL;
    return o;
  }

  // ---------------------------------------------------------------- code and documentation

  /** The header: -1 if the result does not fit, and otherwise its length. */
  function Documented(s: string, outlen: nat): int
  {
    if |Clean(s)| >= outlen then -1 else |Clean(s)|
  }

  /** Code and documentation agree exactly when the buffer holds the input or
      not even the result. */
  lemma AgreesExactly(s: string, outlen: nat)
    ensures Returned(s, outlen) == Documented(s, outlen) <==>
            if s == "" || s == "/" then outlen > 1 else |s| < outlen || outlen <= |Clean(s)|
  {
    CleanNoLonger(s);
    if s == "/" { assert Split("/") == []; }
  }

  /** A result that fits is refused. */
  lemma RefusesTooMuch()
    ensures Clean("a/..") == "." && Returned("a/..", 2) == -1 && Documented("a/..", 2) == 1
  {
    SplitAtSeparator("a", "..");
    SplitPrefix("a", "");
    SplitPrefix("..", "");
    assert "a" + "/" + ".." == "a/.." && "a" + "" == "a" && ".." + "" == "..";
    assert Split("a/..") == ["a", ".."];
    assert ["a", ".."][1..] == [".."] && ApplyAll(false, ["a"], [".."]) == [];
  }
}
