/** The response items of an asynchronous listing: how the native side writes
    them and how the client reads them. */
module ListingProtocol {
  import opened FileTree
  import opened WalkFrames

  /** One CObject of a response array. */
  datatype Slot = Int32(code: int) | Bytes(text: string) | Null | OSError(path: string)

  /** AsyncDirectoryListing::Response. */
  function Code(kind: StepKind): int
  {
    match kind
    case AsFile => 0
    case AsDirectory => 1
    case AsLink => 2
    case AsError => 3
    case Skip => 4
    case Pop => 4
    case Astray => 4
  }

  function Encode(ev: Event): (s: seq<Slot>)
    ensures |s| == 2
  {
    match ev
    case Done => [Int32(4), Null]
    case Met(Step(kind, path)) => [Int32(Code(kind)), if kind == AsError then OSError(path) else Bytes(path)]
  }

  function EncodeAll(evs: seq<Event>): (s: seq<Slot>)
    ensures |s| == 2 * |evs|
  {
    if evs == [] then [] else EncodeAll(evs[..|evs| - 1]) + Encode(evs[|evs| - 1])
  }

  lemma {:induction false} EncodeAppend(a: seq<Event>, b: seq<Event>)
    ensures EncodeAll(a + b) == EncodeAll(a) + EncodeAll(b)
    decreases |b|
  {
    if b == [] {
      assert a + b == a;
    } else {
      assert (a + b)[..|a + b| - 1] == a + b[..|b| - 1];
      EncodeAppend(a, b[..|b| - 1]);
    }
  }

  lemma EncodeOne(ev: Event)
    ensures EncodeAll([ev]) == Encode(ev) && EncodeAll([]) == []
  {
    assert [ev][..0] == [];
  }

  function Concat(rs: seq<seq<Slot>>): seq<Slot>
  {
    if rs == [] then [] else Concat(rs[..|rs| - 1]) + rs[|rs| - 1]
  }

  lemma ConcatPush(rs: seq<seq<Slot>>, r: seq<Slot>, evs: seq<Event>, now: seq<Event>)
    requires Concat(rs) == EncodeAll(evs) && r == EncodeAll(now)
    ensures Concat(rs + [r]) == EncodeAll(evs + now)
  {
    EncodeAppend(evs, now);
    assert (rs + [r])[..|rs|] == rs;
  }

  ghost predicate AllFull(rs: seq<seq<Slot>>, size: nat)
  {
    forall i :: 0 <= i < |rs| ==> |rs[i]| == size
  }

  lemma ConcatNone()
    ensures Concat([]) == EncodeAll([])
  {
  }

  // ---------------------------------------------------------------- the client's side

  const LIST_FILE := 0
  const LIST_DIRECTORY := 1
  const LIST_LINK := 2
  const LIST_ERROR := 3
  const LIST_DONE := 4

  /** What one pair of items tells the client; nothing if it is of no kind that
      the client knows. */
  function ReadPair(code: Slot, item: Slot): seq<Event>
  {
    match code
    case Int32(c) =>
      if c == LIST_DONE then [Done]
      else if c == LIST_ERROR && item.OSError? then [Met(Step(AsError, item.path))]
      else if c == LIST_FILE && item.Bytes? then [Met(Step(AsFile, item.text))]
      else if c == LIST_DIRECTORY && item.Bytes? then [Met(Step(AsDirectory, item.text))]
      else if c == LIST_LINK && item.Bytes? then [Met(Step(AsLink, item.text))]
      else []
    case _ => []
  }

  /** What the client takes from a response: its pairs in turn, up to the end
      marker. */
  function Read(result: seq<Slot>): seq<Event>
  {
    if |result| < 2 then []
    else
      var now := ReadPair(result[0], result[1]);
      if Done in now then now else now + Read(result[2..])
  }

  /** An entry, an error or the end marker: what responses can carry. */
  predicate IsSent(ev: Event) { ev.Met? ==> ev.step.kind in {AsFile, AsDirectory, AsLink, AsError} }

  /** All can be carried, and nothing follows the end marker. */
  predicate AllSent(evs: seq<Event>)
  {
    && (forall i :: 0 <= i < |evs| ==> IsSent(evs[i]))
    && (forall i :: 0 <= i < |evs| - 1 ==> evs[i] != Done)
  }

  lemma ReadFirst(result: seq<Slot>, i: nat)
    requires i + 2 <= |result|
    ensures var now := ReadPair(result[i], result[i + 1]);
            Read(result[i..]) == if Done in now then now else now + Read(result[i + 2..])
  {
    var rest := result[i..];
    assert rest[0] == result[i] && rest[1] == result[i + 1] && rest[2..] == result[i + 2..];
  }

  lemma NothingRead(result: seq<Slot>)
    requires |result| < 2
    ensures Read(result) == []
  {
  }

  lemma ReadOne(ev: Event)
    requires IsSent(ev)
    ensures |Encode(ev)| == 2 && ReadPair(Encode(ev)[0], Encode(ev)[1]) == [ev] && Read(Encode(ev)) == [ev]
  {
  }

  /** The client reads back exactly the events that were written. */
  lemma {:induction false} ReadEncoded(evs: seq<Event>)
    requires AllSent(evs)
    ensures Read(EncodeAll(evs)) == evs
  {
    hide Read, ReadPair, Encode, EncodeAll;
    EncodeOne(Done);
    if evs == [] {
      NothingRead([]);
    } else {
      var first, rest, all := evs[0], evs[1..], EncodeAll(evs);
      assert evs == [first] + rest && IsSent(first);
      EncodeAppend([first], rest);
      EncodeOne(first);
      ReadOne(first);
      assert all == Encode(first) + EncodeAll(rest);
      assert all[0..] == all && all[2..] == EncodeAll(rest);
      ReadFirst(all, 0);
      ReadEncoded(rest);
    }
  }

  /** A walk that keeps its way is told by items the client knows. */
  lemma {:induction false} VisibleIsSent(w: seq<Step>)
    requires AllDefined(w)
    ensures AllSent(Visible(w) + [Done])
  {
    if w != [] {
      assert w[0] in w;
      DefinedTail(w, [w[0]], w[1..]);
      VisibleIsSent(w[1..]);
      var shown, rest := Visible(w) + [Done], Visible(w[1..]) + [Done];
      if !IsSilent(w[0]) { assert shown == [Met(w[0])] + rest; } else { assert shown == rest; }
    }
  }
}
