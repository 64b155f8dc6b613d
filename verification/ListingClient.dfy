/** The client of an asynchronous listing, _AsyncDirectoryLister: it asks for a
    response, asks for the next before it reads the one it has, and stops when it
    has read the end marker. */
module ListingClient {
  import opened Basics
  import opened PathSpec
  import opened FileTree
  import opened WalkFrames
  import opened Listing
  import opened ListingProtocol
  import opened AsyncListing
  import WalkMeaning
  import WalkErrors

  class AsyncDirectoryLister {
    /** What the stream has been given, the end marker for its end. */
    var given: seq<Event>
    var canceled: bool

    constructor ()
      ensures given == [] && !canceled
    {
      given, canceled := [], false;
    }

    /** The loop over one response. */
    method Take(result: seq<Slot>)
      requires |result| % 2 == 0
      modifies this
      ensures given == old(given) + Read(result) && canceled == (old(canceled) || Done in Read(result))
    {
      hide Read, ReadPair;
      var i := 0;
      assert result[0..] == result;
      while i < |result|
        invariant 0 <= i <= |result| && i % 2 == 0
        invariant given + Read(result[i..]) == old(given) + Read(result)
        invariant (canceled || Done in Read(result[i..])) == (old(canceled) || Done in Read(result))
      {
        ReadFirst(result, i);
        var now := ReadPair(result[i], result[i + 1]);
        given := given + now;
        if Done in now {
          canceled := true;
          return;
        }
        i := i + 2;
      }
      NothingRead(result[i..]);
    }
  }

  lemma PartIsSent(before: seq<Event>, now: seq<Event>, after: seq<Event>)
    requires AllSent(before + now + after)
    ensures AllSent(now)
  {
    var all := before + now + after;
    forall i | 0 <= i < |now| ensures now[i] == all[|before| + i] {}
  }

  /** The end marker stands last and nowhere else. */
  lemma EndIsLast(evs: seq<Event>, before: seq<Event>, after: seq<Event>)
    requires AllSent(evs) && evs != [] && evs[|evs| - 1] == Done && evs == before + after
    ensures Done in before <==> after == []
  {
    if i :| 0 <= i < |before| && before[i] == Done { assert evs[i] == Done; }
  }

  /** For each report: given to the stream if and only if it is that of an entry
      come to. */
  ghost predicate ShowsExactly(request: Request, dirName: string, given: seq<Event>)
  {
    forall s :: WalkMeaning.IsReport(s) ==>
                  (Met(s) in given <==> exists cs :: WalkMeaning.MadeBy(request, dirName, cs, s))
  }

  /** For each error: given to the stream if and only if a directory that is entered
      fails so. */
  ghost predicate FailsExactly(request: Request, dirName: string, given: seq<Event>)
  {
    forall shown :: Met(Step(AsError, shown)) in given <==> WalkErrors.ErrorAt(request, dirName, shown)
  }

  lemma FailedExactly(request: Request, dirName: string)
    requires WellFormed(request.fs) && EndsInSeparator(dirName) && |dirName| <= request.limit
    ensures FailsExactly(request, dirName, Visible(WalkRoot(request, dirName)) + [Done])
  {
    hide WellFormed, WalkRoot, Visible, Request.DirAt, Request.Cut;
    var w := WalkRoot(request, dirName);
    forall shown
      ensures Met(Step(AsError, shown)) in Visible(w) + [Done] <==> WalkErrors.ErrorAt(request, dirName, shown)
    {
      var s := Step(AsError, shown);
      VisibleExactly(w, s);
      assert Met(s) in Visible(w) <==> s in w;
      WalkErrors.ErrorsExactly(request, dirName, shown);
    }
  }

  lemma SeenExactly(request: Request, dirName: string)
    requires WellFormed(request.fs) && EndsInSeparator(dirName) && |dirName| <= request.limit
    ensures ShowsExactly(request, dirName, Visible(WalkRoot(request, dirName)) + [Done])
  {
    hide WellFormed, WalkRoot, WalkMeaning.MadeBy, Visible;
    var w := WalkRoot(request, dirName);
    forall s | WalkMeaning.IsReport(s)
      ensures Met(s) in Visible(w) + [Done] <==> exists cs :: WalkMeaning.MadeBy(request, dirName, cs, s)
    {
      VisibleExactly(w, s);
      WalkMeaning.ListedExactly(request, dirName, s);
    }
  }

  /** next: the client asks for a response, asks for the following one before it
      reads the one it has, and goes on until it has read the end marker; the last
      response, asked for before that, is empty. */
  method ReadAll(ops: AsyncDirectoryListing, size: nat) returns (given: seq<Event>)
    requires ops.Valid() && ops.listing.stack != [] && size > 0 && size % 2 == 0
    requires var evs := ops.ToCome(); AllSent(evs) && evs != [] && evs[|evs| - 1] == Done
    modifies ops, ops.slots, ops.listing, ops.listing.buffer, ops.listing.buffer.data
    ensures given == old(ops.ToCome())
  {
    hide DirectoryListing.Valid, EncodeAll, Read, AllSent, AsyncDirectoryListing.Valid, AsyncDirectoryListing.ToCome;
    var lister := new AsyncDirectoryLister();
    ghost var all := ops.ToCome();
    ghost var done: seq<Event> := [];
    var result;
    ghost var evs;
    result, evs := ops.ListNextRequest(size);
    if ops.listing.stack == [] { ops.NothingToCome(); }
    while !lister.canceled
      invariant ops.Valid() && (ops.slots == old(ops.slots) || fresh(ops.slots))
      invariant all == done + evs + ops.ToCome() && result == EncodeAll(evs)
      invariant evs == [] ==> ops.ToCome() == []
      invariant lister.given == done && lister.canceled == (Done in done)
      decreases |all| - |done|
    {
      var following;
      ghost var next;
      AboutToRead(all, done, evs, ops.ToCome());
      following, next := ops.ListNextRequest(size);
      if ops.listing.stack == [] { ops.NothingToCome(); }
      lister.Take(result);
      Regrouped(all, done, evs, next, ops.ToCome());
      done := done + evs;
      result, evs := following, next;
    }
    AboutToRead(all, done, evs, ops.ToCome());
    lister.Take(result);
    given := lister.given;
  }

  /** A response is read as what it was made from, and there is more to come until
      the end marker has been read. */
  lemma AboutToRead(all: seq<Event>, done: seq<Event>, evs: seq<Event>, later: seq<Event>)
    requires AllSent(all) && all != [] && all[|all| - 1] == Done && all == done + evs + later
    ensures Read(EncodeAll(evs)) == evs && (Done in done <==> evs + later == [])
    ensures Done in done ==> all == done + evs
  {
    hide AllSent, Read, EncodeAll;
    PartIsSent(done, evs, later);
    ReadEncoded(evs);
    assert all == done + (evs + later);
    EndIsLast(all, done, evs + later);
  }

  lemma Regrouped(all: seq<Event>, done: seq<Event>, evs: seq<Event>, next: seq<Event>, later: seq<Event>)
    requires all == done + evs + (next + later)
    ensures all == (done + evs) + next + later
  {
  }

  /** The whole listing as its client sees it, whatever the response size: the
      entries that are come to, each with its kind and path, the errors, and the
      end of the stream. */
  method Listen(request: Request, dirName: string, size: nat) returns (ok: bool, given: seq<Event>)
    requires WellFormed(request.fs) && request.root in request.fs.dirs
    requires EndsInSeparator(dirName) && NUL !in dirName
    requires |dirName| <= request.limit ==> WalkMeaning.KeepsItsWay(request, dirName)
    requires size > 0 && size % 2 == 0
    ensures ok <==> |dirName| <= request.limit
    ensures ok ==> given == Visible(WalkRoot(request, dirName)) + [Done]
    ensures ok ==> ShowsExactly(request, dirName, given) && FailsExactly(request, dirName, given)
  {
    hide WellFormed, WalkRoot, Visible, DirectoryListing.Valid, AllDefined, AllSent, ShowsExactly, FailsExactly,
         AsyncDirectoryListing.Valid, AsyncDirectoryListing.ToCome, WalkMeaning.KeepsItsWay;
    var ops := ListStartRequest(request, dirName);
    if ops == null {
      return false, [];
    }
    WalkMeaning.DefinedExactly(request, dirName);
    VisibleIsSent(WalkRoot(request, dirName));
    SeenExactly(request, dirName);
    FailedExactly(request, dirName);
    given := ReadAll(ops, size);
    ok := true;
  }
}
