/** The asynchronous listing: responses of a bounded size, filled by running
    the walk until the response is full, and resumed by the next request. */
module AsyncListing {
  import opened Basics
  import opened PathSpec
  import opened FileTree
  import opened WalkFrames
  import opened PathBuffers
  import opened Listing
  import opened LinkChains
  import opened ListingProtocol
  import WalkMeaning

  class AsyncDirectoryListing {
    const listing: DirectoryListing
    var slots: array<Slot>
    var index: nat
    var length: nat

    ghost predicate Valid()
      reads listing, listing.buffer, listing.buffer.data
    {
      listing.Valid() && listing.Regular()
    }

    /** The events that all further responses together will carry. */
    ghost function ToCome(): seq<Event>
      requires Valid()
      reads listing, listing.buffer, listing.buffer.data
    {
      Remaining(listing.request, listing.frames)
    }

    lemma NothingToCome()
      requires Valid() && listing.stack == []
      ensures ToCome() == []
    {
    }

    constructor (request: Request, dirName: string)
      requires WellFormed(request.fs) && request.root in request.fs.dirs
      requires EndsInSeparator(dirName) && NUL !in dirName
      requires |dirName| <= request.limit ==> WalkMeaning.KeepsItsWay(request, dirName)
      ensures fresh(listing) && fresh(listing.buffer) && fresh(listing.buffer.data) && fresh(slots)
      ensures listing.error <==> |dirName| > request.limit
      ensures listing.request == request && listing.made == {}
      ensures !listing.error ==>
                && Valid() && listing.stack != []
                && ToCome() == Visible(WalkRoot(request, dirName)) + [Done]
    {
      hide WalkRoot, Pending, AllDefined, Visible, WalkMeaning.KeepsItsWay;
      if |dirName| <= request.limit { WalkMeaning.DefinedExactly(request, dirName); }
      listing := new DirectoryListing(request, dirName);
      slots := new Slot[0];
      index, length := 0, 0;
    }

    method SetArray(array_: array<Slot>, length: nat)
      requires length % 2 == 0 && length <= array_.Length
      modifies this
      ensures slots == array_ && index == 0 && this.length == length
    {
      slots, index, this.length := array_, 0, length;
    }

    lemma StillOwned()
      requires Valid()
      ensures listing.Valid()
    {
    }

    /** Two slots for one event; says whether another one fits. */
    method Respond(ev: Event) returns (more: bool)
      requires index + 2 <= length <= slots.Length
      modifies this`index, slots
      ensures index == old(index) + 2 && slots[..index] == old(slots[..index]) + Encode(ev)
      ensures IsSent(ev) ==> Read(slots[index - 2..index]) == [ev]
      ensures more <==> index < length
    {
      hide Encode, Read;
      slots[index] := Encode(ev)[0];
      index := index + 1;
      slots[index] := Encode(ev)[1];
      index := index + 1;
      assert slots[index - 2..index] == Encode(ev);
      if IsSent(ev) { ReadOne(ev); }
      return index < length;
    }

    /** One step of the walk taken off what is to come. */
    method Walk() returns (kind: StepKind, ghost evs: seq<Event>)
      requires Valid() && listing.stack != []
      modifies listing, listing.buffer, listing.buffer.data
      ensures Valid() && old(ToCome()) == evs + ToCome()
      ensures evs == if kind.Pop? then (if listing.stack == [] then [Done] else [])
                     else [Met(Step(kind, listing.buffer.text))]
      ensures listing.stack == [] ==> kind.Pop?
      ensures |listing.Todo()| < |old(listing.Todo())|
      ensures old(listing.made) <= listing.made && old(listing.freed) <= listing.freed
    {
      hide FramesOk, ChainsOk, LinksAgree, PathBuffer.Valid, Pending, Remaining, AllDefined;
      ghost var before := listing.frames;
      ghost var skipped;
      kind, skipped := listing.Advance();
      StepRemaining(listing.request, before, listing.frames, skipped, Step(kind, listing.buffer.text));
      evs := if kind.Pop? then (if listing.stack == [] then [Done] else []) else [Met(Step(kind, listing.buffer.text))];
    }

    /** ListNext: one step of the walk and what is reported of it. */
    method ListNext() returns (more: bool, ghost evs: seq<Event>)
      requires Valid() && listing.stack != []
      requires index + 2 <= length <= slots.Length
      modifies this`index, slots, listing, listing.buffer, listing.buffer.data
      ensures Valid() && old(ToCome()) == evs + ToCome() && |evs| <= 1
      ensures index == old(index) + 2 * |evs| && slots[..index] == old(slots[..index]) + EncodeAll(evs)
      ensures more ==> listing.stack != [] && (evs != [] ==> index < length)
      ensures !more ==> listing.stack == [] || index >= length
      ensures |listing.Todo()| < |old(listing.Todo())|
      ensures old(listing.made) <= listing.made && old(listing.freed) <= listing.freed
    {
      hide DirectoryListing.Owned, DirectoryListing.Regular, DirectoryListing.Todo, Remaining, Encode,
           PathBuffer.Valid, SharesText;
      EncodeOne(Done);
      var kind;
      kind, evs := Walk();
      if kind.Pop? {
        if listing.stack != [] { return true, evs; }
        more := Respond(Done);
        return false, evs;
      }
      var path := listing.buffer.AsString();
      EncodeOne(Met(Step(kind, path)));
      more := Respond(Met(Step(kind, path)));
    }

    /** Directory::List: runs the walk until the response is full or the walk
        is over. */
    method List() returns (ghost evs: seq<Event>)
      requires Valid() && listing.stack != []
      requires index == 0 < length <= slots.Length && length % 2 == 0
      modifies this`index, slots, listing, listing.buffer, listing.buffer.data
      ensures Valid() && old(ToCome()) == evs + ToCome()
      ensures index <= length && slots[..index] == EncodeAll(evs)
      ensures listing.stack != [] ==> index == length
      ensures old(listing.made) <= listing.made && old(listing.freed) <= listing.freed
    {
      hide *;
      evs := [];
      var more := true;
      while more
        invariant Valid() && old(ToCome()) == evs + ToCome()
        invariant old(listing.made) <= listing.made && old(listing.freed) <= listing.freed
        invariant index == 2 * |evs| && index <= length && slots[..index] == EncodeAll(evs)
        invariant more ==> listing.stack != [] && index < length
        invariant !more ==> listing.stack == [] || index == length
        decreases |listing.Todo()|, more
      {
        ghost var now;
        more, now := ListNext();
        EncodeAppend(evs, now);
        evs := evs + now;
      }
    }

    /** ListNextRequest, for a response array of any even size. */
    method ListNextRequest(size: nat) returns (response: seq<Slot>, ghost evs: seq<Event>)
      requires Valid() && size > 0 && size % 2 == 0
      modifies this, slots, listing, listing.buffer, listing.buffer.data
      ensures slots == old(slots) || fresh(slots)
      ensures Valid() && old(ToCome()) == evs + ToCome()
      ensures response == EncodeAll(evs) && |response| <= size
      ensures listing.stack != [] ==> |response| == size
      ensures old(listing.made) <= listing.made && old(listing.freed) <= listing.freed
    {
      hide *;
      if listing.stack == [] {
        return [], [];
      }
      var fresh_ := new Slot[size](_ => Null);
      SetArray(fresh_, size);
      evs := List();
      response := slots[..index];
    }
  }

  /** A client that keeps asking until the walk is over. */
  method Drain(listing: AsyncDirectoryListing, size: nat) returns (responses: seq<seq<Slot>>)
    requires listing.Valid() && size > 0 && size % 2 == 0 && listing.listing.stack != []
    modifies listing, listing.slots, listing.listing, listing.listing.buffer, listing.listing.buffer.data
    ensures Concat(responses) == EncodeAll(old(listing.ToCome()))
    ensures responses != [] && AllFull(responses[..|responses| - 1], size) && |responses[|responses| - 1]| <= size
  {
    hide DirectoryListing.Valid, Remaining, Concat, EncodeAll, AsyncDirectoryListing.Valid;
    ghost var all := listing.ToCome();
    var last;
    ghost var evs;
    last, evs := listing.ListNextRequest(size);
    responses := [];
    ghost var before: seq<Event> := [];
    ConcatNone();
    while listing.listing.stack != []
      invariant listing.Valid() && (listing.slots == old(listing.slots) || fresh(listing.slots))
      invariant all == before + evs + listing.ToCome() && last == EncodeAll(evs)
      invariant Concat(responses) == EncodeAll(before) && AllFull(responses, size)
      invariant |last| <= size && (listing.listing.stack != [] ==> |last| == size)
      decreases |listing.ToCome()|, listing.listing.stack != []
    {
      ConcatPush(responses, last, before, evs);
      responses, before := responses + [last], before + evs;
      last, evs := listing.ListNextRequest(size);
    }
    ConcatPush(responses, last, before, evs);
    listing.NothingToCome();
    assert before + evs + [] == before + evs;
    responses := responses + [last];
  }

  /** ListStartRequest: a listing, unless the root's path does not fit. */
  method ListStartRequest(request: Request, dirName: string) returns (listing: AsyncDirectoryListing?)
    requires WellFormed(request.fs) && request.root in request.fs.dirs
    requires EndsInSeparator(dirName) && NUL !in dirName
    requires |dirName| <= request.limit ==> WalkMeaning.KeepsItsWay(request, dirName)
    ensures listing == null <==> |dirName| > request.limit
    ensures listing != null ==>
              && fresh(listing) && fresh(listing.listing) && fresh(listing.slots)
              && fresh(listing.listing.buffer) && fresh(listing.listing.buffer.data)
              && listing.Valid() && listing.listing.stack != [] && listing.listing.made == {}
              && listing.ToCome() == Visible(WalkRoot(request, dirName)) + [Done]
  {
    hide WalkRoot, Visible, DirectoryListing.Valid, Remaining, AllDefined;
    var started := new AsyncDirectoryListing(request, dirName);
    return if started.listing.error then null else started;
  }

  /** Pausing is invisible: whatever the response size, the responses joined are
      the one listing of the reference walk, and each but the last is full. */
  method ListAll(request: Request, dirName: string, size: nat) returns (ok: bool, responses: seq<seq<Slot>>)
    requires WellFormed(request.fs) && request.root in request.fs.dirs
    requires EndsInSeparator(dirName) && NUL !in dirName
    requires |dirName| <= request.limit ==> WalkMeaning.KeepsItsWay(request, dirName)
    requires size > 0 && size % 2 == 0
    ensures ok <==> |dirName| <= request.limit
    ensures ok ==> Concat(responses) == EncodeAll(Visible(WalkRoot(request, dirName)) + [Done])
    ensures ok ==> Read(Concat(responses)) == Visible(WalkRoot(request, dirName)) + [Done]
    ensures ok ==> responses != [] && AllFull(responses[..|responses| - 1], size)
    ensures ok ==> |responses[|responses| - 1]| <= size
  {
    hide WalkRoot, Visible, DirectoryListing.Valid, Remaining, Concat, EncodeAll, AllDefined, Read, AllSent;
    var listing := ListStartRequest(request, dirName);
    if listing == null {
      return false, [];
    }
    responses := Drain(listing, size);
    ok := true;
    WalkMeaning.DefinedExactly(request, dirName);
    VisibleIsSent(WalkRoot(request, dirName));
    ReadEncoded(Visible(WalkRoot(request, dirName)) + [Done]);
  }

  /** A client that asks as often as it likes and then stops: every link node
      that was allocated on the way has been deleted. */
  method StopAfter(listing: AsyncDirectoryListing, sizes: seq<nat>)
    returns (responses: seq<seq<Slot>>, ghost evs: seq<Event>)
    requires listing.Valid() && forall i :: 0 <= i < |sizes| ==> sizes[i] > 0 && sizes[i] % 2 == 0
    modifies listing, listing.slots, listing.listing, listing.listing.buffer, listing.listing.buffer.data
    ensures |responses| == |sizes|
    ensures var l := listing.listing;
            && l.stack == [] && l.live == {} && l.freed == l.made
            && old(l.made) <= l.made && old(l.freed) <= l.freed
    ensures Concat(responses) == EncodeAll(evs) && evs <= old(listing.ToCome())
  {
    hide DirectoryListing.Valid, Remaining, Concat, EncodeAll, AsyncDirectoryListing.Valid;
    responses, evs := [], [];
    ConcatNone();
    for i := 0 to |sizes|
      invariant listing.Valid() && (listing.slots == old(listing.slots) || fresh(listing.slots))
      invariant |responses| == i && Concat(responses) == EncodeAll(evs)
      invariant old(listing.ToCome()) == evs + listing.ToCome()
      invariant var l := listing.listing; old(l.made) <= l.made && old(l.freed) <= l.freed
    {
      var response;
      ghost var now;
      response, now := listing.ListNextRequest(sizes[i]);
      ConcatPush(responses, response, evs, now);
      responses, evs := responses + [response], evs + now;
    }
    listing.StillOwned();
    listing.listing.PopAll();
  }
}
