/** Edge triggering simulated on level-triggered ports: one mutex-guarded object
    stepped by two threads, here any interleaving of its atomic operations. */
module EdgeTrigger {

  /** Bits of an event mask. */
  datatype Mask = Mask(input: bool, output: bool, error: bool, close: bool)

  datatype State = State(writeEnabled: bool, readEnabled: bool, closeEnabled: bool, available: int)

  /** Dart thread: Read with the result of read(), Write, Accept, and
      AvailableBytes with that of the query. Handler thread: ToggleEvents with
      the mask of a packet and the bytes available at that moment. */
  datatype Action =
    | Read(bytes: int)
    | Write
    | Accept
    | Query(bytes: int)
    | Toggle(mask: Mask, bytes: int)

  function AfterRead(s: State, bytes: int): State
  {
    var left := if bytes > 0 then s.available - (if s.available >= bytes then bytes else s.available) else s.available;
    s.(available := left, readEnabled := s.readEnabled || left == 0 || bytes < 0)
  }

  /** What ToggleEvents lets through. */
  function Delivered(s: State, mask: Mask): Mask
  {
    mask.(output := mask.output && s.writeEnabled,
          input := mask.input && s.readEnabled,
          close := mask.close && s.closeEnabled)
  }

  /** What it suppresses from then on. An in event counts as taken if there are
      bytes, or if the packet also says the peer has closed. */
  function AfterToggle(s: State, mask: Mask, bytes: int): State
  {
    var d := Delivered(s, mask);
    s.(writeEnabled := s.writeEnabled && !d.output,
       readEnabled := s.readEnabled && !(d.input && (bytes != 0 || mask.close)),
       closeEnabled := s.closeEnabled && !d.close)
  }

  function Act(s: State, a: Action): State
  {
    match a
    case Read(bytes) => AfterRead(s, bytes)
    case Write => s.(writeEnabled := true)
    case Accept => s.(readEnabled := true)
    case Query(bytes) => s.(available := if bytes < 0 then 1 else bytes)
    case Toggle(mask, bytes) => AfterToggle(s, mask, bytes)
  }

  // ---------------------------------------------------------------- the object

  class IOHandle {
    var writeEventsEnabled: bool
    var readEventsEnabled: bool
    var closeEventsEnabled: bool
    var availableBytes: int

    function View(): State
      reads this
    {
      State(writeEventsEnabled, readEventsEnabled, closeEventsEnabled, availableBytes)
    }

    /** The count of available bytes is not initialised. */
    constructor (garbage: int)
      ensures View() == State(true, true, true, garbage)
    {
      writeEventsEnabled, readEventsEnabled, closeEventsEnabled, availableBytes := true, true, true, garbage;
    }

    method Read(readBytes: int)
      modifies this
      ensures View() == Act(old(View()), Action.Read(readBytes))
      ensures readBytes <= 0 ==> availableBytes == old(availableBytes)
      ensures var left := old(availableBytes) - readBytes;
              readBytes > 0 ==> availableBytes == if left > 0 then left else 0
      ensures readEventsEnabled == (old(readEventsEnabled) || availableBytes == 0 || readBytes < 0)
    {
      if readBytes > 0 {
        availableBytes := availableBytes - (if availableBytes >= readBytes then readBytes else availableBytes);
      }
      if availableBytes == 0 || readBytes < 0 {
        readEventsEnabled := true;
      }
    }

    method Write()
      modifies this
      ensures View() == Act(old(View()), Action.Write)
    {
      writeEventsEnabled := true;
    }

    method Accept()
      modifies this
      ensures View() == Act(old(View()), Action.Accept)
    {
      readEventsEnabled := true;
    }

    method AvailableBytes(bytes: int) returns (available: int)
      modifies this
      ensures View() == Act(old(View()), Query(bytes)) && available == View().available
    {
      available := bytes;
      if available < 0 {
        available := 1;
      }
      availableBytes := available;
    }

    method ToggleEvents(mask: Mask, bytes: int) returns (events: Mask)
      modifies this
      ensures View() == Act(old(View()), Toggle(mask, bytes)) && events == Delivered(old(View()), mask)
    {
      events := mask;
      if !writeEventsEnabled {
        events := events.(output := false);
      }
      if events.output {
        writeEventsEnabled := false;
      }
      if !readEventsEnabled {
        events := events.(input := false);
      }
      if events.input {
        if bytes != 0 {
          readEventsEnabled := false;
        }
        if events.close {
          readEventsEnabled := false;
        }
      }
      if !closeEventsEnabled {
        events := events.(close := false);
      }
      if events.close {
        closeEventsEnabled := false;
      }
    }
  }

  // ---------------------------------------------------------------- every interleaving

  /** The states of a run of the two threads, in the order of their steps. */
  ghost predicate IsRun(actions: seq<Action>, states: seq<State>)
  {
    && |states| == |actions| + 1
    && states[0].writeEnabled && states[0].readEnabled && states[0].closeEnabled
    && forall i :: 0 <= i < |actions| ==> Stepped(states, actions, i)
  }

  ghost predicate Stepped(states: seq<State>, actions: seq<Action>, i: nat)
  {
    i < |actions| && i + 1 < |states| && states[i + 1] == Act(states[i], actions[i])
  }

  // ---------------------------------------------------------------- the count, from the actions alone

  /** What the last query gave, an error counting as one byte; before the first
      one, whatever was there. */
  function LastQuery(actions: seq<Action>, garbage: int): int
  {
    if actions == [] then garbage
    else
      var a := actions[|actions| - 1];
      if !a.Query? then LastQuery(actions[..|actions| - 1], garbage) else if a.bytes < 0 then 1 else a.bytes
  }

  /** What the reads since then took. */
  function Taken(actions: seq<Action>): nat
  {
    if actions == [] || actions[|actions| - 1].Query? then 0
    else
      var a := actions[|actions| - 1];
      Taken(actions[..|actions| - 1]) + if a.Read? && a.bytes > 0 then a.bytes else 0
  }

  /** What is left of it, never less than nothing. */
  function Left(actions: seq<Action>, garbage: int): int
  {
    var given, taken := LastQuery(actions, garbage), Taken(actions);
    if taken == 0 then given else if given > taken then given - taken else 0
  }

  /** On every run the count is what the last query gave less what was read since. */
  lemma {:induction false} CountsExactly(actions: seq<Action>, states: seq<State>, j: nat)
    requires IsRun(actions, states) && j <= |actions|
    ensures states[j].available == Left(actions[..j], states[0].available)
    decreases j
  {
    if j > 0 {
      CountsExactly(actions, states, j - 1);
      assert Stepped(states, actions, j - 1);
      assert actions[..j][..j - 1] == actions[..j - 1];
      CountStep(actions[..j - 1], actions[j - 1], states[j - 1], states[0].available);
      assert actions[..j] == actions[..j - 1] + [actions[j - 1]];
    }
  }

  lemma CountStep(before: seq<Action>, a: Action, s: State, garbage: int)
    requires s.available == Left(before, garbage)
    ensures Act(s, a).available == Left(before + [a], garbage)
  {
    assert (before + [a])[..|before|] == before;
  }

  // ---------------------------------------------------------------- what is told

  predicate TellsOut(s: State, a: Action) { a.Toggle? && Delivered(s, a.mask).output }

  predicate TellsClose(s: State, a: Action) { a.Toggle? && Delivered(s, a.mask).close }

  predicate TellsIn(s: State, a: Action) { a.Toggle? && Delivered(s, a.mask).input }

  /** An in event with bytes to read, or together with a close. */
  predicate TellsInForGood(s: State, a: Action) { TellsIn(s, a) && (a.bytes != 0 || a.mask.close) }

  /** The `k`-th action is an Accept, or a Read that fails or after which nothing
      is left of what was known to be there. */
  predicate AsksAgain(actions: seq<Action>, garbage: int, k: nat)
    requires k < |actions|
  {
    actions[k].Accept? || (actions[k].Read? && (actions[k].bytes < 0 || Left(actions[..k + 1], garbage) == 0))
  }

  lemma AsksStep(actions: seq<Action>, states: seq<State>, k: nat)
    requires IsRun(actions, states) && k < |actions|
    ensures AsksAgain(actions, states[0].available, k) ==>
              states[k + 1].readEnabled && !TellsInForGood(states[k], actions[k])
    ensures !AsksAgain(actions, states[0].available, k) ==>
              states[k + 1].readEnabled == (states[k].readEnabled && !TellsInForGood(states[k], actions[k]))
  {
    assert Stepped(states, actions, k);
    CountsExactly(actions, states, k + 1);
    hide Left;
  }

  /** Since the last out event there has been a Write. */
  ghost predicate WrittenSince(actions: seq<Action>, states: seq<State>, j: nat)
    requires IsRun(actions, states) && j <= |actions|
  {
    forall i :: 0 <= i < j && TellsOut(states[i], actions[i]) ==> exists k :: i < k < j && actions[k].Write?
  }

  ghost predicate AskedSince(actions: seq<Action>, states: seq<State>, j: nat)
    requires IsRun(actions, states) && j <= |actions|
  {
    forall i :: 0 <= i < j && TellsInForGood(states[i], actions[i]) ==>
      exists k :: i < k < j && AsksAgain(actions, states[0].available, k)
  }

  ghost predicate NotClosedYet(actions: seq<Action>, states: seq<State>, j: nat)
    requires IsRun(actions, states) && j <= |actions|
  {
    forall i :: 0 <= i < j ==> !TellsClose(states[i], actions[i])
  }

  /** The three flags say, at every point of every run, exactly whether an event
      of their kind is due again. */
  lemma {:induction false} FlagsRemember(actions: seq<Action>, states: seq<State>, j: nat)
    requires IsRun(actions, states) && j <= |actions|
    ensures states[j].writeEnabled <==> WrittenSince(actions, states, j)
    ensures states[j].readEnabled <==> AskedSince(actions, states, j)
    ensures states[j].closeEnabled <==> NotClosedYet(actions, states, j)
    decreases j
  {
    if j > 0 {
      FlagsRemember(actions, states, j - 1);
      WriteFlagStep(actions, states, j - 1);
      ReadFlagStep(actions, states, j - 1);
      CloseFlagStep(actions, states, j - 1);
    }
  }

  lemma WriteFlagStep(actions: seq<Action>, states: seq<State>, p: nat)
    requires IsRun(actions, states) && p < |actions|
    requires states[p].writeEnabled <==> WrittenSince(actions, states, p)
    ensures states[p + 1].writeEnabled <==> WrittenSince(actions, states, p + 1)
  {
    assert Stepped(states, actions, p);
    if actions[p].Write? {
      assert WrittenSince(actions, states, p + 1);
    } else if TellsOut(states[p], actions[p]) {
      assert !WrittenSince(actions, states, p + 1);
    } else if states[p].writeEnabled {
      forall i | 0 <= i < p + 1 && TellsOut(states[i], actions[i])
        ensures exists k :: i < k < p + 1 && actions[k].Write?
      {
        var k :| i < k < p && actions[k].Write?;
        assert i < k < p + 1;
      }
    } else {
      var i :| 0 <= i < p && TellsOut(states[i], actions[i]) && !exists k :: i < k < p && actions[k].Write?;
      assert !exists k :: i < k < p + 1 && actions[k].Write?;
    }
  }

  lemma ReadFlagStep(actions: seq<Action>, states: seq<State>, p: nat)
    requires IsRun(actions, states) && p < |actions|
    requires states[p].readEnabled <==> AskedSince(actions, states, p)
    ensures states[p + 1].readEnabled <==> AskedSince(actions, states, p + 1)
  {
    hide AsksAgain, TellsInForGood;
    AsksStep(actions, states, p);
    if AsksAgain(actions, states[0].available, p) {
      assert AskedSince(actions, states, p + 1);
    } else if TellsInForGood(states[p], actions[p]) {
      assert !AskedSince(actions, states, p + 1);
    } else if states[p].readEnabled {
      forall i | 0 <= i < p + 1 && TellsInForGood(states[i], actions[i])
        ensures exists k :: i < k < p + 1 && AsksAgain(actions, states[0].available, k)
      {
        var k :| i < k < p && AsksAgain(actions, states[0].available, k);
        assert i < k < p + 1;
      }
    } else {
      var i :| 0 <= i < p && TellsInForGood(states[i], actions[i]) &&
        !exists k :: i < k < p && AsksAgain(actions, states[0].available, k);
      assert !exists k :: i < k < p + 1 && AsksAgain(actions, states[0].available, k);
    }
  }

  lemma CloseFlagStep(actions: seq<Action>, states: seq<State>, p: nat)
    requires IsRun(actions, states) && p < |actions|
    requires states[p].closeEnabled <==> NotClosedYet(actions, states, p)
    ensures states[p + 1].closeEnabled <==> NotClosedYet(actions, states, p + 1)
  {
    assert Stepped(states, actions, p);
    if TellsClose(states[p], actions[p]) {
      assert !NotClosedYet(actions, states, p + 1);
    }
  }

  /** The promise, for every interleaving: between two out events there is a
      Write, close is told once, and after an in event told for good there is
      no other before an Accept or a Read that drains or fails. */
  lemma EdgeTriggered(actions: seq<Action>, states: seq<State>, i: nat, j: nat)
    requires IsRun(actions, states) && i < j < |actions|
    ensures TellsOut(states[i], actions[i]) && TellsOut(states[j], actions[j]) ==>
              exists k :: i < k < j && actions[k].Write?
    ensures !(TellsClose(states[i], actions[i]) && TellsClose(states[j], actions[j]))
    ensures TellsInForGood(states[i], actions[i]) && TellsIn(states[j], actions[j]) ==>
              exists k :: i < k < j && AsksAgain(actions, states[0].available, k)
  {
    FlagsRemember(actions, states, j);
  }

  /** And nothing is lost: an event the port reports is withheld only while an
      earlier one of its kind is still unanswered. */
  lemma NothingWithheld(actions: seq<Action>, states: seq<State>, j: nat)
    requires IsRun(actions, states) && j < |actions| && actions[j].Toggle?
    ensures TellsOut(states[j], actions[j]) <==> actions[j].mask.output && WrittenSince(actions, states, j)
    ensures TellsIn(states[j], actions[j]) <==> actions[j].mask.input && AskedSince(actions, states, j)
    ensures TellsClose(states[j], actions[j]) <==> actions[j].mask.close && NotClosedYet(actions, states, j)
    ensures Delivered(states[j], actions[j].mask).error == actions[j].mask.error
  {
    FlagsRemember(actions, states, j);
  }
}
