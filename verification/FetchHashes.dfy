/** Getting many hashes at once: the slots of the limiter, the gauge of pending requests and the
    callbacks, while waiters for the promises finish in any order. */
module FetchHashes {
  import opened Ids

  /** What `getHash` answers: an error, data available locally, or a promise to wait for. */
  datatype Answer = Refused(error: nat) | Local | Promised

  /** How a waiter ends: its promise completes, or the context is done first. */
  datatype Ending = Completed(error: Option<nat>) | Cancelled

  /** The hash asked for at one position, and what the environment decides about it: whether a slot
      is acquired (or why not), the answer, and the ending should there be a waiter. */
  datatype Fate = Fate(hash: Hash, slot: Option<nat>, answer: Answer, ending: Ending)

  const CONTEXT_DONE := 0

  datatype Result = Ok | Stopped(error: nat) | BatchFailed(errors: map<Hash, nat>)

  /** The loop stops at a position that gets no slot or is refused. */
  predicate Stops(f: Fate) {
    f.slot.Some? || f.answer.Refused?
  }

  function StopError(f: Fate): nat
    requires Stops(f)
  {
    if f.slot.Some? then f.slot.value else f.answer.error
  }

  /** Where the loop stops: the first such position, or the end. */
  function StopAt(fates: seq<Fate>): (e: nat)
    ensures e <= |fates|
    ensures forall i :: 0 <= i < e ==> !Stops(fates[i])
    ensures e < |fates| ==> Stops(fates[e])
  {
    if fates == [] then 0 else if Stops(fates[0]) then 0 else StopAt(fates[1..]) + 1
  }

  /** What the callback is to be told about a position. */
  function Told(fates: seq<Fate>, j: nat): Option<nat>
    requires j < |fates|
  {
    var e := StopAt(fates);
    if j >= e then Some(StopError(fates[e]))
    else if fates[j].answer.Local? then None
    else match fates[j].ending
      case Completed(error) => error
      case Cancelled => Some(CONTEXT_DONE)
  }

  predicate Waits(fates: seq<Fate>, j: nat) {
    j < StopAt(fates) && fates[j].answer.Promised?
  }

  /** The promise waited for at `j` completed with an error. */
  predicate FailsAt(fates: seq<Fate>, j: nat) {
    j < |fates| && Waits(fates, j) && fates[j].ending.Completed? && fates[j].ending.error.Some?
  }

  /** The errors by hash: one for each hash that failed at some position, being the error of one
      such position.  Where a hash repeats, which one depends on the order in which waiters end. */
  ghost predicate Collects(fates: seq<Fate>, failed: set<nat>, errors: map<Hash, nat>)
  {
    && (forall j :: j in failed ==> FailsAt(fates, j) && fates[j].hash in errors)
    && (forall h :: h in errors ==> exists j :: j in failed && ErrorOf(fates, j, h, errors[h]))
  }

  predicate ErrorOf(fates: seq<Fate>, j: nat, hash: Hash, error: nat) {
    FailsAt(fates, j) && fates[j].hash == hash && fates[j].ending.error.value == error
  }

  ghost function Failures(fates: seq<Fate>): (failed: set<nat>)
    ensures forall j: nat :: j in failed <==> FailsAt(fates, j)
  {
    set j: nat | j < |fates| && FailsAt(fates, j)
  }

  ghost predicate Returns(fates: seq<Fate>, r: Result) {
    var e := StopAt(fates);
    if e < |fates| then r == Stopped(StopError(fates[e]))
    else if Failures(fates) == {} then r == Ok
    else r.BatchFailed? && Collects(fates, Failures(fates), r.errors)
  }

  /** The accounts: waiters still out, what the callback was told per position, slots acquired and
      released, the pending gauge relative to its start, and the collected errors. */
  datatype Accounts = Accounts(
    waiting: set<nat>, calls: seq<seq<Option<nat>>>, acquired: nat, released: nat, gauge: int, errors: map<Hash, nat>)

  /** Position `j` has been dealt with, once the loop passed `i` or stopped there. */
  predicate Settled(a: Accounts, i: nat, stopped: bool, j: nat) {
    (j < i || stopped) && j !in a.waiting
  }

  ghost function FailedSoFar(fates: seq<Fate>, i: nat, waiting: set<nat>): (failed: set<nat>)
    ensures forall j: nat :: j in failed <==> FailsAt(fates, j) && j < i && j !in waiting
  {
    set j | j in Failures(fates) && j < i && j !in waiting
  }

  lemma CollectOne(fates: seq<Fate>, failed: set<nat>, errors: map<Hash, nat>, j: nat)
    requires Collects(fates, failed, errors) && FailsAt(fates, j)
    ensures Collects(fates, failed + {j}, errors[fates[j].hash := fates[j].ending.error.value])
  {
    var errors' := errors[fates[j].hash := fates[j].ending.error.value];
    forall h | h in errors'
      ensures exists k :: k in failed + {j} && ErrorOf(fates, k, h, errors'[h])
    {
      if h == fates[j].hash {
        assert ErrorOf(fates, j, h, errors'[h]);
      } else {
        var k :| k in failed && ErrorOf(fates, k, h, errors[h]);
        assert k in failed + {j};
      }
    }
  }

  /** The accounts are in order after positions below `i`, or at the end of a stopped loop. */
  ghost predicate InOrder(fates: seq<Fate>, i: nat, stopped: bool, a: Accounts)
    requires i <= StopAt(fates)
  {
    && |a.calls| == |fates|
    && (forall j :: j in a.waiting ==> j < i && Waits(fates, j))
    && (forall j :: 0 <= j < |fates| ==> a.calls[j] == if Settled(a, i, stopped, j) then [Told(fates, j)] else [])
    && a.acquired == a.released + |a.waiting|
    && a.gauge == (if stopped then 0 else |fates| - i) + |a.waiting|
    && Collects(fates, FailedSoFar(fates, i, a.waiting), a.errors)
  }

  /** The callback for position `j`. */
  function Call(a: Accounts, j: nat, told: Option<nat>): Accounts
    requires j < |a.calls|
  {
    a.(calls := a.calls[j := a.calls[j] + [told]])
  }

  /** One waiter ends: it releases its slot, lowers the gauge and calls back. */
  method FinishWaiter(fates: seq<Fate>, ghost i: nat, ghost stopped: bool, j: nat, a: Accounts) returns (b: Accounts)
    requires i <= StopAt(fates) && InOrder(fates, i, stopped, a) && j in a.waiting
    ensures b.waiting == a.waiting - {j} && InOrder(fates, i, stopped, b)
  {
    hide Collects, StopAt;
    b := a.(waiting := a.waiting - {j}, released := a.released + 1, gauge := a.gauge - 1);
    assert |a.waiting| == |b.waiting| + 1;
    ghost var before, after := FailedSoFar(fates, i, a.waiting), FailedSoFar(fates, i, b.waiting);
    if FailsAt(fates, j) {
      assert after == before + {j};
      CollectOne(fates, before, a.errors, j);
    } else {
      assert after == before;
    }
    match fates[j].ending {
      case Cancelled =>
        b := Call(b, j, Some(CONTEXT_DONE));
      case Completed(error) =>
        if error.Some? {
          b := b.(errors := b.errors[fates[j].hash := error.value]);
        }
        b := Call(b, j, error);
    }
  }

  /** Lets any number of waiters end, in any order, or all of them. */
  method LetWaitersRun(fates: seq<Fate>, ghost i: nat, ghost stopped: bool, all: bool, a: Accounts)
    returns (b: Accounts)
    requires i <= StopAt(fates) && InOrder(fates, i, stopped, a)
    ensures InOrder(fates, i, stopped, b) && b.waiting <= a.waiting
    ensures all ==> b.waiting == {}
  {
    b := a;
    while b.waiting != {}
      invariant InOrder(fates, i, stopped, b) && b.waiting <= a.waiting
      decreases b.waiting
    {
      if !all {
        var pause: bool := *;
        if pause { return; }
      }
      var j :| j in b.waiting;
      b := FinishWaiter(fates, i, stopped, j, b);
    }
  }

  /** The loop stops at `i`: the gauge is corrected and every position from `i` on is called back
      with the error.  A refused position has acquired a slot and gives it back. */
  method Stop(fates: seq<Fate>, i: nat, a: Accounts) returns (b: Accounts)
    requires i == StopAt(fates) < |fates| && InOrder(fates, i, false, a)
    ensures InOrder(fates, i, true, b) && b.waiting == a.waiting
  {
    b := a;
    if fates[i].slot.None? {
      b := b.(acquired := b.acquired + 1);
      b := b.(released := b.released + 1);
    }
    b := b.(gauge := b.gauge + i - |fates|);
    for j := i to |fates|
      invariant b.waiting == a.waiting && b.errors == a.errors && |b.calls| == |a.calls|
      invariant b.acquired == b.released + |b.waiting| && b.gauge == |b.waiting|
      invariant forall k :: 0 <= k < |fates| ==>
        b.calls[k] == if (k < i && k !in a.waiting) || i <= k < j then [Told(fates, k)] else []
    {
      b := Call(b, j, Some(StopError(fates[i])));
    }
  }

  /** `getHashes`, watched until every waiter has ended: the callback was called exactly once per
      position, every acquired slot was released, and the gauge is back where it was. */
  method GetHashes(fates: seq<Fate>) returns (result: Result, a: Accounts)
    ensures |a.calls| == |fates| && forall j :: 0 <= j < |fates| ==> a.calls[j] == [Told(fates, j)]
    ensures a.released == a.acquired && a.gauge == 0
    ensures Returns(fates, result)
  {
    a := Accounts({}, seq(|fates|, _ => []), 0, 0, |fates|, map[]);
    assert FailedSoFar(fates, 0, {}) == {};
    var i := 0;
    while i < |fates| && !Stops(fates[i])
      invariant 0 <= i <= StopAt(fates) && InOrder(fates, i, false, a)
    {
      a := LetWaitersRun(fates, i, false, false, a);
      a := Advance(fates, i, a);
      i := i + 1;
    }
    if i < |fates| {
      a := Stop(fates, i, a);
      a := LetWaitersRun(fates, i, true, true, a);
      return Stopped(StopError(fates[i])), a;
    }
    a := LetWaitersRun(fates, i, false, true, a);
    assert FailedSoFar(fates, i, {}) == Failures(fates);
    result := if a.errors == map[] then Ok else BatchFailed(a.errors);
  }

  /** One position of the loop: local data is reported at once, a promise gets a waiter. */
  method Advance(fates: seq<Fate>, i: nat, a: Accounts) returns (b: Accounts)
    requires i < StopAt(fates) && InOrder(fates, i, false, a)
    ensures InOrder(fates, i + 1, false, b)
  {
    hide StopAt, Collects;
    b := a.(acquired := a.acquired + 1);
    if fates[i].answer.Local? {
      b := b.(released := b.released + 1, gauge := b.gauge - 1);
      b := Call(b, i, None);
    } else {
      assert i !in a.waiting;
      b := b.(waiting := b.waiting + {i});
    }
    assert FailedSoFar(fates, i + 1, b.waiting) == FailedSoFar(fates, i, a.waiting);
  }

  // ---- What success means ----

  /** The hash at `j` is available once the call is over. */
  predicate Obtained(fates: seq<Fate>, j: nat)
    requires j < |fates|
  {
    j < StopAt(fates) && (fates[j].answer.Local? || fates[j].ending == Completed(None))
  }

  /** The callback hears of no error exactly for a hash that was obtained.  A promise that failed is
      reported with its error, a cancelled waiter with the context's, and from where the loop stopped
      on every position with what stopped it. */
  lemma ToldIs(fates: seq<Fate>, j: nat)
    requires j < |fates|
    ensures Told(fates, j) == None <==>
      && j < StopAt(fates)
      && (fates[j].answer == Local || (fates[j].answer == Promised && fates[j].ending == Completed(None)))
    ensures j < StopAt(fates) && fates[j].answer == Promised ==>
      && (fates[j].ending == Cancelled ==> Told(fates, j) == Some(CONTEXT_DONE))
      && (fates[j].ending.Completed? ==> Told(fates, j) == fates[j].ending.error)
    ensures j >= StopAt(fates) ==>
      var stop := fates[StopAt(fates)];
      Told(fates, j) == if stop.slot.Some? then stop.slot else Some(stop.answer.error)
  {
  }

  /** A call that reports success has obtained every hash exactly when no waiter was cancelled:
      the waiters' own errors are dropped. */
  lemma OkIffNoneCancelled(fates: seq<Fate>)
    requires Returns(fates, Ok)
    ensures (forall j: nat :: j < |fates| ==> Obtained(fates, j)) <==>
      (forall j: nat :: j < |fates| ==> !(Waits(fates, j) && fates[j].ending.Cancelled?))
  {
    assert StopAt(fates) == |fates|;
    forall j: nat | j < |fates|
      ensures Obtained(fates, j) <==> !(Waits(fates, j) && fates[j].ending.Cancelled?)
    {
      assert !Stops(fates[j]);
      assert j !in Failures(fates);
    }
  }

  /** A caller whose context ends while it waits is told that all went well. */
  lemma CancelledLooksFine()
    ensures var fates := [Fate(1, None, Promised, Cancelled)];
      Returns(fates, Ok) && !Obtained(fates, 0) && Told(fates, 0) == Some(CONTEXT_DONE)
  {
  }
}
