/** The fetcher's pending requests and their promises, before shutdown.

    A request waits in `unprocessed`, moves to `ongoing` when a batch is sent, and leaves when
    its promise completes or when it is put back for another try.  Promises are numbered in
    the order they are made. */
module FetchRequests {
  import opened Ids
  import opened Sorting

  datatype Outcome = Waiting | Fetched | Failed(error: nat)

  /** `completions` counts how often completion was requested and `requeues` how often the
      request went back to the queue. */
  datatype Promise = Promise(hash: Hash, outcome: Outcome, completions: nat, requeues: nat)

  datatype Request = Request(promise: nat, hint: nat, retries: nat)

  datatype State = State(
    unprocessed: map<Hash, Request>,
    ongoing: map<Hash, Request>,
    promises: seq<Promise>)

  const EMPTY := State(map[], map[], [])
  const EXCEED_MAX_RETRIES := 0

  datatype Step =
    | GetHash(hash: Hash, hint: nat, local: bool)
    | GetUnprocessed
    | ValidationDone(hash: Hash, error: Option<nat>)
    | FailAfterRetry(hash: Hash, local: bool)
    /** A batch failed, or no peer was found for it. */
    | BatchFailed(hashes: seq<Hash>, cause: nat)

  // ---- One step ----

  function Queue(s: State, hash: Hash, hint: nat): State {
    s.(unprocessed := s.unprocessed[hash := Request(|s.promises|, hint, 0)],
       promises := s.promises + [Promise(hash, Waiting, 0, 0)])
  }

  predicate Known(s: State, r: Request) {
    r.promise < |s.promises|
  }

  /** Completes the promise of an ongoing request and drops the request. */
  function Complete(s: State, hash: Hash, outcome: Outcome): State
    requires hash in s.ongoing && Known(s, s.ongoing[hash])
  {
    var id := s.ongoing[hash].promise;
    var p := s.promises[id];
    s.(promises := s.promises[id := p.(outcome := outcome, completions := p.completions + 1)],
       ongoing := s.ongoing - {hash})
  }

  function Requeue(s: State, hash: Hash): State
    requires hash in s.ongoing && Known(s, s.ongoing[hash])
  {
    var r := s.ongoing[hash];
    var p := s.promises[r.promise];
    s.(unprocessed := s.unprocessed[hash := r.(retries := r.retries + 1)],
       ongoing := s.ongoing - {hash},
       promises := s.promises[r.promise := p.(requeues := p.requeues + 1)])
  }

  predicate AllKnown(s: State) {
    && (forall h :: h in s.ongoing ==> Known(s, s.ongoing[h]))
    && (forall h :: h in s.unprocessed ==> Known(s, s.unprocessed[h]))
  }

  /** Fails the promises of those of the hashes that are ongoing. */
  function FailAll(s: State, hashes: seq<Hash>, error: nat): (r: State)
    requires AllKnown(s)
    ensures AllKnown(r)
    decreases |hashes|
  {
    if hashes == [] then s
    else
      var t := if hashes[0] in s.ongoing then Complete(s, hashes[0], Failed(error)) else s;
      FailAll(t, hashes[1..], error)
  }

  function Apply(s: State, maxRetries: nat, step: Step): (r: State)
    requires AllKnown(s)
    ensures AllKnown(r)
  {
    match step
    case GetHash(hash, hint, local) =>
      if local || hash in s.ongoing || hash in s.unprocessed then s else Queue(s, hash, hint)
    case GetUnprocessed => s.(ongoing := s.ongoing + s.unprocessed, unprocessed := map[])
    case ValidationDone(hash, error) =>
      if hash !in s.ongoing then s
      else Complete(s, hash, if error.None? then Fetched else Failed(error.value))
    case FailAfterRetry(hash, local) =>
      if hash !in s.ongoing then s
      else if local then Complete(s, hash, Fetched)
      else if s.ongoing[hash].retries + 1 > maxRetries then Complete(s, hash, Failed(EXCEED_MAX_RETRIES))
      else Requeue(s, hash)
    case BatchFailed(hashes, error) => FailAll(s, hashes, error)
  }

  function Run(maxRetries: nat, steps: seq<Step>): (r: State)
    ensures AllKnown(r)
  {
    if steps == [] then EMPTY else Apply(Run(maxRetries, steps[..|steps| - 1]), maxRetries, steps[|steps| - 1])
  }

  // ---- The invariant ----

  ghost predicate Pending(s: State, hash: Hash) {
    hash in s.unprocessed || hash in s.ongoing
  }

  /** The promise that a pending hash waits for. */
  ghost function PromiseOf(s: State, hash: Hash): nat
    requires Pending(s, hash)
  {
    if hash in s.unprocessed then s.unprocessed[hash].promise else s.ongoing[hash].promise
  }

  ghost predicate RequestOk(s: State, maxRetries: nat, hash: Hash, r: Request) {
    && Known(s, r)
    && s.promises[r.promise].hash == hash
    && s.promises[r.promise].completions == 0
    && r.retries == s.promises[r.promise].requeues <= maxRetries
  }

  /** A promise is open exactly when its request is pending, and has completed at most once. */
  ghost predicate PromiseOk(s: State, maxRetries: nat, id: nat)
    requires id < |s.promises|
  {
    var p := s.promises[id];
    && p.requeues <= maxRetries
    && (p.completions == 0 <==> Pending(s, p.hash) && PromiseOf(s, p.hash) == id)
    && p.completions <= 1
    && (p.completions == 0 <==> p.outcome.Waiting?)
  }

  ghost predicate Inv(s: State, maxRetries: nat) {
    && s.unprocessed.Keys !! s.ongoing.Keys
    && (forall h :: h in s.unprocessed ==> RequestOk(s, maxRetries, h, s.unprocessed[h]))
    && (forall h :: h in s.ongoing ==> RequestOk(s, maxRetries, h, s.ongoing[h]))
    && (forall id :: 0 <= id < |s.promises| ==> PromiseOk(s, maxRetries, id))
  }

  lemma QueueKeepsInv(s: State, maxRetries: nat, hash: Hash, hint: nat)
    requires Inv(s, maxRetries) && !Pending(s, hash)
    ensures Inv(Queue(s, hash, hint), maxRetries)
  {
    var t := Queue(s, hash, hint);
    forall id | 0 <= id < |t.promises|
      ensures PromiseOk(t, maxRetries, id)
    {
      if id < |s.promises| {
        assert PromiseOk(s, maxRetries, id);
        assert t.promises[id] == s.promises[id];
      }
    }
  }

  lemma CompleteKeepsInv(s: State, maxRetries: nat, hash: Hash, outcome: Outcome)
    requires Inv(s, maxRetries) && hash in s.ongoing && !outcome.Waiting?
    ensures Inv(Complete(s, hash, outcome), maxRetries)
  {
    var t := Complete(s, hash, outcome);
    assert RequestOk(s, maxRetries, hash, s.ongoing[hash]);
    forall id | 0 <= id < |t.promises|
      ensures PromiseOk(t, maxRetries, id)
    {
      assert PromiseOk(s, maxRetries, id);
    }
    forall h | h in t.ongoing
      ensures RequestOk(t, maxRetries, h, t.ongoing[h])
    {
      assert RequestOk(s, maxRetries, h, s.ongoing[h]);
    }
    forall h | h in t.unprocessed
      ensures RequestOk(t, maxRetries, h, t.unprocessed[h])
    {
      assert RequestOk(s, maxRetries, h, s.unprocessed[h]);
    }
  }

  lemma RequeueKeepsInv(s: State, maxRetries: nat, hash: Hash)
    requires Inv(s, maxRetries) && hash in s.ongoing && s.ongoing[hash].retries + 1 <= maxRetries
    ensures Inv(Requeue(s, hash), maxRetries)
  {
    var t := Requeue(s, hash);
    assert RequestOk(s, maxRetries, hash, s.ongoing[hash]);
    forall id | 0 <= id < |t.promises|
      ensures PromiseOk(t, maxRetries, id)
    {
      assert PromiseOk(s, maxRetries, id);
    }
    forall h | h in t.ongoing
      ensures RequestOk(t, maxRetries, h, t.ongoing[h])
    {
      assert RequestOk(s, maxRetries, h, s.ongoing[h]);
    }
    forall h | h in t.unprocessed
      ensures RequestOk(t, maxRetries, h, t.unprocessed[h])
    {
      if h != hash {
        assert RequestOk(s, maxRetries, h, s.unprocessed[h]);
      }
    }
  }

  lemma MoveKeepsInv(s: State, maxRetries: nat)
    requires Inv(s, maxRetries)
    ensures Inv(Apply(s, maxRetries, GetUnprocessed), maxRetries)
  {
    var t := Apply(s, maxRetries, GetUnprocessed);
    forall id | 0 <= id < |t.promises|
      ensures PromiseOk(t, maxRetries, id)
    {
      assert PromiseOk(s, maxRetries, id);
    }
    forall h | h in t.ongoing
      ensures RequestOk(t, maxRetries, h, t.ongoing[h])
    {
      if h in s.unprocessed {
        assert RequestOk(s, maxRetries, h, s.unprocessed[h]);
      } else {
        assert RequestOk(s, maxRetries, h, s.ongoing[h]);
      }
    }
  }

  lemma {:induction false} FailAllKeepsInv(s: State, maxRetries: nat, hashes: seq<Hash>, error: nat)
    requires Inv(s, maxRetries) && AllKnown(s)
    ensures Inv(FailAll(s, hashes, error), maxRetries)
    decreases |hashes|
  {
    if hashes != [] {
      if hashes[0] in s.ongoing {
        CompleteKeepsInv(s, maxRetries, hashes[0], Failed(error));
        FailAllKeepsInv(Complete(s, hashes[0], Failed(error)), maxRetries, hashes[1..], error);
      } else {
        FailAllKeepsInv(s, maxRetries, hashes[1..], error);
      }
    }
  }

  lemma StepKeepsInv(s: State, maxRetries: nat, step: Step)
    requires Inv(s, maxRetries) && AllKnown(s)
    ensures Inv(Apply(s, maxRetries, step), maxRetries)
  {
    match step {
      case GetHash(hash, hint, local) =>
        if !local && !Pending(s, hash) {
          QueueKeepsInv(s, maxRetries, hash, hint);
        }
      case GetUnprocessed => MoveKeepsInv(s, maxRetries);
      case ValidationDone(hash, error) =>
        if hash in s.ongoing {
          CompleteKeepsInv(s, maxRetries, hash, if error.None? then Fetched else Failed(error.value));
        }
      case FailAfterRetry(hash, local) =>
        if hash in s.ongoing {
          if local {
            CompleteKeepsInv(s, maxRetries, hash, Fetched);
          } else if s.ongoing[hash].retries + 1 > maxRetries {
            CompleteKeepsInv(s, maxRetries, hash, Failed(EXCEED_MAX_RETRIES));
          } else {
            RequeueKeepsInv(s, maxRetries, hash);
          }
        }
      case BatchFailed(hashes, error) => FailAllKeepsInv(s, maxRetries, hashes, error);
    }
  }

  /** In every reachable state a hash is queued or ongoing but not both; a promise is open
      exactly when its request is pending and completes at most once; and no request was
      requeued more often than allowed. */
  lemma {:induction false} RunKeepsInv(maxRetries: nat, steps: seq<Step>)
    ensures Inv(Run(maxRetries, steps), maxRetries)
  {
    if steps != [] {
      RunKeepsInv(maxRetries, steps[..|steps| - 1]);
      StepKeepsInv(Run(maxRetries, steps[..|steps| - 1]), maxRetries, steps[|steps| - 1]);
    }
  }

  // ---- What steps do to a promise ----

  /** A completed promise keeps its outcome. */
  ghost predicate OutcomesKept(s: State, t: State) {
    && |s.promises| <= |t.promises|
    && forall id :: 0 <= id < |s.promises| && s.promises[id].completions > 0 ==> t.promises[id] == s.promises[id]
  }

  lemma CompleteKeepsOutcomes(s: State, maxRetries: nat, hash: Hash, outcome: Outcome)
    requires Inv(s, maxRetries) && hash in s.ongoing
    ensures OutcomesKept(s, Complete(s, hash, outcome))
  {
  }

  lemma {:induction false} FailAllKeepsOutcomes(s: State, maxRetries: nat, hashes: seq<Hash>, error: nat)
    requires Inv(s, maxRetries) && AllKnown(s)
    ensures OutcomesKept(s, FailAll(s, hashes, error))
    decreases |hashes|
  {
    if hashes != [] {
      if hashes[0] in s.ongoing {
        var t := Complete(s, hashes[0], Failed(error));
        CompleteKeepsInv(s, maxRetries, hashes[0], Failed(error));
        CompleteKeepsOutcomes(s, maxRetries, hashes[0], Failed(error));
        FailAllKeepsOutcomes(t, maxRetries, hashes[1..], error);
        assert OutcomesKept(t, FailAll(s, hashes, error));
      } else {
        FailAllKeepsOutcomes(s, maxRetries, hashes[1..], error);
      }
    }
  }

  /** Whatever happens later, a completed promise stays completed with the same outcome. */
  lemma StepKeepsOutcomes(s: State, maxRetries: nat, step: Step)
    requires Inv(s, maxRetries) && AllKnown(s)
    ensures OutcomesKept(s, Apply(s, maxRetries, step))
  {
    match step {
      case ValidationDone(hash, error) =>
        if hash in s.ongoing {
          CompleteKeepsOutcomes(s, maxRetries, hash, if error.None? then Fetched else Failed(error.value));
        }
      case FailAfterRetry(hash, local) =>
        if hash in s.ongoing {
          assert RequestOk(s, maxRetries, hash, s.ongoing[hash]);
          CompleteKeepsOutcomes(s, maxRetries, hash, Fetched);
          CompleteKeepsOutcomes(s, maxRetries, hash, Failed(EXCEED_MAX_RETRIES));
        }
      case BatchFailed(hashes, error) => FailAllKeepsOutcomes(s, maxRetries, hashes, error);
      case GetHash(_, _, _) =>
      case GetUnprocessed =>
    }
  }

  /** Callers that ask for a pending hash get the promise it already has, whichever map it is
      in, and ask for nothing new; and over one step a pending hash either keeps that promise
      or the promise completes. */
  lemma CallersShareOnePromise(s: State, maxRetries: nat, hash: Hash, hint: nat, step: Step)
    requires Inv(s, maxRetries) && AllKnown(s) && Pending(s, hash)
    ensures Apply(s, maxRetries, GetHash(hash, hint, false)) == s
    ensures var t := Apply(s, maxRetries, step);
      || (Pending(t, hash) && PromiseOf(t, hash) == PromiseOf(s, hash))
      || (!Pending(t, hash) && PromiseOf(s, hash) < |t.promises| && t.promises[PromiseOf(s, hash)].completions == 1)
  {
    var t, id := Apply(s, maxRetries, step), PromiseOf(s, hash);
    StepKeepsInv(s, maxRetries, step);
    StepKeepsIdentity(s, maxRetries, step);
    assert RequestOk(s, maxRetries, hash, if hash in s.unprocessed then s.unprocessed[hash] else s.ongoing[hash]);
    assert PromiseOk(t, maxRetries, id);
    NoReplacement(s, maxRetries, step, hash);
  }

  /** Promises are never dropped and keep their hash. */
  ghost predicate IdentityKept(s: State, t: State) {
    && |s.promises| <= |t.promises|
    && forall id :: 0 <= id < |s.promises| ==> t.promises[id].hash == s.promises[id].hash
  }

  lemma {:induction false} FailAllKeepsIdentity(s: State, hashes: seq<Hash>, error: nat)
    requires AllKnown(s)
    ensures IdentityKept(s, FailAll(s, hashes, error))
    ensures FailAll(s, hashes, error).unprocessed == s.unprocessed
    ensures FailAll(s, hashes, error).ongoing.Keys <= s.ongoing.Keys
    ensures forall h :: h in FailAll(s, hashes, error).ongoing ==> FailAll(s, hashes, error).ongoing[h] == s.ongoing[h]
    decreases |hashes|
  {
    if hashes != [] {
      var t := if hashes[0] in s.ongoing then Complete(s, hashes[0], Failed(error)) else s;
      FailAllKeepsIdentity(t, hashes[1..], error);
    }
  }

  lemma StepKeepsIdentity(s: State, maxRetries: nat, step: Step)
    requires AllKnown(s)
    ensures IdentityKept(s, Apply(s, maxRetries, step))
  {
    if step.BatchFailed? {
      FailAllKeepsIdentity(s, step.hashes, step.cause);
    }
  }

  lemma NoReplacement(s: State, maxRetries: nat, step: Step, hash: Hash)
    requires Inv(s, maxRetries) && AllKnown(s) && Pending(s, hash)
    ensures Pending(Apply(s, maxRetries, step), hash) ==>
      PromiseOf(Apply(s, maxRetries, step), hash) == PromiseOf(s, hash)
  {
    if step.BatchFailed? {
      FailAllKeepsIdentity(s, step.hashes, step.cause);
    }
  }

  // ---- The code ----

  // ---- What each step tells those who wait ----

  /** Nothing but the request for `hash` and its promise is touched. */
  ghost predicate OnlyOne(s: State, t: State, hash: Hash)
    requires hash in s.ongoing
  {
    && |t.promises| == |s.promises|
    && (forall id :: 0 <= id < |s.promises| && id != s.ongoing[hash].promise ==> t.promises[id] == s.promises[id])
    && t.ongoing == s.ongoing - {hash}
    && forall h :: h != hash ==> (h in t.unprocessed <==> h in s.unprocessed)
  }

  /** A validated hash is fetched if there was no error, and otherwise fails with that error. */
  lemma ValidationTells(s: State, maxRetries: nat, hash: Hash, error: Option<nat>)
    requires AllKnown(s) && hash in s.ongoing
    ensures var t, id := Apply(s, maxRetries, ValidationDone(hash, error)), s.ongoing[hash].promise;
      && OnlyOne(s, t, hash) && t.unprocessed == s.unprocessed
      && (t.promises[id].outcome.Fetched? <==> error.None?)
      && (error.Some? ==> t.promises[id].outcome == Failed(error.value))
  {
  }

  /** A hash the peer did not have is fetched if it is local by now, queued again if it has retries
      left, and otherwise fails with the retry error. */
  lemma RetryTells(s: State, maxRetries: nat, hash: Hash, local: bool)
    requires AllKnown(s) && hash in s.ongoing
    ensures var t, r := Apply(s, maxRetries, FailAfterRetry(hash, local)), s.ongoing[hash];
      && OnlyOne(s, t, hash)
      && (local ==> t.promises[r.promise].outcome == Fetched && t.unprocessed == s.unprocessed)
      && (!local && r.retries < maxRetries ==>
            && t.unprocessed == s.unprocessed[hash := Request(r.promise, r.hint, r.retries + 1)]
            && t.promises[r.promise].outcome == s.promises[r.promise].outcome)
      && (!local && r.retries >= maxRetries ==>
            t.promises[r.promise].outcome == Failed(EXCEED_MAX_RETRIES) && t.unprocessed == s.unprocessed)
  {
  }

  /** A failed batch fails exactly the ongoing hashes it names, with its cause. */
  lemma {:induction false} BatchTells(s: State, maxRetries: nat, hashes: seq<Hash>, error: nat)
    requires AllKnown(s) && Inv(s, maxRetries)
    ensures var t := FailAll(s, hashes, error);
      && |t.promises| == |s.promises| && t.unprocessed == s.unprocessed
      && (forall h :: h in t.ongoing <==> h in s.ongoing && h !in hashes)
      && (forall h :: h in t.ongoing ==> t.ongoing[h] == s.ongoing[h])
      && (forall h :: h in s.ongoing && h in hashes ==> t.promises[s.ongoing[h].promise].outcome == Failed(error))
      && (forall h :: h in s.ongoing && h !in hashes ==>
            t.promises[s.ongoing[h].promise] == s.promises[s.ongoing[h].promise])
    decreases |hashes|
  {
    if hashes != [] {
      var first, rest := hashes[0], hashes[1..];
      assert forall h :: h in hashes <==> h == first || h in rest;
      var u := if first in s.ongoing then Complete(s, first, Failed(error)) else s;
      if first in s.ongoing {
        CompleteKeepsInv(s, maxRetries, first, Failed(error));
        OthersPromise(s, maxRetries, first);
      }
      BatchTells(u, maxRetries, rest, error);
      FailAllKeepsOutcomes(u, maxRetries, rest, error);
      hide Inv, FailAll;
    }
  }

  /** No two ongoing hashes wait for one promise. */
  lemma OthersPromise(s: State, maxRetries: nat, hash: Hash)
    requires Inv(s, maxRetries) && hash in s.ongoing
    ensures forall h :: h in s.ongoing && h != hash ==> s.ongoing[h].promise != s.ongoing[hash].promise
  {
  }

  /** A hash that is neither local nor pending is queued with its hint, no retries used and an open
      promise of its own; in every other case nothing changes. */
  lemma GetHashIs(s: State, maxRetries: nat, hash: Hash, hint: nat, local: bool)
    requires AllKnown(s)
    ensures var t := Apply(s, maxRetries, GetHash(hash, hint, local));
      if local || hash in s.ongoing || hash in s.unprocessed then t == s
      else
        && t.ongoing == s.ongoing && t.unprocessed == s.unprocessed[hash := Request(|s.promises|, hint, 0)]
        && t.promises == s.promises + [Promise(hash, Waiting, 0, 0)]
  {
  }

  /** Sending moves every queued request as it is, and a step on a hash that is not ongoing does
      nothing. */
  lemma OtherStepsAre(s: State, maxRetries: nat, hash: Hash, error: Option<nat>, local: bool)
    requires AllKnown(s)
    ensures var t := Apply(s, maxRetries, GetUnprocessed);
      && t.unprocessed == map[] && t.promises == s.promises
      && (forall h :: h in t.ongoing <==> h in s.ongoing || h in s.unprocessed)
      && (forall h :: h in s.unprocessed ==> t.ongoing[h] == s.unprocessed[h])
      && (forall h :: h in s.ongoing && h !in s.unprocessed ==> t.ongoing[h] == s.ongoing[h])
    ensures hash !in s.ongoing ==>
      Apply(s, maxRetries, ValidationDone(hash, error)) == Apply(s, maxRetries, FailAfterRetry(hash, local)) == s
  {
  }

  // ---- Whole runs ----

  lemma {:induction false} RunStep(maxRetries: nat, steps: seq<Step>, step: Step)
    ensures Run(maxRetries, steps + [step]) == Apply(Run(maxRetries, steps), maxRetries, step)
  {
    assert (steps + [step])[..|steps + [step]| - 1] == steps;
  }

  /** Whatever happens later in a run, a completed promise keeps its outcome. */
  lemma {:induction false} OutcomesLast(maxRetries: nat, steps: seq<Step>, more: seq<Step>)
    ensures OutcomesKept(Run(maxRetries, steps), Run(maxRetries, steps + more))
  {
    if more == [] {
      assert steps + more == steps;
    } else {
      var front, step := more[..|more| - 1], more[|more| - 1];
      OutcomesLast(maxRetries, steps, front);
      assert steps + more == (steps + front) + [step];
      RunStep(maxRetries, steps + front, step);
      RunKeepsInv(maxRetries, steps + front);
      hide Run;
      StepKeepsOutcomes(Run(maxRetries, steps + front), maxRetries, step);
    }
  }

  /** The promise of a pending hash at a later point: still the one waited for, or completed once. */
  ghost predicate Shares(t: State, hash: Hash, id: nat) {
    || (Pending(t, hash) && PromiseOf(t, hash) == id)
    || (id < |t.promises| && t.promises[id].completions == 1)
  }

  /** Everyone who asks for a pending hash, at any later point of a run, gets the one promise that
      is pending, until that promise has completed, once. */
  lemma {:induction false} PromiseLasts(maxRetries: nat, steps: seq<Step>, more: seq<Step>, hash: Hash)
    requires Pending(Run(maxRetries, steps), hash)
    ensures Shares(Run(maxRetries, steps + more), hash, PromiseOf(Run(maxRetries, steps), hash))
  {
    if more == [] {
      assert steps + more == steps;
    } else {
      var front, step := more[..|more| - 1], more[|more| - 1];
      var id := PromiseOf(Run(maxRetries, steps), hash);
      PromiseLasts(maxRetries, steps, front, hash);
      assert steps + more == (steps + front) + [step];
      RunStep(maxRetries, steps + front, step);
      RunKeepsInv(maxRetries, steps + front);
      hide Run;
      StepShares(Run(maxRetries, steps + front), maxRetries, step, hash, id);
    }
  }

  lemma StepShares(s: State, maxRetries: nat, step: Step, hash: Hash, id: nat)
    requires Inv(s, maxRetries) && AllKnown(s) && Shares(s, hash, id)
    ensures Shares(Apply(s, maxRetries, step), hash, id)
  {
    hide Apply;
    if Pending(s, hash) && PromiseOf(s, hash) == id {
      CallersShareOnePromise(s, maxRetries, hash, 0, step);
    } else {
      StepKeepsOutcomes(s, maxRetries, step);
    }
  }

  /** What is sent to a peer for one hash. */
  datatype RequestMessage = RequestMessage(hash: Hash, hint: nat)

  function HashesOf(requests: seq<RequestMessage>): seq<Hash> {
    seq(|requests|, i requires 0 <= i < |requests| => requests[i].hash)
  }

  lemma AppendHash(requests: seq<RequestMessage>, r: RequestMessage)
    ensures HashesOf(requests + [r]) == HashesOf(requests) + [r.hash]
  {
  }

  ghost predicate MovedSoFar(queued: map<Hash, Request>, sent: map<Hash, Request>, left: map<Hash, Request>,
      ongoing: map<Hash, Request>)
  {
    && left.Keys <= queued.Keys
    && (forall h :: h in left ==> left[h] == queued[h])
    && ongoing == sent + (queued - left.Keys)
  }

  ghost predicate Listed(queued: map<Hash, Request>, left: map<Hash, Request>, requests: seq<RequestMessage>) {
    && Enumerates(HashesOf(requests), queued.Keys - left.Keys)
    && forall i :: 0 <= i < |requests| ==>
      requests[i].hash in queued && requests[i].hint == queued[requests[i].hash].hint
  }

  lemma MoveNone(queued: map<Hash, Request>, sent: map<Hash, Request>)
    ensures MovedSoFar(queued, sent, queued, sent) && Listed(queued, queued, [])
  {
  }

  lemma MovedAll(queued: map<Hash, Request>, sent: map<Hash, Request>, ongoing: map<Hash, Request>,
      requests: seq<RequestMessage>)
    requires MovedSoFar(queued, sent, map[], ongoing) && Listed(queued, map[], requests)
    ensures ongoing == sent + queued && Enumerates(HashesOf(requests), queued.Keys)
    ensures forall i :: 0 <= i < |requests| ==>
      requests[i].hash in queued && requests[i].hint == queued[requests[i].hash].hint
  {
    assert queued - {} == queued && queued.Keys - {} == queued.Keys;
  }

  lemma MoveOne(queued: map<Hash, Request>, sent: map<Hash, Request>, left: map<Hash, Request>,
      ongoing: map<Hash, Request>, h: Hash)
    requires MovedSoFar(queued, sent, left, ongoing) && h in left
    ensures MovedSoFar(queued, sent, left - {h}, ongoing[h := left[h]])
  {
  }

  lemma ListOne(queued: map<Hash, Request>, left: map<Hash, Request>, requests: seq<RequestMessage>, h: Hash)
    requires Listed(queued, left, requests) && h in left && h in queued && left[h] == queued[h]
    ensures Listed(queued, left - {h}, requests + [RequestMessage(h, left[h].hint)])
  {
    var done := queued.Keys - left.Keys;
    AppendHash(requests, RequestMessage(h, left[h].hint));
    assert queued.Keys - (left - {h}).Keys == done + {h};
    assert multiset(done + {h}) == multiset(done) + multiset{h};
  }

  /** The two maps and the promises, updated in place.  A promise completes by `once.Do`, which
      acts only the first time. */
  class Fetcher {
    const maxRetries: nat
    var unprocessed: map<Hash, Request>
    var ongoing: map<Hash, Request>
    var promises: seq<Promise>

    ghost function View(): State
      reads this
    {
      State(unprocessed, ongoing, promises)
    }

    ghost predicate Valid()
      reads this
    {
      Inv(View(), maxRetries) && AllKnown(View())
    }

    constructor (maxRetries: nat)
      ensures this.maxRetries == maxRetries && View() == EMPTY && Valid()
    {
      this.maxRetries := maxRetries;
      unprocessed, ongoing, promises := map[], map[], [];
    }

    /** `req.promise.err = err; once.Do(close)`: because of the invariant the promise is always
        still open here. */
    method CompletePromise(hash: Hash, outcome: Outcome)
      requires Valid() && hash in ongoing && !outcome.Waiting?
      modifies `promises, `ongoing
      ensures View() == Complete(old(View()), hash, outcome)
      ensures Valid()
    {
      var id := ongoing[hash].promise;
      var p := promises[id];
      assert RequestOk(View(), maxRetries, hash, ongoing[hash]);
      assert PromiseOk(View(), maxRetries, id);
      assert p.completions == 0 && p.outcome.Waiting?;
      CompleteKeepsInv(View(), maxRetries, hash, outcome);
      promises := promises[id := p.(outcome := outcome, completions := p.completions + 1)];
      ongoing := ongoing - {hash};
    }

    /** Returns the promise to wait for, or none when the data is available locally. */
    method GetHash(hash: Hash, hint: nat, local: bool) returns (promise: Option<nat>)
      requires Valid()
      modifies this
      ensures View() == Apply(old(View()), maxRetries, Step.GetHash(hash, hint, local)) && Valid()
      ensures promise.None? <==> local
      ensures !local ==> Pending(View(), hash) && promise == Some(PromiseOf(View(), hash))
      ensures !local && Pending(old(View()), hash) ==> promise == Some(PromiseOf(old(View()), hash))
    {
      StepKeepsInv(View(), maxRetries, Step.GetHash(hash, hint, local));
      if local {
        return None;
      }
      if hash in ongoing {
        return Some(ongoing[hash].promise);
      }
      if hash !in unprocessed {
        unprocessed := unprocessed[hash := Request(|promises|, hint, 0)];
        promises := promises + [Promise(hash, Waiting, 0, 0)];
      }
      return Some(unprocessed[hash].promise);
    }

    /** Moves every queued request to `ongoing`, in any order, and returns what to ask for: one
        message per queued hash, with its hint. */
    method GetUnprocessed() returns (requests: seq<RequestMessage>)
      requires Valid()
      modifies `unprocessed, `ongoing
      ensures View() == Apply(old(View()), maxRetries, Step.GetUnprocessed) && Valid()
      ensures Enumerates(HashesOf(requests), old(unprocessed).Keys)
      ensures forall i :: 0 <= i < |requests| ==>
        requests[i].hash in old(unprocessed) && requests[i].hint == old(unprocessed)[requests[i].hash].hint
    {
      MoveKeepsInv(View(), maxRetries);
      requests := MoveAll();
    }

    method MoveAll() returns (requests: seq<RequestMessage>)
      requires unprocessed.Keys !! ongoing.Keys
      modifies `unprocessed, `ongoing
      ensures unprocessed == map[] && ongoing == old(ongoing) + old(unprocessed)
      ensures Enumerates(HashesOf(requests), old(unprocessed).Keys)
      ensures forall i :: 0 <= i < |requests| ==>
        requests[i].hash in old(unprocessed) && requests[i].hint == old(unprocessed)[requests[i].hash].hint
    {
      hide Listed, HashesOf, Enumerates;
      requests := [];
      ghost var queued, sent := unprocessed, ongoing;
      MoveNone(queued, sent);
      while unprocessed != map[]
        invariant MovedSoFar(queued, sent, unprocessed, ongoing) && Listed(queued, unprocessed, requests)
        decreases unprocessed.Keys
      {
        var h :| h in unprocessed;
        MoveOne(queued, sent, unprocessed, ongoing, h);
        ListOne(queued, unprocessed, requests, h);
        requests := requests + [RequestMessage(h, unprocessed[h].hint)];
        ongoing := ongoing[h := unprocessed[h]];
        unprocessed := unprocessed - {h};
      }
      MovedAll(queued, sent, ongoing, requests);
    }

    method HashValidationDone(hash: Hash, error: Option<nat>)
      requires Valid()
      modifies this
      ensures View() == Apply(old(View()), maxRetries, ValidationDone(hash, error)) && Valid()
    {
      if hash in ongoing {
        CompletePromise(hash, if error.None? then Fetched else Failed(error.value));
      }
    }

    method FailAfterRetry(hash: Hash, local: bool)
      requires Valid()
      modifies this
      ensures View() == Apply(old(View()), maxRetries, Step.FailAfterRetry(hash, local)) && Valid()
    {
      StepKeepsInv(View(), maxRetries, Step.FailAfterRetry(hash, local));
      if hash !in ongoing {
        return;
      }
      if local {
        CompletePromise(hash, Fetched);
        return;
      }
      var r := ongoing[hash];
      r := r.(retries := r.retries + 1);
      if r.retries > maxRetries {
        CompletePromise(hash, Failed(EXCEED_MAX_RETRIES));
      } else {
        var p := promises[r.promise];
        unprocessed := unprocessed[hash := r];
        promises := promises[r.promise := p.(requeues := p.requeues + 1)];
        ongoing := ongoing - {hash};
      }
    }

    /** The loop of `handleHashError`, and of `organizeRequests` when there are no peers. */
    method HandleHashError(hashes: seq<Hash>, error: nat)
      requires Valid()
      modifies this
      ensures View() == Apply(old(View()), maxRetries, BatchFailed(hashes, error)) && Valid()
    {
      ghost var before := View();
      for i := 0 to |hashes|
        invariant Valid()
        invariant FailAll(before, hashes, error) == FailAll(View(), hashes[i..], error)
      {
        assert hashes[i..][1..] == hashes[i + 1..];
        if hashes[i] in ongoing {
          CompletePromise(hashes[i], Failed(error));
        }
      }
    }
  }
}
