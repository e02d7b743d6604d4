/** The in-memory index of ATXs by target epoch, with a quick lookup for the node's own
    identities.  The lookup is a second structure kept beside the first; every run keeps the
    two in agreement. */
module AtxIndex {
  import opened Ids
  import Sorting

  type Epoch = nat

  datatype Atx = Atx(node: NodeID, weight: nat, baseHeight: nat, height: nat)

  /** `managed` maps an epoch and one of the `signers` to an ATX of that signer. */
  datatype State = State(
    evicted: Epoch, malicious: set<NodeID>, epochs: map<Epoch, map<ATXID, Atx>>,
    signers: set<NodeID>, managed: map<Epoch, map<NodeID, ATXID>>)

  const EMPTY := State(0, {}, map[], {}, map[])

  ghost predicate Holds(s: State, e: Epoch, id: ATXID, n: NodeID) {
    e in s.epochs && id in s.epochs[e] && s.epochs[e][id].node == n
  }

  ghost predicate HasAtx(s: State, e: Epoch, n: NodeID) {
    exists id :: Holds(s, e, id, n)
  }

  // ---- Operations ----

  predicate IsEvicted(s: State, e: Epoch) {
    s.evicted >= e
  }

  function Evict(s: State, e: Epoch): (s': State)
    ensures s'.evicted == if s.evicted < e then e else s.evicted
  {
    if IsEvicted(s, e) then s
    else s.(
      evicted := e,
      managed := map k | k in s.managed && k > e :: s.managed[k],
      epochs := map k | k in s.epochs && k > e :: s.epochs[k])
  }

  predicate Adds(s: State, e: Epoch, id: ATXID) {
    !IsEvicted(s, e) && !(e in s.epochs && id in s.epochs[e])
  }

  function In<K, V>(m: map<Epoch, map<K, V>>, e: Epoch): map<K, V> {
    if e in m then m[e] else map[]
  }

  function Add(s: State, e: Epoch, id: ATXID, atx: Atx): State {
    if !Adds(s, e, id) then s
    else s.(
      epochs := s.epochs[e := In(s.epochs, e)[id := atx]],
      managed := if atx.node in s.signers then s.managed[e := In(s.managed, e)[atx.node := id]] else s.managed)
  }

  function Mark(s: State, n: NodeID): State {
    s.(malicious := s.malicious + {n})
  }

  /** Registering writes into the lookup of an epoch without creating it. */
  ghost predicate RegisterPanics(s: State, n: NodeID) {
    n !in s.signers && exists e :: e in s.epochs && e !in s.managed && HasAtx(s, e, n)
  }

  /** Which of several ATXs of one identity is entered is left open, as the order of a Go map
      is. */
  ghost predicate Registers(s: State, n: NodeID, s': State) {
    if n in s.signers then s' == s
    else
      && s' == s.(signers := s.signers + {n}, managed := s'.managed)
      && s'.managed.Keys == s.managed.Keys
      && forall e :: e in s.managed ==> Entered(s, e, n, s'.managed[e])
  }

  ghost predicate Entered(s: State, e: Epoch, n: NodeID, after: map<NodeID, ATXID>)
    requires e in s.managed
  {
    if HasAtx(s, e, n) then n in after && Holds(s, e, after[n], n) && after == s.managed[e][n := after[n]]
    else after == s.managed[e]
  }

  // ---- The invariant ----

  ghost predicate Listed(s: State, e: Epoch, n: NodeID) {
    e in s.managed && n in s.managed[e]
  }

  ghost predicate Consistent(s: State) {
    forall e, n :: Listed(s, e, n) ==> n in s.signers && Holds(s, e, s.managed[e][n], n)
  }

  ghost predicate Complete(s: State) {
    forall e, n :: n in s.signers && HasAtx(s, e, n) ==> Listed(s, e, n)
  }

  ghost predicate Recent(s: State) {
    (forall e :: e in s.epochs ==> e > s.evicted) && (forall e :: e in s.managed ==> e > s.evicted)
  }

  ghost predicate Inv(s: State) {
    Consistent(s) && Complete(s) && Recent(s)
  }

  lemma EvictHolds(s: State, e: Epoch, k: Epoch, id: ATXID, n: NodeID)
    ensures Holds(Evict(s, e), k, id, n) <==> Holds(s, k, id, n) && (k > e || IsEvicted(s, e))
  {
  }

  lemma EvictKeepsInv(s: State, e: Epoch)
    requires Inv(s)
    ensures Inv(Evict(s, e))
  {
    var s' := Evict(s, e);
    forall k, n | Listed(s', k, n)
      ensures n in s'.signers && Holds(s', k, s'.managed[k][n], n)
    {
      assert Listed(s, k, n);
      EvictHolds(s, e, k, s'.managed[k][n], n);
    }
    forall k, n | n in s'.signers && HasAtx(s', k, n)
      ensures Listed(s', k, n)
    {
      var id :| Holds(s', k, id, n);
      EvictHolds(s, e, k, id, n);
      assert HasAtx(s, k, n) && Listed(s, k, n);
    }
  }

  lemma AddHolds(s: State, e: Epoch, id: ATXID, atx: Atx, k: Epoch, i: ATXID, n: NodeID)
    ensures Holds(Add(s, e, id, atx), k, i, n) <==>
      Holds(s, k, i, n) || (Adds(s, e, id) && k == e && i == id && n == atx.node)
  {
  }

  /** An ATX is added exactly when its epoch is not evicted and it is not there; it is then held as
      it is, and every other one stays as it was. */
  lemma AddIs(s: State, e: Epoch, id: ATXID, atx: Atx, k: Epoch, i: ATXID)
    ensures var t := Add(s, e, id, atx);
      && (e > s.evicted && !Held(s, e, id) ==> Held(t, e, id) && t.epochs[e][id] == atx)
      && (!(e > s.evicted && !Held(s, e, id)) ==> t == s)
      && ((k, i) != (e, id) ==> (Held(t, k, i) <==> Held(s, k, i)))
      && (Held(s, k, i) ==> Held(t, k, i) && t.epochs[k][i] == s.epochs[k][i])
      && t.malicious == s.malicious && t.signers == s.signers && t.evicted == s.evicted
  {
  }

  /** Evicting keeps exactly the later epochs, as they were. */
  lemma EvictIs(s: State, e: Epoch, k: Epoch, i: ATXID)
    requires Recent(s)
    ensures var t := Evict(s, e);
      && (Held(t, k, i) <==> Held(s, k, i) && k > e)
      && (Held(t, k, i) ==> t.epochs[k][i] == s.epochs[k][i])
      && (forall n :: e > s.evicted ==> (Listed(t, k, n) <==> Listed(s, k, n) && k > e))
      && (forall n :: Listed(t, k, n) ==> t.managed[k][n] == s.managed[k][n])
      && t.malicious == s.malicious && t.signers == s.signers
  {
  }

  ghost predicate Held(s: State, e: Epoch, id: ATXID) {
    e in s.epochs && id in s.epochs[e]
  }

  lemma MarkIs(s: State, n: NodeID, m: NodeID)
    ensures m in Mark(s, n).malicious <==> m == n || m in s.malicious
    ensures Mark(s, n).epochs == s.epochs && Mark(s, n).managed == s.managed
  {
  }

  lemma AddKeepsConsistent(s: State, e: Epoch, id: ATXID, atx: Atx)
    requires Inv(s)
    ensures Consistent(Add(s, e, id, atx))
  {
    var s' := Add(s, e, id, atx);
    forall k, n | Listed(s', k, n)
      ensures n in s'.signers && Holds(s', k, s'.managed[k][n], n)
    {
      AddHolds(s, e, id, atx, k, s'.managed[k][n], n);
      assert Listed(s, k, n) || (Adds(s, e, id) && k == e && n == atx.node);
    }
  }

  lemma AddKeepsComplete(s: State, e: Epoch, id: ATXID, atx: Atx)
    requires Inv(s)
    ensures Complete(Add(s, e, id, atx))
  {
    var s' := Add(s, e, id, atx);
    forall k, n | n in s'.signers && HasAtx(s', k, n)
      ensures Listed(s', k, n)
    {
      var i :| Holds(s', k, i, n);
      AddHolds(s, e, id, atx, k, i, n);
      assert Holds(s, k, i, n) ==> HasAtx(s, k, n) && Listed(s, k, n);
    }
  }

  lemma SameHolds(s: State, s': State, e: Epoch, n: NodeID)
    requires s'.epochs == s.epochs
    ensures HasAtx(s', e, n) <==> HasAtx(s, e, n)
  {
    if HasAtx(s, e, n) {
      var id :| Holds(s, e, id, n);
      assert Holds(s', e, id, n);
    }
    if HasAtx(s', e, n) {
      var id :| Holds(s', e, id, n);
      assert Holds(s, e, id, n);
    }
  }

  lemma RegisterKeepsConsistent(s: State, n: NodeID, s': State)
    requires Inv(s) && Registers(s, n, s')
    ensures Consistent(s')
  {
  }

  lemma RegisterKeepsComplete(s: State, n: NodeID, s': State)
    requires Inv(s) && Registers(s, n, s') && !RegisterPanics(s, n)
    ensures Complete(s')
  {
    forall e, m | m in s'.signers && HasAtx(s', e, m)
      ensures Listed(s', e, m)
    {
      SameHolds(s, s', e, m);
      if n !in s.signers {
        var id :| Holds(s, e, id, m);
        assert m == n || Listed(s, e, m);
        assert e in s.managed;
        assert Entered(s, e, n, s'.managed[e]);
      }
    }
  }

  // ---- Runs ----

  datatype Step =
    | RegisterSigner(node: NodeID)
    | AddAtx(epoch: Epoch, id: ATXID, atx: Atx)
    | EvictEpoch(epoch: Epoch)
    | MarkMalicious(node: NodeID)

  ghost predicate Next(s: State, step: Step, s': State) {
    match step
    case RegisterSigner(n) => !RegisterPanics(s, n) && Registers(s, n, s')
    case AddAtx(e, id, atx) => s' == Add(s, e, id, atx)
    case EvictEpoch(e) => s' == Evict(s, e)
    case MarkMalicious(n) => s' == Mark(s, n)
  }

  ghost predicate Panics(s: State, step: Step) {
    step.RegisterSigner? && RegisterPanics(s, step.node)
  }

  ghost predicate IsRun(states: seq<State>, steps: seq<Step>) {
    && |states| == |steps| + 1 && states[0] == EMPTY
    && forall i :: 0 <= i < |steps| ==> Next(states[i], steps[i], states[i + 1])
  }

  lemma MarkKeepsInv(s: State, n: NodeID)
    requires Inv(s)
    ensures Inv(Mark(s, n))
  {
    var s' := Mark(s, n);
    forall e, m | m in s'.signers && HasAtx(s', e, m)
      ensures Listed(s', e, m)
    {
      SameHolds(s, s', e, m);
      assert Listed(s, e, m);
    }
    forall e, m | Listed(s', e, m)
      ensures m in s'.signers && Holds(s', e, s'.managed[e][m], m)
    {
      assert Listed(s, e, m);
      assert Holds(s, e, s.managed[e][m], m);
    }
  }

  lemma NextKeepsInv(s: State, step: Step, s': State)
    requires Inv(s) && Next(s, step, s')
    ensures Inv(s') && s.evicted <= s'.evicted
  {
    match step
    case RegisterSigner(n) =>
      RegisterKeepsConsistent(s, n, s');
      RegisterKeepsComplete(s, n, s');
    case AddAtx(e, id, atx) =>
      AddKeepsConsistent(s, e, id, atx);
      AddKeepsComplete(s, e, id, atx);
    case EvictEpoch(e) => EvictKeepsInv(s, e);
    case MarkMalicious(n) => MarkKeepsInv(s, n);
  }

  /** The index and the lookup agree in every state of every run. */
  lemma {:induction false} RunKeepsInv(states: seq<State>, steps: seq<Step>, i: nat)
    requires IsRun(states, steps) && i < |states|
    ensures Inv(states[i])
  {
    if i > 0 {
      RunKeepsInv(states, steps, i - 1);
      NextKeepsInv(states[i - 1], steps[i - 1], states[i]);
    }
  }

  lemma {:induction false} EvictedGrows(states: seq<State>, steps: seq<Step>, i: nat, j: nat)
    requires IsRun(states, steps) && i <= j < |states|
    ensures states[i].evicted <= states[j].evicted
  {
    if i < j {
      EvictedGrows(states, steps, i, j - 1);
      RunKeepsInv(states, steps, j - 1);
      NextKeepsInv(states[j - 1], steps[j - 1], states[j]);
    }
  }

  /** An evicted epoch never comes back, in either structure. */
  lemma EvictedStaysOut(states: seq<State>, steps: seq<Step>, i: nat, j: nat)
    requires IsRun(states, steps) && i < j < |states| && steps[i].EvictEpoch?
    ensures forall e :: e <= steps[i].epoch ==> e !in states[j].epochs && e !in states[j].managed
  {
    EvictedGrows(states, steps, i + 1, j);
    assert Next(states[i], steps[i], states[i + 1]);
    RunKeepsInv(states, steps, j);
  }

  ghost predicate Added(steps: seq<Step>, n: NodeID) {
    exists i :: 0 <= i < |steps| && steps[i].AddAtx? && steps[i].atx.node == n
  }

  /** Everything held was added by some earlier step. */
  lemma {:induction false} HeldWasAdded(states: seq<State>, steps: seq<Step>, i: nat, e: Epoch, id: ATXID, n: NodeID)
    requires IsRun(states, steps) && i < |states| && Holds(states[i], e, id, n)
    ensures Added(steps[..i], n)
  {
    if i > 0 {
      var s, step := states[i - 1], steps[i - 1];
      assert Next(s, step, states[i]);
      if Holds(s, e, id, n) {
        HeldWasAdded(states, steps, i - 1, e, id, n);
        var k :| 0 <= k < i - 1 && steps[..i - 1][k].AddAtx? && steps[..i - 1][k].atx.node == n;
        assert steps[..i][k] == steps[..i - 1][k];
      } else {
        OnlyAddAdds(s, step, states[i], e, id, n);
        assert steps[..i][i - 1] == step;
      }
    }
  }

  lemma OnlyAddAdds(s: State, step: Step, s': State, e: Epoch, id: ATXID, n: NodeID)
    requires Next(s, step, s') && Holds(s', e, id, n) && !Holds(s, e, id, n)
    ensures step.AddAtx? && step.atx.node == n
  {
  }

  /** Registering a signer before any of its ATXs is added never panics. */
  lemma RegisteredFirstNeverPanics(states: seq<State>, steps: seq<Step>, n: NodeID)
    requires IsRun(states, steps) && !Added(steps, n)
    ensures !Panics(states[|steps|], RegisterSigner(n))
  {
    var s := states[|steps|];
    assert steps[..|steps|] == steps;
    if RegisterPanics(s, n) {
      var e :| e in s.epochs && e !in s.managed && HasAtx(s, e, n);
      var id :| Holds(s, e, id, n);
      HeldWasAdded(states, steps, |steps|, e, id, n);
    }
  }

  /** The other order does panic: registering the owner of the only ATX added to an empty
      index fails unless the ATX was for an evicted epoch. */
  lemma LateRegistrationPanics(e: Epoch, id: ATXID, atx: Atx)
    ensures Panics(Add(EMPTY, e, id, atx), RegisterSigner(atx.node)) <==> e > 0
  {
    var s := Add(EMPTY, e, id, atx);
    if e > 0 {
      assert Holds(s, e, id, atx.node);
    }
  }

  // ---- Lookup ----

  ghost predicate IsLookup(s: State, e: Epoch, n: NodeID, r: Option<ATXID>) {
    if r.Some? then Holds(s, e, r.value, n) else !HasAtx(s, e, n)
  }

  method Scan(s: State, e: Epoch, n: NodeID) returns (r: Option<ATXID>)
    ensures IsLookup(s, e, n, r)
  {
    if e !in s.epochs {
      return None;
    }
    var ids := Sorting.Enumerate(s.epochs[e].Keys);
    for i := 0 to |ids|
      invariant forall k :: 0 <= k < i ==> !Holds(s, e, ids[k], n)
    {
      Sorting.EnumerationContains(ids, s.epochs[e].Keys, ids[i]);
      if s.epochs[e][ids[i]].node == n {
        return Some(ids[i]);
      }
    }
    forall id | Holds(s, e, id, n)
      ensures false
    {
      Sorting.EnumerationContains(ids, s.epochs[e].Keys, id);
    }
    return None;
  }

  /** In every state of every run the quick lookup alone decides for signers: it lists one exactly
      when a scan would find an ATX of it, and names such an ATX. */
  lemma {:induction false} LookupDecides(states: seq<State>, steps: seq<Step>, i: nat, e: Epoch, n: NodeID)
    requires IsRun(states, steps) && i < |states|
    ensures var s := states[i];
      && (Listed(s, e, n) <==> n in s.signers && HasAtx(s, e, n))
      && (Listed(s, e, n) ==> IsLookup(s, e, n, Some(s.managed[e][n])))
  {
    RunKeepsInv(states, steps, i);
    var s := states[i];
    if Listed(s, e, n) {
      assert Holds(s, e, s.managed[e][n], n);
    }
  }

  // ---- Searching for a high ATX ----

  datatype Candidate = Candidate(id: ATXID, height: nat)

  datatype Search = Found(id: ATXID) | NotFound | Cancelled

  function Downwards(c: Candidate): int {
    -(c.height as int)
  }

  ghost predicate Honest(s: State, e: Epoch, id: ATXID) {
    e in s.epochs && id in s.epochs[e] && s.epochs[e][id].node !in s.malicious
  }

  ghost predicate IsCandidate(s: State, e: Epoch, c: Candidate) {
    Honest(s, e, c.id) && c.height == s.epochs[e][c.id].height
  }

  /** Exactly the honest ATXs of the epoch, highest first. */
  ghost predicate Ranks(s: State, e: Epoch, candidates: seq<Candidate>) {
    && (forall c :: c in candidates ==> IsCandidate(s, e, c))
    && (forall id :: Honest(s, e, id) ==> Candidate(id, s.epochs[e][id].height) in candidates)
    && (forall i, j :: 0 <= i < j < |candidates| ==> candidates[i].height >= candidates[j].height)
  }

  lemma SortedRanks(s: State, e: Epoch, candidates: seq<Candidate>, sorted: seq<Candidate>)
    requires forall c :: c in candidates ==> IsCandidate(s, e, c)
    requires forall id :: Honest(s, e, id) ==> Candidate(id, s.epochs[e][id].height) in candidates
    requires multiset(sorted) == multiset(candidates) && Sorting.SortedBy(sorted, Downwards)
    ensures Ranks(s, e, sorted)
  {
    forall c
      ensures c in sorted <==> c in candidates
    {
      assert c in multiset(sorted) <==> c in multiset(candidates);
    }
    forall i, j | 0 <= i < j < |sorted|
      ensures sorted[i].height >= sorted[j].height
    {
      assert Downwards(sorted[i]) <= Downwards(sorted[j]);
    }
  }

  ghost predicate Eligible(s: State, e: Epoch, valid: set<ATXID>, id: ATXID) {
    Honest(s, e, id) && id in valid
  }

  ghost predicate NoneEligible(s: State, e: Epoch, valid: set<ATXID>) {
    forall id :: !Eligible(s, e, valid, id)
  }

  ghost predicate IsHighest(s: State, e: Epoch, valid: set<ATXID>, id: ATXID) {
    && Eligible(s, e, valid, id)
    && forall k :: Eligible(s, e, valid, k) ==> s.epochs[e][k].height <= s.epochs[e][id].height
  }

  lemma FirstValidIsHighest(s: State, e: Epoch, valid: set<ATXID>, candidates: seq<Candidate>, i: nat)
    requires Ranks(s, e, candidates) && i < |candidates| && candidates[i].id in valid
    requires forall k :: 0 <= k < i ==> candidates[k].id !in valid
    ensures IsHighest(s, e, valid, candidates[i].id)
  {
    assert candidates[i] in candidates;
    forall id | Eligible(s, e, valid, id)
      ensures s.epochs[e][id].height <= s.epochs[e][candidates[i].id].height
    {
      var c := Candidate(id, s.epochs[e][id].height);
      assert c in candidates;
      var k :| 0 <= k < |candidates| && candidates[k] == c;
    }
  }

  // ---- The object ----

  /** The lookup of one epoch after some of its ATXs were looked at. */
  ghost predicate EnteredSoFar(s: State, e: Epoch, n: NodeID, ids: seq<ATXID>, after: map<NodeID, ATXID>)
    requires e in s.managed
  {
    if exists id :: id in ids && Holds(s, e, id, n)
    then n in after && Holds(s, e, after[n], n) && after == s.managed[e][n := after[n]]
    else after == s.managed[e]
  }

  lemma EnteredSame(s: State, t: State, e: Epoch, n: NodeID, managed: map<Epoch, map<NodeID, ATXID>>)
    requires s.epochs == t.epochs && (e in s.managed <==> e in t.managed)
    requires e in s.managed ==> e in managed && s.managed[e] == t.managed[e] && Entered(t, e, n, managed[e])
    ensures e in s.managed ==> Entered(s, e, n, managed[e])
  {
    SameHolds(s, t, e, n);
  }

  class Data {
    var evicted: Epoch
    var malicious: set<NodeID>
    var epochs: map<Epoch, map<ATXID, Atx>>
    var signers: set<NodeID>
    var managed: map<Epoch, map<NodeID, ATXID>>

    ghost function View(): State
      reads this
    {
      State(evicted, malicious, epochs, signers, managed)
    }

    constructor ()
      ensures View() == EMPTY && Inv(View())
    {
      evicted, malicious, epochs, signers, managed := 0, {}, map[], {}, map[];
    }

    method SetMalicious(n: NodeID)
      modifies this
      ensures View() == Mark(old(View()), n)
    {
      malicious := malicious + {n};
    }

    method EvictEpoch(e: Epoch)
      modifies `evicted, `managed, `epochs
      ensures View() == Evict(old(View()), e)
    {
      if evicted >= e {
        return;
      }
      evicted := e;
      EvictManaged(e);
      EvictAtxs(e);
    }

    method EvictManaged(e: Epoch)
      modifies `managed
      ensures managed == map k | k in old(managed) && k > e :: old(managed)[k]
    {
      var left := managed.Keys;
      while left != {}
        invariant left <= old(managed).Keys
        invariant managed == map k | k in old(managed) && (k > e || k in left) :: old(managed)[k]
      {
        var k :| k in left;
        if k <= e {
          managed := managed - {k};
        }
        left := left - {k};
      }
    }

    method EvictAtxs(e: Epoch)
      modifies `epochs
      ensures epochs == map k | k in old(epochs) && k > e :: old(epochs)[k]
    {
      var left := epochs.Keys;
      while left != {}
        invariant left <= old(epochs).Keys
        invariant epochs == map k | k in old(epochs) && (k > e || k in left) :: old(epochs)[k]
      {
        var k :| k in left;
        if k <= e {
          epochs := epochs - {k};
        }
        left := left - {k};
      }
    }

    method AddAtx(e: Epoch, id: ATXID, atx: Atx) returns (added: bool)
      modifies this
      ensures View() == Add(old(View()), e, id, atx)
      ensures added <==> Adds(old(View()), e, id)
    {
      if evicted >= e {
        return false;
      }
      var held: map<ATXID, Atx> := map[];
      if e in epochs {
        held := epochs[e];
      }
      if id in held {
        return false;
      }
      held := held[id := atx];
      epochs := epochs[e := held];
      if atx.node in signers {
        var own: map<NodeID, ATXID> := map[];
        if e in managed {
          own := managed[e];
        }
        own := own[atx.node := id];
        managed := managed[e := own];
      }
      return true;
    }

    /** Enters the ATXs of `n` in epoch `e` into the lookup. */
    method EnterEpoch(e: Epoch, n: NodeID) returns (panicked: bool)
      requires e in epochs
      modifies this`managed
      ensures panicked <==> HasAtx(old(View()), e, n) && e !in old(managed)
      ensures managed.Keys == old(managed).Keys
      ensures !panicked ==> forall k :: k in managed ==>
        if k == e then Entered(old(View()), e, n, managed[e]) else managed[k] == old(managed)[k]
    {
      var ids := Sorting.Enumerate(epochs[e].Keys);
      for i := 0 to |ids|
        invariant managed.Keys == old(managed).Keys
        invariant forall k :: k in managed && k != e ==> managed[k] == old(managed)[k]
        invariant e in managed ==> EnteredSoFar(old(View()), e, n, ids[..i], managed[e])
        invariant forall k :: 0 <= k < i ==> Holds(old(View()), e, ids[k], n) ==> e in managed
      {
        Sorting.EnumerationContains(ids, epochs[e].Keys, ids[i]);
        if epochs[e][ids[i]].node == n {
          assert Holds(old(View()), e, ids[i], n);
          if e !in managed {
            return true;
          }
          var own: map<NodeID, ATXID> := managed[e][n := ids[i]];
          managed := managed[e := own];
        }
      }
      forall id | Holds(old(View()), e, id, n)
        ensures id in ids
      {
        Sorting.EnumerationContains(ids, epochs[e].Keys, id);
      }
      assert ids[..|ids|] == ids;
      return false;
    }

    /** `Register`; a panic is a write to a missing map. */
    method Register(n: NodeID) returns (panicked: bool)
      modifies this`signers, this`managed
      ensures panicked <==> RegisterPanics(old(View()), n)
      ensures !panicked ==> Registers(old(View()), n, View())
    {
      if n in signers {
        return false;
      }
      ghost var before := View();
      signers := signers + {n};
      var es := Sorting.Enumerate(epochs.Keys);
      for i := 0 to |es|
        invariant signers == before.signers + {n} && managed.Keys == before.managed.Keys
        invariant forall e :: e in managed ==>
          if e in es[..i] then Entered(before, e, n, managed[e]) else managed[e] == before.managed[e]
        invariant forall k :: 0 <= k < i ==> es[k] in managed || !HasAtx(before, es[k], n)
      {
        Sorting.EnumerationContains(es, epochs.Keys, es[i]);
        Sorting.EnumerationDistinct(es, epochs.Keys);
        assert es[i] !in es[..i];
        ghost var here := View();
        SameHolds(before, here, es[i], n);
        panicked := EnterEpoch(es[i], n);
        if panicked {
          return;
        }
        EnteredSame(before, here, es[i], n, managed);
      }
      forall e | e in epochs
        ensures e in es && (e in before.managed || !HasAtx(before, e, n))
      {
        Sorting.EnumerationContains(es, epochs.Keys, e);
        var k :| 0 <= k < |es| && es[k] == e;
      }
      assert es[..|es|] == es;
      return false;
    }

    /** `GetByEpochAndNodeID`. */
    method GetByEpochAndNodeID(e: Epoch, n: NodeID) returns (r: Option<ATXID>)
      requires Inv(View())
      ensures IsLookup(View(), e, n, r)
    {
      if e in managed && n in managed[e] {
        var id := managed[e][n];
        if e in epochs && id in epochs[e] {
          assert Listed(View(), e, n);
          return Some(id);
        }
      }
      r := Scan(State(evicted, malicious, epochs, signers, managed), e, n);
    }

    /** `IterateHighTicksInEpoch`, up to the callbacks: the honest ATXs of an epoch, highest
        first. */
    method HighTicks(e: Epoch) returns (candidates: seq<Candidate>)
      ensures Ranks(View(), e, candidates)
    {
      candidates := [];
      if e !in epochs {
        return;
      }
      var ids := Sorting.Enumerate(epochs[e].Keys);
      for i := 0 to |ids|
        invariant forall id :: id in ids[..i] && Honest(View(), e, id) ==>
          Candidate(id, epochs[e][id].height) in candidates
        invariant forall c :: c in candidates ==> IsCandidate(View(), e, c)
      {
        Sorting.EnumerationContains(ids, epochs[e].Keys, ids[i]);
        var atx := epochs[e][ids[i]];
        if atx.node !in malicious {
          candidates := candidates + [Candidate(ids[i], atx.height)];
        }
      }
      assert ids[..|ids|] == ids;
      forall id | Honest(View(), e, id)
        ensures id in ids
      {
        Sorting.EnumerationContains(ids, epochs[e].Keys, id);
      }
      var sorted := Sorting.Sort(candidates, Downwards);
      SortedRanks(View(), e, candidates, sorted);
      candidates := sorted;
    }

    /** `findFullyValidHighTickAtx` for a fixed verdict on every chain.  The context counts as
        cancelled from its `cancelled`-th inspection on, if that is given. */
    method FindHighTick(e: Epoch, valid: set<ATXID>, cancelled: Option<nat>) returns (r: Search)
      ensures r.Found? ==> IsHighest(View(), e, valid, r.id)
      ensures r.NotFound? ==> NoneEligible(View(), e, valid)
      ensures r.Cancelled? ==> cancelled.Some?
      ensures cancelled.None? ==> (r.NotFound? <==> NoneEligible(View(), e, valid))
    {
      var candidates := HighTicks(e);
      var found: Option<ATXID> := None;
      var i := 0;
      while i < |candidates| && found.None? && !(cancelled.Some? && cancelled.value <= i)
        invariant i <= |candidates|
        invariant found.None? ==> forall k :: 0 <= k < i ==> candidates[k].id !in valid
        invariant found.Some? ==> IsHighest(View(), e, valid, found.value)
      {
        if candidates[i].id in valid {
          FirstValidIsHighest(View(), e, valid, candidates, i);
          found := Some(candidates[i].id);
        }
        i := i + 1;
      }
      if cancelled.Some? && cancelled.value <= i {
        return Cancelled;
      }
      if found.None? {
        return NotFound;
      }
      return Found(found.value);
    }
  }
}
