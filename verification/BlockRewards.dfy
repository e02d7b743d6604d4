/** Building the reward list of a block from a layer's proposals, and the syntactic check that
    other nodes apply to it. */
module BlockRewards {
  import opened Ids
  import opened Rational
  import opened Words
  import Rewards
  import Sorting

  datatype Atx = Atx(weight: nat, baseHeight: nat)

  /** `ownCount` is the eligibility count of the proposal's own epoch data, if it carries any. */
  datatype LayerProposal = LayerProposal(epoch: nat, atx: ATXID, ownCount: Option<nat>, refBallot: nat, proofs: nat)

  /** Indexed ATXs by epoch, and the eligibility counts of stored ballots that have epoch data. */
  datatype State = State(atxs: map<(nat, ATXID), Atx>, ballots: map<nat, Option<nat>>)

  datatype AnyReward = AnyReward(atx: ATXID, num: nat, denom: nat)

  datatype Failure = AtxNotFound | BallotNotFound | CorruptBallot | DuplicateAtx | DividedByZero

  datatype Outcome = Info(height: nat, rewards: seq<AnyReward>) | Failed(failure: Failure)

  // ---- What the list should be ----

  function Count(st: State, p: LayerProposal): (c: Option<nat>) {
    if p.ownCount.Some? then p.ownCount
    else if p.refBallot in st.ballots then st.ballots[p.refBallot]
    else None
  }

  predicate Resolves(st: State, p: LayerProposal) {
    (p.epoch, p.atx) in st.atxs && Count(st, p).Some? && Count(st, p).value > 0
  }

  /** The ATX's weight per eligibility, times the eligibilities proven. */
  function WeightOf(st: State, p: LayerProposal): (w: Fraction)
    requires Resolves(st, p)
  {
    Mul(Norm(st.atxs[(p.epoch, p.atx)].weight, Count(st, p).value), Rat(p.proofs, 1))
  }

  function RewardFor(st: State, p: LayerProposal): AnyReward
    requires Resolves(st, p)
  {
    Stored(p.atx, WeightOf(st, p))
  }

  /** Both terms are cut to 64 bits. */
  function Stored(atx: ATXID, w: Fraction): AnyReward {
    AnyReward(atx, w.num % U64, w.den % U64)
  }

  ghost predicate AllResolve(st: State, props: seq<LayerProposal>) {
    forall i :: 0 <= i < |props| ==> Resolves(st, props[i])
  }

  ghost predicate DistinctAtxs(props: seq<LayerProposal>) {
    forall i, j :: 0 <= i < j < |props| ==> props[i].atx != props[j].atx
  }

  ghost predicate Generable(st: State, props: seq<LayerProposal>) {
    AllResolve(st, props) && DistinctAtxs(props)
  }

  ghost predicate IsHeight(st: State, props: seq<LayerProposal>, height: nat)
    requires AllResolve(st, props)
  {
    && (forall p :: p in props ==> st.atxs[(p.epoch, p.atx)].baseHeight <= height)
    && (height == 0 || exists p :: p in props && st.atxs[(p.epoch, p.atx)].baseHeight == height)
  }

  function BaseHeight(st: State, p: LayerProposal): nat
    requires Resolves(st, p)
  {
    st.atxs[(p.epoch, p.atx)].baseHeight
  }

  ghost predicate Ascending(rewards: seq<AnyReward>) {
    forall i, j :: 0 <= i < j < |rewards| ==> rewards[i].atx < rewards[j].atx
  }

  ghost predicate Covers(st: State, props: seq<LayerProposal>, rewards: seq<AnyReward>)
    requires AllResolve(st, props)
  {
    && (forall p :: p in props ==> RewardFor(st, p) in rewards)
    && (forall r :: r in rewards ==> exists p :: p in props && r == RewardFor(st, p))
  }

  ghost predicate IsInfo(st: State, props: seq<LayerProposal>, height: nat, rewards: seq<AnyReward>)
    requires AllResolve(st, props)
  {
    IsHeight(st, props, height) && Ascending(rewards) && Covers(st, props, rewards)
  }

  /** Why a proposal is refused after those already taken, in the order of the checks. */
  ghost function Refusal(st: State, taken: seq<LayerProposal>, p: LayerProposal): Option<Failure> {
    if (p.epoch, p.atx) !in st.atxs then Some(AtxNotFound)
    else if p.ownCount.None? && p.refBallot !in st.ballots then Some(BallotNotFound)
    else if Count(st, p).None? then Some(CorruptBallot)
    else if exists q :: q in taken && q.atx == p.atx then Some(DuplicateAtx)
    else if Count(st, p).value == 0 then Some(DividedByZero)
    else None
  }

  ghost function FirstRefusal(st: State, props: seq<LayerProposal>): Option<Failure> {
    if props == [] then None
    else
      var front := props[..|props| - 1];
      var earlier := FirstRefusal(st, front);
      if earlier.Some? then earlier else Refusal(st, front, props[|props| - 1])
  }

  /** Why a proposal is refused, in terms of the tables and of those taken before. */
  lemma RefusalIs(st: State, taken: seq<LayerProposal>, p: LayerProposal)
    ensures var r := Refusal(st, taken, p);
      var known := (p.epoch, p.atx) in st.atxs;
      var counted := p.ownCount.Some? || (p.refBallot in st.ballots && st.ballots[p.refBallot].Some?);
      var repeated := exists q :: q in taken && q.atx == p.atx;
      && (r == Some(AtxNotFound) <==> !known)
      && (r == Some(BallotNotFound) <==> known && p.ownCount.None? && p.refBallot !in st.ballots)
      && (r == Some(CorruptBallot) <==> known && !counted && p.refBallot in st.ballots)
      && (r == Some(DuplicateAtx) <==> known && counted && repeated)
      && (r == Some(DividedByZero) <==> known && counted && !repeated && Count(st, p) == Some(0))
      && (r == None <==> known && counted && !repeated && Count(st, p) != Some(0))
  {
  }

  ghost predicate FirstRefusedAt(st: State, props: seq<LayerProposal>, k: nat) {
    && k < |props| && Refusal(st, props[..k], props[k]).Some?
    && forall i :: 0 <= i < k ==> Refusal(st, props[..i], props[i]).None?
  }

  /** What is reported is why the first refused proposal is refused. */
  lemma {:induction false} FirstRefusalIs(st: State, props: seq<LayerProposal>)
    requires FirstRefusal(st, props).Some?
    ensures exists k: nat ::
      FirstRefusedAt(st, props, k) && FirstRefusal(st, props) == Refusal(st, props[..k], props[k])
  {
    hide Refusal;
    var n := |props| - 1;
    var front := props[..n];
    assert forall i :: 0 <= i < n ==> front[..i] == props[..i] && front[i] == props[i];
    if FirstRefusal(st, front).Some? {
      FirstRefusalIs(st, front);
      var k: nat :| FirstRefusedAt(st, front, k) && FirstRefusal(st, front) == Refusal(st, front[..k], front[k]);
      assert FirstRefusedAt(st, props, k);
    } else {
      NoneRefused(st, front);
      assert FirstRefusedAt(st, props, n);
    }
  }

  lemma {:induction false} NoneRefused(st: State, props: seq<LayerProposal>)
    requires FirstRefusal(st, props).None?
    ensures forall i :: 0 <= i < |props| ==> Refusal(st, props[..i], props[i]).None?
  {
    hide Refusal;
    if props != [] {
      var front := props[..|props| - 1];
      NoneRefused(st, front);
      assert forall i :: 0 <= i < |front| ==> front[..i] == props[..i] && front[i] == props[i];
    }
  }

  lemma {:induction false} FirstRefusalPrefix(st: State, props: seq<LayerProposal>, n: nat)
    requires n <= |props| && FirstRefusal(st, props[..n]).Some?
    ensures FirstRefusal(st, props) == FirstRefusal(st, props[..n])
  {
    if n == |props| {
      assert props[..n] == props;
    } else {
      assert props[..|props| - 1][..n] == props[..n];
      FirstRefusalPrefix(st, props[..|props| - 1], n);
    }
  }

  lemma GenerableStep(st: State, taken: seq<LayerProposal>, p: LayerProposal)
    ensures Generable(st, taken + [p]) <==> Generable(st, taken) && Refusal(st, taken, p).None?
  {
    var more := taken + [p];
    if Generable(st, more) {
      assert more[|taken|] == p;
      forall i | 0 <= i < |taken|
        ensures taken[i] == more[i] && Resolves(st, taken[i]) && taken[i].atx != p.atx
      {
      }
    }
  }

  /** Nothing is refused exactly when every proposal resolves and no ATX repeats. */
  lemma {:induction false} NoRefusalIff(st: State, props: seq<LayerProposal>)
    ensures FirstRefusal(st, props).None? <==> Generable(st, props)
  {
    if props != [] {
      var front, p := props[..|props| - 1], props[|props| - 1];
      NoRefusalIff(st, front);
      GenerableStep(st, front, p);
      assert front + [p] == props;
    }
  }

  // ---- Building it ----

  ghost predicate Weighed(st: State, props: seq<LayerProposal>, weights: map<ATXID, Fraction>)
    requires AllResolve(st, props)
  {
    && (forall p :: p in props ==> p.atx in weights && weights[p.atx] == WeightOf(st, p))
    && (forall a :: a in weights ==> exists p :: p in props && p.atx == a)
  }

  lemma WeighOne(st: State, props: seq<LayerProposal>, weights: map<ATXID, Fraction>, p: LayerProposal)
    requires AllResolve(st, props) && Weighed(st, props, weights) && Resolves(st, p) && p.atx !in weights
    ensures AllResolve(st, props + [p]) && Weighed(st, props + [p], weights[p.atx := WeightOf(st, p)])
  {
  }

  lemma RaiseHeight(st: State, props: seq<LayerProposal>, height: nat, p: LayerProposal)
    requires AllResolve(st, props) && IsHeight(st, props, height) && Resolves(st, p)
    ensures AllResolve(st, props + [p])
    ensures IsHeight(st, props + [p], if BaseHeight(st, p) > height then BaseHeight(st, p) else height)
  {
    var more := props + [p];
    var top := if BaseHeight(st, p) > height then BaseHeight(st, p) else height;
    assert more[|props|] == p;
    if top == height && height != 0 {
      var i :| 0 <= i < |props| && BaseHeight(st, props[i]) == height;
      assert more[i] == props[i];
    }
  }

  lemma GatherStart(st: State)
    ensures Generable(st, []) && IsHeight(st, [], 0) && Weighed(st, [], map[])
  {
  }

  method Gather(st: State, props: seq<LayerProposal>)
    returns (failure: Option<Failure>, height: nat, weights: map<ATXID, Fraction>)
    ensures failure == FirstRefusal(st, props)
    ensures failure.None? ==> Generable(st, props) && IsHeight(st, props, height) && Weighed(st, props, weights)
  {
    hide Mul, Norm, WeightOf, Refusal, IsHeight, Weighed, DistinctAtxs;
    height, weights := 0, map[];
    GatherStart(st);
    assert props[..0] == [];
    for n := 0 to |props|
      invariant FirstRefusal(st, props[..n]).None? && Generable(st, props[..n])
      invariant IsHeight(st, props[..n], height) && Weighed(st, props[..n], weights)
    {
      ghost var taken := props[..n];
      var p := props[n];
      assert props[..n + 1] == taken + [p] && (taken + [p])[..n] == taken;
      GenerableStep(st, taken, p);
      failure := Refuse(st, taken, p, weights);
      if failure.Some? {
        FirstRefusalPrefix(st, props, n + 1);
        return;
      }
      RaiseHeight(st, taken, height, p);
      WeighOne(st, taken, weights, p);
      height := if BaseHeight(st, p) > height then BaseHeight(st, p) else height;
      weights := weights[p.atx := WeightOf(st, p)];
    }
    assert props[..|props|] == props;
    failure := None;
  }

  method Refuse(st: State, ghost taken: seq<LayerProposal>, p: LayerProposal, weights: map<ATXID, Fraction>)
    returns (failure: Option<Failure>)
    requires AllResolve(st, taken) && Weighed(st, taken, weights)
    ensures failure == Refusal(st, taken, p)
    ensures failure.None? ==> Resolves(st, p) && p.atx !in weights
  {
    hide Mul, Norm;
    if (p.epoch, p.atx) !in st.atxs {
      return Some(AtxNotFound);
    }
    var count := 0;
    if p.ownCount.Some? {
      count := p.ownCount.value;
    } else {
      if p.refBallot !in st.ballots {
        return Some(BallotNotFound);
      }
      if st.ballots[p.refBallot].None? {
        return Some(CorruptBallot);
      }
      count := st.ballots[p.refBallot].value;
    }
    if p.atx in weights {
      return Some(DuplicateAtx);
    }
    if count == 0 {
      return Some(DividedByZero);
    }
    return None;
  }

  function Self(id: ATXID): int {
    id
  }

  method SortedKeys(weights: map<ATXID, Fraction>) returns (ids: seq<ATXID>)
    ensures forall i, j :: 0 <= i < j < |ids| ==> ids[i] < ids[j]
    ensures forall a :: a in ids <==> a in weights
  {
    var keys := Sorting.Enumerate(weights.Keys);
    ids := Sorting.Sort(keys, Self);
    Sorting.EnumerationMembers(ids, weights.Keys);
    Sorting.EnumerationDistinct(ids, weights.Keys);
    forall i, j | 0 <= i < j < |ids|
      ensures ids[i] < ids[j]
    {
      assert Self(ids[i]) <= Self(ids[j]);
    }
    forall a
      ensures a in ids <==> a in weights
    {
      Sorting.EnumerationContains(ids, weights.Keys, a);
    }
  }

  method ListRewards(weights: map<ATXID, Fraction>) returns (rewards: seq<AnyReward>)
    ensures Ascending(rewards)
    ensures forall a :: a in weights ==> Stored(a, weights[a]) in rewards
    ensures forall r :: r in rewards ==> r.atx in weights && r == Stored(r.atx, weights[r.atx])
  {
    var ids := SortedKeys(weights);
    rewards := [];
    for n := 0 to |ids|
      invariant |rewards| == n
      invariant forall i :: 0 <= i < n ==> ids[i] in weights && rewards[i] == Stored(ids[i], weights[ids[i]])
    {
      assert ids[n] in ids;
      rewards := rewards + [Stored(ids[n], weights[ids[n]])];
    }
    forall a | a in weights
      ensures Stored(a, weights[a]) in rewards
    {
      assert a in ids;
      var i :| 0 <= i < |ids| && ids[i] == a;
      assert rewards[i] in rewards;
    }
  }

  lemma ListCovers(st: State, props: seq<LayerProposal>, weights: map<ATXID, Fraction>, rewards: seq<AnyReward>)
    requires AllResolve(st, props) && Weighed(st, props, weights)
    requires forall a :: a in weights ==> Stored(a, weights[a]) in rewards
    requires forall r :: r in rewards ==> r.atx in weights && r == Stored(r.atx, weights[r.atx])
    ensures Covers(st, props, rewards)
  {
  }

  /** `rewardInfoAndHeight`. */
  method RewardInfo(st: State, props: seq<LayerProposal>) returns (o: Outcome)
    ensures o.Info? <==> Generable(st, props)
    ensures o.Info? ==> IsInfo(st, props, o.height, o.rewards)
    ensures o.Failed? ==> FirstRefusal(st, props) == Some(o.failure)
  {
    NoRefusalIff(st, props);
    var failure, height, weights := Gather(st, props);
    if failure.Some? {
      return Failed(failure.value);
    }
    var rewards := ListRewards(weights);
    ListCovers(st, props, weights, rewards);
    return Info(height, rewards);
  }

  // ---- Every node builds the same list ----

  lemma EmptyTogether(a: seq<AnyReward>, b: seq<AnyReward>)
    requires forall r :: r in b ==> r in a
    ensures a == [] ==> b == []
  {
    assert b != [] ==> b[0] in a;
  }

  lemma {:induction false} AscendingUnique(a: seq<AnyReward>, b: seq<AnyReward>)
    requires Ascending(a) && Ascending(b) && forall r :: r in a <==> r in b
    ensures a == b
  {
    if a != [] {
      EmptyTogether(b, a);
      assert a[0] in b;
      SameFirst(a, b);
      forall r
        ensures r in a[1..] <==> r in b[1..]
      {
        TailMember(a, r);
        TailMember(b, r);
      }
      AscendingUnique(a[1..], b[1..]);
    } else {
      EmptyTogether(a, b);
    }
  }

  lemma SameFirst(a: seq<AnyReward>, b: seq<AnyReward>)
    requires Ascending(a) && Ascending(b) && a != [] && b != [] && forall r :: r in a <==> r in b
    ensures a[0] == b[0]
  {
    assert a[0] in b && b[0] in a;
    var i :| 0 <= i < |b| && b[i] == a[0];
    var j :| 0 <= j < |a| && a[j] == b[0];
  }

  lemma TailMember(s: seq<AnyReward>, r: AnyReward)
    requires Ascending(s) && s != []
    ensures r in s[1..] <==> r in s && r != s[0]
  {
  }

  lemma SameMembers(a: seq<LayerProposal>, b: seq<LayerProposal>)
    requires multiset(a) == multiset(b)
    ensures forall p :: p in a <==> p in b
  {
    forall p
      ensures p in a <==> p in b
    {
      assert p in a <==> p in multiset(a);
      assert p in b <==> p in multiset(b);
    }
  }

  /** Nodes that see the same proposals in different orders agree on the height and on the
      list. */
  lemma SameProposalsSameInfo(st: State, a: seq<LayerProposal>, b: seq<LayerProposal>, ha: nat, hb: nat,
      ra: seq<AnyReward>, rb: seq<AnyReward>)
    requires multiset(a) == multiset(b) && AllResolve(st, a) && AllResolve(st, b)
    requires IsInfo(st, a, ha, ra) && IsInfo(st, b, hb, rb)
    ensures ha == hb && ra == rb
  {
    hide Mul, Norm, WeightOf, Stored;
    SameMembers(a, b);
    HeightAtMost(st, a, b, ha, hb);
    HeightAtMost(st, b, a, hb, ha);
    CoverWithin(st, a, b, ra, rb);
    CoverWithin(st, b, a, rb, ra);
    AscendingUnique(ra, rb);
  }

  lemma HeightAtMost(st: State, a: seq<LayerProposal>, b: seq<LayerProposal>, ha: nat, hb: nat)
    requires AllResolve(st, a) && AllResolve(st, b) && forall p :: p in a ==> p in b
    requires IsHeight(st, a, ha) && IsHeight(st, b, hb)
    ensures ha <= hb
  {
    if ha > 0 {
      var i :| 0 <= i < |a| && BaseHeight(st, a[i]) == ha;
      assert a[i] in b;
    }
  }

  lemma CoverWithin(st: State, a: seq<LayerProposal>, b: seq<LayerProposal>, ra: seq<AnyReward>, rb: seq<AnyReward>)
    requires AllResolve(st, a) && AllResolve(st, b) && forall p :: p in a ==> p in b
    requires Covers(st, a, ra) && Covers(st, b, rb)
    ensures forall r :: r in ra ==> r in rb
  {
  }

  lemma {:induction false} GenerableSubset(st: State, a: seq<LayerProposal>, b: seq<LayerProposal>)
    requires multiset(a) == multiset(b) && Generable(st, a)
    ensures Generable(st, b)
  {
    SameMembers(a, b);
    forall i | 0 <= i < |b|
      ensures Resolves(st, b[i])
    {
      assert b[i] in a;
    }
    forall i, j | 0 <= i < j < |b|
      ensures b[i].atx != b[j].atx
    {
      if b[i] == b[j] {
        Sorting.RepeatCounts(b, i, j);
        OnceEach(a, b[i]);
      } else {
        assert b[i] in a && b[j] in a;
      }
    }
  }

  lemma {:induction false} OnceEach(a: seq<LayerProposal>, p: LayerProposal)
    requires DistinctAtxs(a)
    ensures multiset(a)[p] <= 1
  {
    if a != [] {
      var front, last := a[..|a| - 1], a[|a| - 1];
      Sorting.LastMultiset(a);
      OnceEach(front, p);
      assert last == p ==> p !in front;
    }
  }

  /** And on whether there is a list at all. */
  lemma OrderNeverDecides(st: State, a: seq<LayerProposal>, b: seq<LayerProposal>)
    requires multiset(a) == multiset(b)
    ensures Generable(st, a) <==> Generable(st, b)
  {
    if Generable(st, a) {
      GenerableSubset(st, a, b);
    }
    if Generable(st, b) {
      GenerableSubset(st, b, a);
    }
  }

  // ---- What other nodes check ----

  ghost predicate NonZero(rewards: seq<AnyReward>) {
    forall i :: 0 <= i < |rewards| ==> rewards[i].num != 0 && rewards[i].denom != 0
  }

  ghost predicate UniqueAtxs(rewards: seq<AnyReward>) {
    forall i, j :: 0 <= i < j < |rewards| ==> rewards[i].atx != rewards[j].atx
  }

  ghost predicate Acceptable(rewards: seq<AnyReward>) {
    rewards != [] && NonZero(rewards) && UniqueAtxs(rewards)
  }

  method ValidateRewards(rewards: seq<AnyReward>) returns (ok: bool)
    ensures ok <==> Acceptable(rewards)
  {
    if |rewards| == 0 {
      return false;
    }
    var unique: set<ATXID> := {};
    for n := 0 to |rewards|
      invariant NonZero(rewards[..n]) && UniqueAtxs(rewards[..n])
      invariant forall a :: a in unique <==> exists i :: 0 <= i < n && rewards[i].atx == a
    {
      if rewards[n].num == 0 || rewards[n].denom == 0 {
        return false;
      }
      if rewards[n].atx in unique {
        return false;
      }
      unique := unique + {rewards[n].atx};
    }
    assert rewards[..|rewards|] == rewards;
    return true;
  }

  ghost predicate WordSized(st: State, props: seq<LayerProposal>)
    requires AllResolve(st, props)
  {
    forall i :: 0 <= i < |props| ==> Count(st, props[i]).value < U32
  }

  lemma DenominatorKept(st: State, p: LayerProposal)
    requires Resolves(st, p) && Count(st, p).value < U32
    ensures 0 < WeightOf(st, p).den < U32 && RewardFor(st, p).denom == WeightOf(st, p).den
  {
    hide Norm;
    var w, c := st.atxs[(p.epoch, p.atx)].weight, Count(st, p).value;
    NormShrinks(w, c);
    NormShrinks(Norm(w, c).num * p.proofs, Product(Norm(w, c).den, 1));
  }

  /** A generated list passes the check exactly when there is a proposal and no reduced
      numerator is a multiple of two to the 64; denominators and duplicates are never the
      reason. */
  lemma GeneratedAcceptedIff(st: State, props: seq<LayerProposal>, height: nat, rewards: seq<AnyReward>)
    requires Generable(st, props) && WordSized(st, props) && IsInfo(st, props, height, rewards)
    ensures Acceptable(rewards) <==>
      props != [] && forall i :: 0 <= i < |props| ==> WeightOf(st, props[i]).num % U64 != 0
  {
    hide Mul, Norm, WeightOf, IsHeight;
    forall i | 0 <= i < |props|
      ensures RewardFor(st, props[i]) in rewards && RewardFor(st, props[i]).denom != 0
    {
      assert props[i] in props;
      DenominatorKept(st, props[i]);
    }
    if Acceptable(rewards) {
      assert rewards[0] in rewards;
      var p :| p in props && rewards[0] == RewardFor(st, p);
      forall i | 0 <= i < |props|
        ensures WeightOf(st, props[i]).num % U64 != 0
      {
        var k :| 0 <= k < |rewards| && rewards[k] == RewardFor(st, props[i]);
      }
    }
    if props != [] && forall i :: 0 <= i < |props| ==> WeightOf(st, props[i]).num % U64 != 0 {
      assert RewardFor(st, props[0]) in rewards;
      forall k | 0 <= k < |rewards|
        ensures rewards[k].num != 0 && rewards[k].denom != 0
      {
        assert rewards[k] in rewards;
        var p :| p in props && rewards[k] == RewardFor(st, p);
        var i :| 0 <= i < |props| && props[i] == p;
      }
    }
  }

  /** The eligibility count is the proposal's own, or else that of the ballot it refers to. */
  lemma CountIs(st: State, p: LayerProposal)
    ensures p.ownCount.Some? ==> Count(st, p) == p.ownCount
    ensures p.ownCount.None? && p.refBallot in st.ballots ==> Count(st, p) == st.ballots[p.refBallot]
    ensures p.ownCount.None? && p.refBallot !in st.ballots ==> Count(st, p) == None
  {
  }

  /** A proposal's weight is its ATX's weight over the eligibility count, times the proofs. */
  lemma WeightOfIs(st: State, p: LayerProposal)
    requires Resolves(st, p)
    ensures Value(WeightOf(st, p)) ==
      st.atxs[(p.epoch, p.atx)].weight as real / Count(st, p).value as real * p.proofs as real
  {
    hide Norm, Mul;
    var w, c := st.atxs[(p.epoch, p.atx)].weight, Count(st, p).value;
    NormValue(w, c);
    MulValue(Norm(w, c), Rat(p.proofs, 1));
    assert Value(Rat(p.proofs, 1)) == p.proofs as real;
  }

  /** A reward for the proposal's ATX, with the weight's own terms wherever they fit 64 bits. */
  ghost predicate Carries(st: State, p: LayerProposal, r: AnyReward)
    requires Resolves(st, p)
  {
    && r.atx == p.atx
    && (WeightOf(st, p).num < U64 ==> r.num == WeightOf(st, p).num)
    && (WeightOf(st, p).den < U64 ==> r.denom == WeightOf(st, p).den)
  }

  /** The list has a reward for every proposal, and no reward without one. */
  lemma {:induction false} ListIs(st: State, props: seq<LayerProposal>, height: nat, rewards: seq<AnyReward>)
    requires AllResolve(st, props) && IsInfo(st, props, height, rewards)
    ensures forall p :: p in props ==> exists r :: r in rewards && Carries(st, p, r)
    ensures forall r :: r in rewards ==> exists p :: p in props && Carries(st, p, r)
  {
    hide Mul, Norm, WeightOf, IsHeight, Ascending, Carries, RewardFor;
    forall p | p in props
      ensures exists r :: r in rewards && Carries(st, p, r)
    {
      RewardCarries(st, p);
    }
    forall r | r in rewards
      ensures exists p :: p in props && Carries(st, p, r)
    {
      var p :| p in props && r == RewardFor(st, p);
      RewardCarries(st, p);
    }
  }

  lemma RewardCarries(st: State, p: LayerProposal)
    requires Resolves(st, p)
    ensures Carries(st, p, RewardFor(st, p))
  {
    hide Mul, Norm, WeightOf;
  }

  /** For a weighted ATX with a proven eligibility whose product fits 64 bits, the stored
      fraction is exactly weight times proofs over count, and is accepted. */
  lemma {:induction false} StoredExactly(st: State, p: LayerProposal)
    requires Resolves(st, p) && Count(st, p).value < U32
    requires var w := st.atxs[(p.epoch, p.atx)].weight; w > 0 && p.proofs > 0 && w * p.proofs < U64
    ensures var r := RewardFor(st, p);
      && r.num != 0 && r.denom != 0
      && Value(Rat(r.num, r.denom)) ==
         st.atxs[(p.epoch, p.atx)].weight as real / Count(st, p).value as real * p.proofs as real
  {
    hide Norm, Mul;
    var w, c := st.atxs[(p.epoch, p.atx)].weight, Count(st, p).value;
    DenominatorKept(st, p);
    NormShrinks(w, c);
    NumeratorKept(w, c, p.proofs);
    NormValue(w, c);
    MulValue(Norm(w, c), Rat(p.proofs, 1));
    assert Value(Rat(p.proofs, 1)) == p.proofs as real;
  }

  lemma NumeratorKept(w: nat, c: nat, proofs: nat)
    requires c > 0 && w > 0 && proofs > 0 && w * proofs < U64
    ensures 0 < Mul(Norm(w, c), Rat(proofs, 1)).num < U64
  {
  }

  /** An accepted list never makes the distribution divide by zero. */
  lemma AcceptedNeverCrashes(rewards: seq<AnyReward>, bs: seq<Rewards.BlockReward>)
    requires Acceptable(rewards) && |bs| == |rewards|
    requires forall i :: 0 <= i < |bs| ==> bs[i].num == rewards[i].num && bs[i].denom == rewards[i].denom
    ensures !Rewards.Crashes(bs)
  {
  }
}
