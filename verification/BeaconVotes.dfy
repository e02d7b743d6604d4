/** Deciding a beacon: one round's votes from the margins, the coin for what is left, the
    rounds of the consensus phase, and the beacon of the final support set. */
module BeaconVotes {
  import opened Ids
  import opened Sorting
  import opened VoteCodec

  type Margins = map<Proposal, int>

  ghost function Supported(m: Margins, t: nat): set<Proposal> {
    set p | p in m && m[p] >= t
  }

  ghost function Opposed(m: Margins, t: nat): set<Proposal> {
    set p | p in m && m[p] < t && m[p] + t <= 0
  }

  ghost function Undecided(m: Margins, t: nat): set<Proposal> {
    set p | p in m && m[p] < t && m[p] + t > 0
  }

  /** The votes of a round once the coin has decided what the margins leave open. */
  ghost function Decided(m: Margins, t: nat, coin: bool): Votes {
    Votes(Supported(m, t) + (if coin then Undecided(m, t) else {}),
          Opposed(m, t) + (if coin then {} else Undecided(m, t)))
  }

  method CalcVotes(m: Margins, t: nat) returns (votes: Votes, undecided: seq<Proposal>)
    ensures votes == Votes(Supported(m, t), Opposed(m, t))
    ensures Enumerates(undecided, Undecided(m, t))
  {
    votes, undecided := Votes({}, {}), [];
    var left := m.Keys;
    ghost var open: set<Proposal> := {};
    while left != {}
      invariant left <= m.Keys
      invariant votes.support == set p | p in m && p !in left && m[p] >= t
      invariant votes.against == set p | p in m && p !in left && m[p] < t && m[p] + t <= 0
      invariant open == set p | p in m && p !in left && m[p] < t && m[p] + t > 0
      invariant Enumerates(undecided, open)
    {
      var p :| p in left;
      if m[p] >= t {
        votes := votes.(support := votes.support + {p});
      } else if m[p] + t <= 0 {
        votes := votes.(against := votes.against + {p});
      } else {
        undecided := undecided + [p];
        open := open + {p};
      }
      left := left - {p};
    }
    assert open == Undecided(m, t);
  }

  method TallyUndecided(votes: Votes, undecided: seq<Proposal>, coin: bool) returns (r: Votes)
    ensures r.support == votes.support + (if coin then set p | p in undecided else {})
    ensures r.against == votes.against + (if coin then {} else set p | p in undecided)
  {
    r := votes;
    for i := 0 to |undecided|
      invariant r.support == votes.support + (if coin then set p | p in undecided[..i] else {})
      invariant r.against == votes.against + (if coin then {} else set p | p in undecided[..i])
    {
      assert undecided[..i + 1] == undecided[..i] + [undecided[i]];
      if coin {
        r := r.(support := r.support + {undecided[i]});
      } else {
        r := r.(against := r.against + {undecided[i]});
      }
    }
    assert undecided[..|undecided|] == undecided;
  }

  // ---- The consensus phase ----

  /** What a node sees: the margins when each round's votes are counted, and each round's coin
      (none when it cannot be generated; the first round has no coin).  The node waits once in the
      first round and twice in each later one; `done` is the first wait, if any, that ends because
      the context does. */
  datatype Trace = Trace(margins: seq<Margins>, coins: seq<Option<bool>>, done: Option<nat>)

  ghost predicate CoversRounds(trace: Trace, rounds: nat) {
    |trace.margins| >= rounds && |trace.margins| >= 1 && |trace.coins| >= rounds
  }

  /** The node's own votes at the end of round `r`. */
  ghost function RoundVotes(trace: Trace, t: nat, r: nat): Votes
    requires r < |trace.margins| && r < |trace.coins| + 1
    requires r > 0 ==> r < |trace.coins| && trace.coins[r].Some?
  {
    if r == 0 then Votes(Supported(trace.margins[0], t), Opposed(trace.margins[0], t))
    else Decided(trace.margins[r], t, trace.coins[r].value)
  }

  ghost predicate CoinsKnown(trace: Trace, rounds: nat)
    requires |trace.coins| >= rounds
  {
    forall r :: 1 <= r < rounds ==> trace.coins[r].Some?
  }

  ghost predicate Undisturbed(trace: Trace, rounds: nat) {
    trace.done.Some? ==> trace.done.value > 2 * Last(rounds)
  }

  /** A round after the first: count the votes, then let the coin decide the rest. */
  method Round(m: Margins, t: nat, coin: bool) returns (votes: Votes)
    ensures votes == Decided(m, t, coin)
  {
    var counted, undecided := CalcVotes(m, t);
    votes := TallyUndecided(counted, undecided, coin);
    EnumerationMembers(undecided, Undecided(m, t));
  }

  function Last(rounds: nat): nat {
    if rounds == 0 then 0 else rounds - 1
  }

  /** Runs the voting rounds.  In each round but the first the node sends the votes it held at
      the end of the round before; `sent` lists them. */
  method ConsensusPhase(rounds: nat, trace: Trace, t: nat) returns (result: Option<Votes>, sent: seq<Votes>)
    requires CoversRounds(trace, rounds)
    ensures result.Some? <==> CoinsKnown(trace, rounds) && Undisturbed(trace, rounds)
    ensures result.Some? ==> result.value == RoundVotes(trace, t, Last(rounds))
    ensures result.Some? ==> |sent| == Last(rounds)
    ensures result.Some? ==> forall r :: 0 <= r < |sent| ==> sent[r] == RoundVotes(trace, t, r)
  {
    sent := [];
    if trace.done == Some(0) {
      return None, sent;
    }
    var own, _ := CalcVotes(trace.margins[0], t);
    for round := 0 to Last(rounds)
      invariant |sent| == round && (trace.done.Some? ==> trace.done.value > 2 * round)
      invariant forall r :: 1 <= r <= round ==> trace.coins[r].Some?
      invariant own == RoundVotes(trace, t, round)
      invariant forall r :: 0 <= r < |sent| ==> sent[r] == RoundVotes(trace, t, r)
    {
      sent := sent + [own];
      if trace.done == Some(2 * round + 1) || trace.done == Some(2 * round + 2) {
        return None, sent;
      }
      var coin := trace.coins[round + 1];
      if coin.None? {
        return None, sent;
      }
      own := Round(trace.margins[round + 1], t, coin.value);
    }
    return Some(own), sent;
  }

  /** A known proposal is supported from the threshold up, opposed from its negative down, and in
      between left to the coin. */
  lemma RoundDecides(trace: Trace, t: nat, r: nat, p: Proposal)
    requires 0 < r < |trace.margins| && r < |trace.coins| && trace.coins[r].Some? && p in trace.margins[r]
    ensures var v, m := RoundVotes(trace, t, r), trace.margins[r][p];
      && (m >= t ==> p in v.support && p !in v.against)
      && (m < t && m <= 0 - t ==> p in v.against && p !in v.support)
      && (0 - t < m < t ==> (p in v.support <==> trace.coins[r].value) && (p in v.against <==> !trace.coins[r].value))
  {
  }

  /** The first round has no coin, and no proposal that is not known is voted on. */
  lemma FirstRoundDecides(trace: Trace, t: nat, r: nat, p: Proposal)
    requires |trace.margins| > 0
    ensures var v := RoundVotes(trace, t, 0);
      && (p in v.support <==> p in trace.margins[0] && trace.margins[0][p] >= t)
      && (p in v.against <==> p in trace.margins[0] && trace.margins[0][p] < t && trace.margins[0][p] <= 0 - t)
    ensures 0 < r < |trace.margins| && r < |trace.coins| && trace.coins[r].Some? && p !in trace.margins[r] ==>
      p !in RoundVotes(trace, t, r).support && p !in RoundVotes(trace, t, r).against
  {
  }

  // ---- Agreement of two nodes ----

  /** The nodes know the same proposals and their margins differ by less than twice the
      threshold. */
  ghost predicate Close(m1: Margins, m2: Margins, t: nat) {
    && m1.Keys == m2.Keys
    && forall p :: p in m1 ==> -2 * t < m1[p] - m2[p] < 2 * t
  }

  /** A decision of one node that the other leaves to the coin goes the way the coin falls. */
  ghost predicate CoinMatches(m1: Margins, m2: Margins, t: nat, coin: bool) {
    forall p :: p in m1 && p in m2 ==>
      && (p in Supported(m1, t) && p in Undecided(m2, t) ==> coin)
      && (p in Opposed(m1, t) && p in Undecided(m2, t) ==> !coin)
      && (p in Undecided(m1, t) && p in Supported(m2, t) ==> coin)
      && (p in Undecided(m1, t) && p in Opposed(m2, t) ==> !coin)
  }

  /** Before the coin, close nodes never decide opposite ways. */
  lemma NeverOpposite(m1: Margins, m2: Margins, t: nat)
    requires Close(m1, m2, t)
    ensures Supported(m1, t) !! Opposed(m2, t)
    ensures Opposed(m1, t) !! Supported(m2, t)
  {
  }

  /** Close nodes with a shared coin end the round with equal votes exactly when the coin
      matches every one-sided decision. */
  lemma AgreeIffCoinMatches(m1: Margins, m2: Margins, t: nat, coin: bool)
    requires Close(m1, m2, t)
    ensures Decided(m1, t, coin) == Decided(m2, t, coin) <==> CoinMatches(m1, m2, t, coin)
    ensures Decided(m1, t, coin).support == Decided(m2, t, coin).support <==> CoinMatches(m1, m2, t, coin)
  {
  }

  /** Two nodes that run the phase on different traces but close last rounds, with the coins
      shared, end with equal votes exactly when the last coin matches; earlier rounds do not
      matter. */
  lemma PhaseAgreement(rounds: nat, a: Trace, b: Trace, t: nat)
    requires rounds >= 2 && CoversRounds(a, rounds) && CoversRounds(b, rounds)
    requires a.coins == b.coins && CoinsKnown(a, rounds)
    requires Close(a.margins[rounds - 1], b.margins[rounds - 1], t)
    ensures RoundVotes(a, t, rounds - 1) == RoundVotes(b, t, rounds - 1) <==>
      CoinMatches(a.margins[rounds - 1], b.margins[rounds - 1], t, a.coins[rounds - 1].value)
  {
  }

  // ---- The beacon ----

  function Self(p: Proposal): int {
    p
  }

  /** The members of a set, least first. */
  ghost function Ascending(s: set<Proposal>): seq<Proposal> {
    if s == {} then [] else [Min(s)] + Ascending(s - {Min(s)})
  }

  lemma {:induction false} AscendingIsSorted(s: set<Proposal>)
    ensures Enumerates(Ascending(s), s) && SortedBy(Ascending(s), Self)
  {
    if s != {} {
      var m, rest := Min(s), s - {Min(s)};
      AscendingIsSorted(rest);
      AddOne(rest, m);
      assert rest + {m} == s;
      PrependLeast(m, Ascending(rest), rest);
    }
  }

  lemma AddOne(s: set<Proposal>, x: Proposal)
    requires x !in s
    ensures multiset(s + {x}) == multiset{x} + multiset(s)
  {
  }

  lemma PrependLeast(m: Proposal, tail: seq<Proposal>, rest: set<Proposal>)
    requires Enumerates(tail, rest) && SortedBy(tail, Self)
    requires forall x :: x in rest ==> m <= x
    ensures SortedBy([m] + tail, Self)
  {
    EnumerationMembers(tail, rest);
    var a := [m] + tail;
    forall i, j | 0 <= i < j < |a|
      ensures Self(a[i]) <= Self(a[j])
    {
      assert a[j] == tail[j - 1] && tail[j - 1] in (set x | x in tail);
      if i > 0 {
        assert a[i] == tail[i - 1] && Self(tail[i - 1]) <= Self(tail[j - 1]);
      } else {
        assert tail[j - 1] in rest;
      }
    }
  }

  /** Whatever order the set is enumerated and sorted in, the sorted list is the same. */
  lemma CanonicalOrder(sorted: seq<Proposal>, s: set<Proposal>)
    requires Enumerates(sorted, s) && SortedBy(sorted, Self)
    ensures sorted == Ascending(s)
  {
    AscendingIsSorted(s);
    SortedIsUnique(sorted, Ascending(s), Self);
  }

  /** The beacon of a support set; `hash` is the hash of the listed proposals cut to a beacon. */
  method CalcBeacon<Beacon>(support: set<Proposal>, hash: seq<Proposal> -> Beacon) returns (beacon: Beacon)
    ensures beacon == hash(Ascending(support))
  {
    var keys := Enumerate(support);
    var sorted := Sort(keys, Self);
    CanonicalOrder(sorted, support);
    beacon := hash(sorted);
  }

  /** The protocol from the votes on: no beacon without a coin or without a supported proposal. */
  method RunProtocol<Beacon>(rounds: nat, trace: Trace, t: nat, hash: seq<Proposal> -> Beacon)
    returns (beacon: Option<Beacon>)
    requires CoversRounds(trace, rounds)
    ensures beacon == ProtocolResult(rounds, trace, t, hash)
  {
    var votes, sent := ConsensusPhase(rounds, trace, t);
    if votes.None? || votes.value.support == {} {
      return None;
    }
    var b := CalcBeacon(votes.value.support, hash);
    return Some(b);
  }

  ghost function ProtocolResult<Beacon>(rounds: nat, trace: Trace, t: nat,
      hash: seq<Proposal> -> Beacon): Option<Beacon>
    requires CoversRounds(trace, rounds)
  {
    if !CoinsKnown(trace, rounds) || !Undisturbed(trace, rounds) then None
    else
      var support := RoundVotes(trace, t, Last(rounds)).support;
      if support == {} then None else Some(hash(Ascending(support)))
  }

  /** Close nodes with a matching shared coin never compute different beacons; if the context of
      neither ends, they compute the same one, or none both. */
  lemma SameBeacon<Beacon>(rounds: nat, a: Trace, b: Trace, t: nat, hash: seq<Proposal> -> Beacon)
    requires rounds >= 2 && CoversRounds(a, rounds) && CoversRounds(b, rounds) && a.coins == b.coins
    requires Close(a.margins[rounds - 1], b.margins[rounds - 1], t)
    requires CoinsKnown(a, rounds) ==>
      CoinMatches(a.margins[rounds - 1], b.margins[rounds - 1], t, a.coins[rounds - 1].value)
    ensures var ra, rb := ProtocolResult(rounds, a, t, hash), ProtocolResult(rounds, b, t, hash);
      && (ra.Some? && rb.Some? ==> ra == rb)
      && (Undisturbed(a, rounds) && Undisturbed(b, rounds) ==> ra == rb)
  {
    if CoinsKnown(a, rounds) {
      PhaseAgreement(rounds, a, b, t);
    }
  }
}
