/** Two nodes of the beacon protocol that receive the same messages up to some point, in different
    orders, and then different late votes: how far their margins drift apart, and what that means for the
    decision and the beacon. */
module BeaconAgreement {
  import opened Ids
  import opened VoteCodec
  import opened BeaconOrder
  import opened BeaconState
  import opened BeaconVotes

  /** The weight that late votes can move a margin by. */
  ghost function Weight(c: Config, late: seq<Message>): nat {
    if late == [] then 0 else Weight(c, late[..|late| - 1]) + WeightOf(c, late[|late| - 1].node)
  }

  ghost predicate LateVote(m: Message) {
    !m.Propose? && forall p :: Balanced(m, p)
  }

  ghost predicate LateVotes(late: seq<Message>) {
    forall m :: m in late ==> LateVote(m)
  }

  /** The margin of `p` moved by at most `weight`. */
  ghost predicate Drifts(before: Margins, after: Margins, p: Proposal, weight: nat) {
    before.Keys == after.Keys && (p in before ==> Abs(after[p] - before[p]) <= weight)
  }

  lemma VoteDrift(c: Config, s: Snapshot, m: Message, p: Proposal)
    requires !m.Propose? && Balanced(m, p)
    ensures Drifts(s.margins, Step(c, s, m).margins, p, WeightOf(c, m.node))
  {
    match m {
      case FirstVote(node, valid, potential) =>
        ContributionBound(WeightOf(c, node), Times(valid, p) - Times(potential, p));
      case FollowingVote(node, round, vector) =>
        if node in s.lists {
          var votes := Decoded(vector, s.lists[node]);
          ContributionBound(WeightOf(c, node), Indicator(p in votes.support) - Indicator(p in votes.against));
        }
    }
  }

  lemma RunVoteDrift(c: Config, messages: seq<Message>, m: Message, p: Proposal)
    requires LateVote(m)
    ensures Drifts(Run(c, messages).margins, Run(c, messages + [m]).margins, p, WeightOf(c, m.node))
  {
    assert (messages + [m])[..|messages + [m]| - 1] == messages;
    VoteDrift(c, Run(c, messages), m, p);
  }

  lemma DriftsAdd(a: Margins, b: Margins, c: Margins, p: Proposal, v: nat, w: nat)
    requires Drifts(a, b, p, v) && Drifts(b, c, p, w)
    ensures Drifts(a, c, p, v + w)
  {
  }

  lemma {:induction false} Drift(c: Config, common: seq<Message>, late: seq<Message>, p: Proposal)
    requires LateVotes(late)
    ensures Drifts(Run(c, common).margins, Run(c, common + late).margins, p, Weight(c, late))
  {
    if late == [] {
      assert common + late == common;
    } else {
      var front, m := late[..|late| - 1], late[|late| - 1];
      assert m in late;
      Drift(c, common, front, p);
      RunVoteDrift(c, common + front, m, p);
      assert common + late == common + front + [m];
      DriftsAdd(Run(c, common).margins, Run(c, common + front).margins, Run(c, common + late).margins,
                p, Weight(c, front), WeightOf(c, m.node));
    }
  }

  /** What two nodes have in common: the same proposals and then the same votes, each miner's
      messages in the order sent, but otherwise in any order. */
  ghost predicate InCommon(proposals1: seq<Message>, votes1: seq<Message>, proposals2: seq<Message>,
      votes2: seq<Message>)
  {
    && SamePerMiner(proposals1, proposals2) && OneKind(proposals2, true)
    && SamePerMiner(votes1, votes2) && OneKind(votes2, false)
  }

  /** Late votes of less than twice the threshold, over both nodes, keep the nodes close; so
      they never decide opposite ways before the coin. */
  lemma {:induction false} LateVotesStayClose(c: Config, proposals1: seq<Message>, votes1: seq<Message>,
      late1: seq<Message>, proposals2: seq<Message>, votes2: seq<Message>, late2: seq<Message>, t: nat)
    requires InCommon(proposals1, votes1, proposals2, votes2)
    requires LateVotes(late1) && LateVotes(late2)
    requires Weight(c, late1) + Weight(c, late2) < 2 * t
    ensures Close(Run(c, proposals1 + votes1 + late1).margins, Run(c, proposals2 + votes2 + late2).margins, t)
  {
    var common1, common2 := proposals1 + votes1, proposals2 + votes2;
    var m1, m2 := Run(c, common1 + late1).margins, Run(c, common2 + late2).margins;
    SameMargins(c, proposals1, votes1, proposals2, votes2);
    hide Run;
    Drift(c, common1, late1, 0);
    Drift(c, common2, late2, 0);
    forall p | p in m1
      ensures -2 * t < m1[p] - m2[p] < 2 * t
    {
      Drift(c, common1, late1, p);
      Drift(c, common2, late2, p);
    }
  }

  /** Nodes whose last counted rounds differ by such late votes never compute different beacons when
      the shared coin matches every one-sided decision. */
  lemma {:induction false} LateVotesSameBeacon<Beacon>(
    c: Config, proposals1: seq<Message>, votes1: seq<Message>, late1: seq<Message>,
    proposals2: seq<Message>, votes2: seq<Message>, late2: seq<Message>,
    rounds: nat, a: Trace, b: Trace, t: nat, hash: seq<Proposal> -> Beacon)
    requires InCommon(proposals1, votes1, proposals2, votes2)
    requires LateVotes(late1) && LateVotes(late2)
    requires Weight(c, late1) + Weight(c, late2) < 2 * t
    requires rounds >= 2 && CoversRounds(a, rounds) && CoversRounds(b, rounds) && a.coins == b.coins
    requires a.margins[rounds - 1] == Run(c, proposals1 + votes1 + late1).margins
    requires b.margins[rounds - 1] == Run(c, proposals2 + votes2 + late2).margins
    requires CoinsKnown(a, rounds) ==>
      CoinMatches(a.margins[rounds - 1], b.margins[rounds - 1], t, a.coins[rounds - 1].value)
    ensures var ra, rb := ProtocolResult(rounds, a, t, hash), ProtocolResult(rounds, b, t, hash);
      && (ra.Some? && rb.Some? ==> ra == rb)
      && (Undisturbed(a, rounds) && Undisturbed(b, rounds) ==> ra == rb)
  {
    LateVotesStayClose(c, proposals1, votes1, late1, proposals2, votes2, late2, t);
    SameBeacon(rounds, a, b, t, hash);
  }
}
