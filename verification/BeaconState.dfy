/** The beacon protocol's state for one epoch as its messages change it.

    `Step` gives the state after one message as a function; the class below does the same by
    the source's small updates.  `Log` records the messages whose votes were counted. */
module BeaconState {
  import opened Ids
  import opened VoteCodec

  datatype Category = ValidProposal | PotentiallyValid | InvalidProposal

  const FIRST_ROUND := 0

  datatype Message =
    | Propose(node: NodeID, proposal: Proposal, category: Category)
    | FirstVote(node: NodeID, valid: seq<Proposal>, potential: seq<Proposal>)
    | FollowingVote(node: NodeID, round: nat, vector: seq<Byte>)

  /** What happened to the margins: a proposal was registered, or a message was counted. */
  datatype Entry =
    | Registered(proposal: Proposal)
    | CountedFirst(node: NodeID, weight: nat, valid: seq<Proposal>, potential: seq<Proposal>)
    | CountedFollowing(node: NodeID, round: nat, weight: nat, votes: Votes)

  /** Vote weights of the epoch's miners (0 for a malicious one), and the votes limit. */
  datatype Config = Config(weights: map<NodeID, nat>, votesLimit: nat)

  datatype Snapshot = Snapshot(
    margins: map<Proposal, int>,
    valid: set<Proposal>,
    potential: set<Proposal>,
    lists: map<NodeID, seq<Proposal>>,
    proposed: set<NodeID>,
    voted: map<NodeID, set<nat>>,
    log: seq<Entry>)

  const START := Snapshot(map[], {}, {}, map[], {}, map[], [])

  ghost function RoundsOf(voted: map<NodeID, set<nat>>, node: NodeID): set<nat> {
    if node in voted then voted[node] else {}
  }

  ghost function Times(s: seq<Proposal>, p: Proposal): nat {
    multiset(s)[p]
  }

  function Indicator(b: bool): int {
    if b then 1 else 0
  }

  /** What a counted message adds to the margin of `p`. */
  ghost function Contribution(e: Entry, p: Proposal): int {
    match e
    case Registered(_) => 0
    case CountedFirst(_, w, valid, potential) => w * (Times(valid, p) - Times(potential, p))
    case CountedFollowing(_, _, w, votes) => w * (Indicator(p in votes.support) - Indicator(p in votes.against))
  }

  /** The signed weight of the votes on `p` counted since it was last registered. */
  ghost function Score(log: seq<Entry>, p: Proposal): int {
    if log == [] then 0
    else
      var e := log[|log| - 1];
      if e == Registered(p) then 0 else Score(log[..|log| - 1], p) + Contribution(e, p)
  }

  // ---- One message ----

  ghost function Register(s: Snapshot, node: NodeID, round: nat): Snapshot {
    s.(voted := s.voted[node := RoundsOf(s.voted, node) + {round}])
  }

  ghost function Counted(s: Snapshot, e: Entry): Snapshot {
    s.(margins := map p | p in s.margins :: s.margins[p] + Contribution(e, p), log := s.log + [e])
  }

  ghost function NewProposal(s: Snapshot, p: Proposal): Snapshot {
    s.(margins := s.margins[p := 0], log := s.log + [Registered(p)])
  }

  ghost function Step(c: Config, s: Snapshot, m: Message): Snapshot {
    match m
    case Propose(node, p, category) =>
      if node !in c.weights || node in s.proposed then s
      else
        var s1 := s.(proposed := s.proposed + {node});
        (match category
         case ValidProposal => NewProposal(s1.(valid := s1.valid + {p}), p)
         case PotentiallyValid => NewProposal(s1.(potential := s1.potential + {p}), p)
         case InvalidProposal => s1)
    case FirstVote(node, valid, potential) =>
      if FIRST_ROUND in RoundsOf(s.voted, node) then s
      else
        var s1 := Register(s, node, FIRST_ROUND);
        if node !in c.weights then s1
        else
          var s2 := Counted(s1, CountedFirst(node, c.weights[node], valid, potential));
          s2.(lists := s2.lists[node := Truncated(valid, potential, c.votesLimit)])
    case FollowingVote(node, round, vector) =>
      if round in RoundsOf(s.voted, node) then s
      else
        var s1 := Register(s, node, round);
        if node !in c.weights || node !in s.lists then s1
        else Counted(s1, CountedFollowing(node, round, c.weights[node], Decoded(vector, s.lists[node])))
  }

  ghost function Run(c: Config, messages: seq<Message>): Snapshot {
    if messages == [] then START
    else Step(c, Run(c, messages[..|messages| - 1]), messages[|messages| - 1])
  }

  // ---- Margins are scores ----

  /** An active miner's first vote of the first round adds its weight for every time a known proposal
      is listed as valid and takes it off for every time it is listed as potentially valid. */
  lemma FirstVoteIs(c: Config, s: Snapshot, node: NodeID, valid: seq<Proposal>, potential: seq<Proposal>, p: Proposal)
    requires p in s.margins
    ensures var t := Step(c, s, FirstVote(node, valid, potential));
      var heard := node in s.voted && FIRST_ROUND in s.voted[node];
      && p in t.margins && (forall q :: q in t.margins <==> q in s.margins)
      && (heard || node !in c.weights ==> t.margins == s.margins && t.lists == s.lists)
      && (!heard && node in c.weights ==>
            && (var up: int, down: int := multiset(valid)[p], multiset(potential)[p];
                t.margins[p] == s.margins[p] + c.weights[node] * (up - down))
            && node in t.lists && t.lists[node] == Truncated(valid, potential, c.votesLimit))
      && node in t.voted && FIRST_ROUND in t.voted[node]
  {
  }

  /** A later vote, of a miner whose first vote was counted, moves every known proposal by the
      miner's weight: up if its bit is set, down if it is not. */
  lemma FollowingVoteIs(c: Config, s: Snapshot, node: NodeID, round: nat, vector: seq<Byte>, p: Proposal)
    requires p in s.margins
    ensures var t := Step(c, s, FollowingVote(node, round, vector));
      var heard := node in s.voted && round in s.voted[node];
      && p in t.margins && (forall q :: q in t.margins <==> q in s.margins) && t.lists == s.lists
      && (heard || node !in c.weights || node !in s.lists ==> t.margins == s.margins)
      && (!heard && node in c.weights && node in s.lists ==>
            var votes := Decoded(vector, s.lists[node]);
            && (p in votes.support && p !in votes.against ==> t.margins[p] == s.margins[p] + c.weights[node])
            && (p in votes.against && p !in votes.support ==> t.margins[p] == s.margins[p] - c.weights[node])
            && ((p in votes.support <==> p in votes.against) ==> t.margins[p] == s.margins[p]))
      && node in t.voted && round in t.voted[node]
  {
  }

  /** An active miner's first proposal is registered with a margin of zero, as valid or potentially
      valid, unless it is invalid; any other is ignored. */
  lemma ProposalIs(c: Config, s: Snapshot, node: NodeID, p: Proposal, category: Category)
    ensures var t := Step(c, s, Propose(node, p, category));
      && (node !in c.weights || node in s.proposed ==> t == s)
      && (node in c.weights && node !in s.proposed ==>
            && t.proposed == s.proposed + {node}
            && (category.InvalidProposal? ==>
                  t.margins == s.margins && t.valid == s.valid && t.potential == s.potential)
            && (!category.InvalidProposal? ==> t.margins == s.margins[p := 0])
            && (category.ValidProposal? ==> t.valid == s.valid + {p} && t.potential == s.potential)
            && (category.PotentiallyValid? ==> t.potential == s.potential + {p} && t.valid == s.valid))
      && t.voted == s.voted && t.lists == s.lists
  {
  }

  ghost predicate MarginsAreScores(s: Snapshot) {
    && (forall p :: p in s.margins <==> Registered(p) in s.log)
    && (forall p :: p in s.margins ==> s.margins[p] == Score(s.log, p))
  }

  lemma AppendEntry(log: seq<Entry>, e: Entry, p: Proposal)
    ensures Registered(p) in log + [e] <==> Registered(p) in log || e == Registered(p)
    ensures Score(log + [e], p) == if e == Registered(p) then 0 else Score(log, p) + Contribution(e, p)
  {
    assert (log + [e])[..|log + [e]| - 1] == log;
  }

  lemma CountedKeepsScores(s: Snapshot, e: Entry)
    requires MarginsAreScores(s) && !e.Registered?
    ensures MarginsAreScores(Counted(s, e))
  {
  }

  lemma RegisteredKeepsScores(s: Snapshot, p: Proposal)
    requires MarginsAreScores(s)
    ensures MarginsAreScores(NewProposal(s, p))
  {
  }

  lemma StepKeepsScores(c: Config, s: Snapshot, m: Message)
    requires MarginsAreScores(s)
    ensures MarginsAreScores(Step(c, s, m))
  {
    match m {
      case Propose(node, p, category) =>
        RegisteredKeepsScores(s, p);
        var t := NewProposal(s, p);
        assert Step(c, s, m).margins in {s.margins, t.margins};
      case FirstVote(node, valid, potential) =>
        if node in c.weights {
          CountedKeepsScores(s, CountedFirst(node, c.weights[node], valid, potential));
        }
      case FollowingVote(node, round, vector) =>
        if node in c.weights && node in s.lists {
          CountedKeepsScores(s, CountedFollowing(node, round, c.weights[node], Decoded(vector, s.lists[node])));
        }
    }
  }

  /** After any run, the known proposals are the registered ones, and a proposal's margin is the
      signed weight of the votes counted since it was last registered. */
  lemma {:induction false} RunMargins(c: Config, messages: seq<Message>)
    ensures MarginsAreScores(Run(c, messages))
  {
    if messages != [] {
      RunMargins(c, messages[..|messages| - 1]);
      StepKeepsScores(c, Run(c, messages[..|messages| - 1]), messages[|messages| - 1]);
    }
  }

  // ---- One message per miner and round ----

  /** The miner and round that a counted message stands for. */
  function Slot(e: Entry): Option<(NodeID, nat)> {
    match e
    case Registered(_) => None
    case CountedFirst(node, _, _, _) => Some((node, FIRST_ROUND))
    case CountedFollowing(node, round, _, _) => Some((node, round))
  }

  ghost predicate EntryRegistered(c: Config, voted: map<NodeID, set<nat>>, e: Entry) {
    match Slot(e)
    case None => true
    case Some((node, round)) => node in c.weights && e.weight == c.weights[node] && round in RoundsOf(voted, node)
  }

  /** Counted messages are registered, at their miner's weight, and no two share a slot. */
  ghost predicate VotesRegistered(c: Config, s: Snapshot) {
    && (forall i :: 0 <= i < |s.log| ==> EntryRegistered(c, s.voted, s.log[i]))
    && (forall i, j :: 0 <= i < j < |s.log| && Slot(s.log[i]).Some? ==> Slot(s.log[i]) != Slot(s.log[j]))
  }

  lemma RoundsAfter(s: Snapshot, node: NodeID, round: nat, n: NodeID)
    ensures RoundsOf(Register(s, node, round).voted, n) == RoundsOf(s.voted, n) + if n == node then {round} else {}
  {
  }

  lemma RegisterKeepsRegistered(c: Config, s: Snapshot, node: NodeID, round: nat)
    requires VotesRegistered(c, s)
    ensures VotesRegistered(c, Register(s, node, round))
  {
    forall i | 0 <= i < |s.log|
      ensures EntryRegistered(c, Register(s, node, round).voted, s.log[i])
    {
      assert EntryRegistered(c, s.voted, s.log[i]);
      if Slot(s.log[i]).Some? {
        RoundsAfter(s, node, round, Slot(s.log[i]).value.0);
      }
    }
  }

  lemma AppendKeepsRegistered(c: Config, s: Snapshot, e: Entry)
    requires VotesRegistered(c, s) && EntryRegistered(c, s.voted, e)
    requires Slot(e).Some? ==> forall i :: 0 <= i < |s.log| ==> Slot(s.log[i]) != Slot(e)
    ensures VotesRegistered(c, s.(log := s.log + [e]))
  {
  }

  lemma CountedKeepsRegistered(c: Config, s: Snapshot, node: NodeID, round: nat, e: Entry)
    requires VotesRegistered(c, s) && round !in RoundsOf(s.voted, node)
    requires Slot(e) == Some((node, round)) && node in c.weights && e.weight == c.weights[node]
    ensures VotesRegistered(c, Counted(Register(s, node, round), e))
  {
    RoundsAfter(s, node, round, node);
    RegisterKeepsRegistered(c, s, node, round);
    forall i | 0 <= i < |s.log|
      ensures Slot(s.log[i]) != Slot(e)
    {
      assert EntryRegistered(c, s.voted, s.log[i]);
    }
    AppendKeepsRegistered(c, Register(s, node, round), e);
  }

  lemma StepKeepsRegistered(c: Config, s: Snapshot, m: Message)
    requires VotesRegistered(c, s)
    ensures VotesRegistered(c, Step(c, s, m))
  {
    match m {
      case Propose(node, p, category) =>
        AppendKeepsRegistered(c, s, Registered(p));
      case FirstVote(node, valid, potential) =>
        if FIRST_ROUND !in RoundsOf(s.voted, node) {
          RegisterKeepsRegistered(c, s, node, FIRST_ROUND);
          if node in c.weights {
            CountedKeepsRegistered(c, s, node, FIRST_ROUND, CountedFirst(node, c.weights[node], valid, potential));
          }
        }
      case FollowingVote(node, round, vector) =>
        if round !in RoundsOf(s.voted, node) {
          RegisterKeepsRegistered(c, s, node, round);
          if node in c.weights && node in s.lists {
            CountedKeepsRegistered(c, s, node, round,
              CountedFollowing(node, round, c.weights[node], Decoded(vector, s.lists[node])));
          }
        }
    }
  }

  /** In any run each miner is counted in at most one message per round, of either kind. */
  lemma {:induction false} RunCountsOnce(c: Config, messages: seq<Message>)
    ensures VotesRegistered(c, Run(c, messages))
  {
    if messages != [] {
      RunCountsOnce(c, messages[..|messages| - 1]);
      StepKeepsRegistered(c, Run(c, messages[..|messages| - 1]), messages[|messages| - 1]);
    }
  }

  // ---- Margins are bounded ----

  function Abs(x: int): nat {
    if x < 0 then -x else x
  }

  /** The occurrences of `p` on the two sides of a first-round message differ by at most one. */
  ghost predicate Balanced(m: Message, p: Proposal) {
    m.FirstVote? ==> Abs(Times(m.valid, p) - Times(m.potential, p)) <= 1
  }

  /** A first-round message without repeats is balanced for every proposal. */
  lemma WithoutRepeatsBalanced(m: Message, p: Proposal)
    requires m.FirstVote?
    requires var all := m.valid + m.potential; forall i, j :: 0 <= i < j < |all| ==> all[i] != all[j]
    ensures Balanced(m, p)
  {
    AtMostOnce(m.valid + m.potential, p);
    assert Times(m.valid + m.potential, p) == Times(m.valid, p) + Times(m.potential, p);
  }

  lemma {:induction false} AtMostOnce(s: seq<Proposal>, p: Proposal)
    requires forall i, j :: 0 <= i < j < |s| ==> s[i] != s[j]
    ensures Times(s, p) <= 1
  {
    if s != [] {
      assert s == [s[0]] + s[1..];
      AtMostOnce(s[1..], p);
      assert s[0] == p ==> p !in s[1..];
    }
  }

  ghost function LogWeight(log: seq<Entry>): nat {
    if log == [] then 0
    else
      var e := log[|log| - 1];
      LogWeight(log[..|log| - 1]) + if e.Registered? then 0 else e.weight
  }

  ghost function WeightOf(c: Config, node: NodeID): nat {
    if node in c.weights then c.weights[node] else 0
  }

  ghost function TotalWeight(c: Config, miners: seq<NodeID>): nat {
    if miners == [] then 0 else WeightOf(c, miners[0]) + TotalWeight(c, miners[1..])
  }

  /** Each miner's weight times the number of rounds it has registered for. */
  ghost function Budget(c: Config, voted: map<NodeID, set<nat>>, miners: seq<NodeID>): nat {
    if miners == [] then 0
    else WeightOf(c, miners[0]) * |RoundsOf(voted, miners[0])| + Budget(c, voted, miners[1..])
  }

  lemma {:induction false} BudgetGrows(c: Config, voted: map<NodeID, set<nat>>, miners: seq<NodeID>, node: NodeID,
      round: nat)
    requires round !in RoundsOf(voted, node)
    requires forall i, j :: 0 <= i < j < |miners| ==> miners[i] != miners[j]
    ensures Budget(c, voted[node := RoundsOf(voted, node) + {round}], miners) ==
      Budget(c, voted, miners) + if node in miners then WeightOf(c, node) else 0
  {
    if miners != [] {
      BudgetGrows(c, voted, miners[1..], node, round);
      var w, k := WeightOf(c, node), |RoundsOf(voted, node)|;
      assert |RoundsOf(voted, node) + {round}| == k + 1;
      assert w * (k + 1) == w * k + w;
    }
  }

  lemma {:induction false} BudgetCapped(c: Config, voted: map<NodeID, set<nat>>, miners: seq<NodeID>, rounds: nat)
    requires forall node, r :: r in RoundsOf(voted, node) ==> r < rounds
    ensures Budget(c, voted, miners) <= rounds * TotalWeight(c, miners)
  {
    if miners != [] {
      BudgetCapped(c, voted, miners[1..], rounds);
      var w, rs := WeightOf(c, miners[0]), RoundsOf(voted, miners[0]);
      BelowCount(rs, rounds);
      assert w * |rs| <= w * rounds;
      assert rounds * (w + TotalWeight(c, miners[1..])) == w * rounds + rounds * TotalWeight(c, miners[1..]);
    }
  }

  lemma {:induction false} BelowCount(s: set<nat>, n: nat)
    requires forall x :: x in s ==> x < n
    ensures |s| <= n
  {
    if n > 0 {
      BelowCount(s - {n - 1}, n - 1);
      if n - 1 in s {
        assert |s - {n - 1}| == |s| - 1;
      } else {
        assert s - {n - 1} == s;
      }
    } else {
      assert s == {};
    }
  }

  /** The facts the bound rests on, in one state. */
  ghost predicate Within(c: Config, s: Snapshot, miners: seq<NodeID>, rounds: nat, p: Proposal) {
    && Abs(Score(s.log, p)) <= LogWeight(s.log)
    && LogWeight(s.log) <= Budget(c, s.voted, miners)
    && forall node, r :: r in RoundsOf(s.voted, node) ==> r < rounds
  }

  lemma ContributionBound(w: nat, k: int)
    requires Abs(k) <= 1
    ensures Abs(w * k) <= w
  {
  }

  lemma AppendWithin(log: seq<Entry>, e: Entry, p: Proposal)
    requires Abs(Score(log, p)) <= LogWeight(log)
    requires !e.Registered? ==> Abs(Contribution(e, p)) <= e.weight
    ensures Abs(Score(log + [e], p)) <= LogWeight(log + [e])
    ensures LogWeight(log + [e]) == LogWeight(log) + if e.Registered? then 0 else e.weight
  {
    AppendEntry(log, e, p);
    assert (log + [e])[..|log + [e]| - 1] == log;
  }

  ghost predicate Enumerated(c: Config, miners: seq<NodeID>) {
    && (forall i, j :: 0 <= i < j < |miners| ==> miners[i] != miners[j])
    && (forall n :: n in miners <==> n in c.weights)
  }

  ghost predicate RoundBelow(m: Message, rounds: nat) {
    match m
    case Propose(_, _, _) => true
    case FirstVote(_, _, _) => FIRST_ROUND < rounds
    case FollowingVote(_, round, _) => round < rounds
  }

  lemma VoteWithin(c: Config, s: Snapshot, miners: seq<NodeID>, rounds: nat, p: Proposal, node: NodeID, round: nat,
      e: Entry)
    requires Enumerated(c, miners) && Within(c, s, miners, rounds, p)
    requires round < rounds && round !in RoundsOf(s.voted, node)
    requires node in c.weights && Slot(e) == Some((node, round)) && e.weight == c.weights[node]
    requires Abs(Contribution(e, p)) <= e.weight
    ensures Within(c, Counted(Register(s, node, round), e), miners, rounds, p)
  {
    AppendWithin(s.log, e, p);
    BudgetGrows(c, s.voted, miners, node, round);
    forall n { RoundsAfter(s, node, round, n); }
  }

  lemma RegisterWithin(c: Config, s: Snapshot, miners: seq<NodeID>, rounds: nat, p: Proposal, node: NodeID, round: nat)
    requires Enumerated(c, miners) && Within(c, s, miners, rounds, p)
    requires round < rounds && round !in RoundsOf(s.voted, node)
    ensures Within(c, Register(s, node, round), miners, rounds, p)
  {
    BudgetGrows(c, s.voted, miners, node, round);
    forall n { RoundsAfter(s, node, round, n); }
  }

  lemma ProposeWithin(c: Config, s: Snapshot, m: Message, miners: seq<NodeID>, rounds: nat, p: Proposal)
    requires Within(c, s, miners, rounds, p) && m.Propose?
    ensures Within(c, Step(c, s, m), miners, rounds, p)
  {
    hide Score, LogWeight, Budget, RoundsOf;
    AppendWithin(s.log, Registered(m.proposal), p);
  }

  lemma FirstVoteWithin(c: Config, s: Snapshot, m: Message, miners: seq<NodeID>, rounds: nat, p: Proposal)
    requires Enumerated(c, miners) && Within(c, s, miners, rounds, p)
    requires m.FirstVote? && RoundBelow(m, rounds) && Balanced(m, p)
    ensures Within(c, Step(c, s, m), miners, rounds, p)
  {
    hide Score, LogWeight, Budget, RoundsOf, Times, Enumerated;
    if FIRST_ROUND !in RoundsOf(s.voted, m.node) {
      RegisterWithin(c, s, miners, rounds, p, m.node, FIRST_ROUND);
      if m.node in c.weights {
        var e := CountedFirst(m.node, c.weights[m.node], m.valid, m.potential);
        ContributionBound(e.weight, Times(m.valid, p) - Times(m.potential, p));
        VoteWithin(c, s, miners, rounds, p, m.node, FIRST_ROUND, e);
      }
    }
  }

  lemma FollowingVoteWithin(c: Config, s: Snapshot, m: Message, miners: seq<NodeID>, rounds: nat, p: Proposal)
    requires Enumerated(c, miners) && Within(c, s, miners, rounds, p)
    requires m.FollowingVote? && RoundBelow(m, rounds)
    ensures Within(c, Step(c, s, m), miners, rounds, p)
  {
    hide Score, LogWeight, Budget, RoundsOf, Decoded, Enumerated;
    if m.round !in RoundsOf(s.voted, m.node) {
      RegisterWithin(c, s, miners, rounds, p, m.node, m.round);
      if m.node in c.weights && m.node in s.lists {
        var e := CountedFollowing(m.node, m.round, c.weights[m.node], Decoded(m.vector, s.lists[m.node]));
        ContributionBound(e.weight, Indicator(p in e.votes.support) - Indicator(p in e.votes.against));
        VoteWithin(c, s, miners, rounds, p, m.node, m.round, e);
      }
    }
  }

  lemma StepWithin(c: Config, s: Snapshot, m: Message, miners: seq<NodeID>, rounds: nat, p: Proposal)
    requires Enumerated(c, miners) && Within(c, s, miners, rounds, p)
    requires RoundBelow(m, rounds) && Balanced(m, p)
    ensures Within(c, Step(c, s, m), miners, rounds, p)
  {
    match m {
      case Propose(_, _, _) => ProposeWithin(c, s, m, miners, rounds, p);
      case FirstVote(_, _, _) => FirstVoteWithin(c, s, m, miners, rounds, p);
      case FollowingVote(_, _, _) => FollowingVoteWithin(c, s, m, miners, rounds, p);
    }
  }

  lemma {:induction false} RunWithin(c: Config, messages: seq<Message>, miners: seq<NodeID>, rounds: nat, p: Proposal)
    requires Enumerated(c, miners)
    requires forall m :: m in messages ==> RoundBelow(m, rounds) && Balanced(m, p)
    ensures Within(c, Run(c, messages), miners, rounds, p)
  {
    if messages != [] {
      var m := messages[|messages| - 1];
      assert m in messages;
      RunWithin(c, messages[..|messages| - 1], miners, rounds, p);
      StepWithin(c, Run(c, messages[..|messages| - 1]), m, miners, rounds, p);
    } else {
      EmptyBudget(c, miners);
    }
  }

  lemma {:induction false} EmptyBudget(c: Config, miners: seq<NodeID>)
    ensures Budget(c, map[], miners) == 0
  {
    if miners != [] {
      EmptyBudget(c, miners[1..]);
    }
  }

  /** When every first-round message is balanced for a proposal, its margin never exceeds the
      number of rounds times the total weight of the miners. */
  lemma {:induction false} MarginBound(c: Config, messages: seq<Message>, miners: seq<NodeID>, rounds: nat, p: Proposal)
    requires Enumerated(c, miners)
    requires forall m :: m in messages ==> RoundBelow(m, rounds) && Balanced(m, p)
    requires p in Run(c, messages).margins
    ensures Abs(Run(c, messages).margins[p]) <= rounds * TotalWeight(c, miners)
  {
    RunWithin(c, messages, miners, rounds, p);
    RunMargins(c, messages);
    BudgetCapped(c, Run(c, messages).voted, miners, rounds);
  }

  /** The bound needs it: a registered proposal and one first-round message of one miner stay
      within one round's weight exactly when the message is balanced or carries no weight. */
  lemma {:induction false} OneMessageBound(node: NodeID, w: nat, limit: nat, p: Proposal, valid: seq<Proposal>,
      potential: seq<Proposal>)
    ensures var c := Config(map[node := w], limit);
      var m := FirstVote(node, valid, potential);
      var s := Run(c, [Propose(node, p, ValidProposal), m]);
      p in s.margins && (Abs(s.margins[p]) <= w <==> Balanced(m, p) || w == 0)
  {
    var c := Config(map[node := w], limit);
    var first, m := Propose(node, p, ValidProposal), FirstVote(node, valid, potential);
    var run := [first, m];
    assert run[..1] == [first] && [first][..0] == [];
    assert Run(c, []) == START;
    assert Run(c, [first]) == Step(c, START, first);
    assert Run(c, run) == Step(c, Run(c, [first]), m);
    var k := Times(valid, p) - Times(potential, p);
    assert Run(c, run).margins[p] == w * k;
    if Abs(k) <= 1 {
      ContributionBound(w, k);
    } else if w > 0 {
      BigFactor(w, k);
    }
  }

  lemma BigFactor(w: nat, k: int)
    requires w > 0 && Abs(k) >= 2
    ensures Abs(w * k) > w
  {
    if k >= 2 {
      assert w * k >= w * 2;
    } else {
      assert w * k <= w * -2;
    }
  }

  // ---- The code ----

  function Signed(up: bool, weight: nat): int {
    if up then weight else 0 - weight
  }

  ghost function PlusOne(m: map<Proposal, int>, p: Proposal, d: int): map<Proposal, int> {
    map q | q in m :: m[q] + if q == p then d else 0
  }

  ghost function PlusList(m: map<Proposal, int>, ps: seq<Proposal>, d: int): map<Proposal, int> {
    map q | q in m :: m[q] + d * Times(ps, q)
  }

  ghost function PlusSet(m: map<Proposal, int>, ps: set<Proposal>, d: int): map<Proposal, int> {
    map q | q in m :: m[q] + d * Indicator(q in ps)
  }

  lemma PlusListStep(m: map<Proposal, int>, ps: seq<Proposal>, i: nat, d: int)
    requires i < |ps|
    ensures PlusOne(PlusList(m, ps[..i], d), ps[i], d) == PlusList(m, ps[..i + 1], d)
  {
    assert ps[..i + 1] == ps[..i] + [ps[i]];
    forall q | q in m
      ensures d * Times(ps[..i + 1], q) == d * Times(ps[..i], q) + if q == ps[i] then d else 0
    {
      var k := Times(ps[..i], q);
      assert Times(ps[..i + 1], q) == k + if q == ps[i] then 1 else 0;
      assert d * (k + 1) == d * k + d;
    }
  }

  lemma PlusBothLists(m: map<Proposal, int>, e: Entry)
    requires e.CountedFirst?
    ensures PlusList(PlusList(m, e.valid, Signed(true, e.weight)), e.potential, Signed(false, e.weight)) ==
      map q | q in m :: m[q] + Contribution(e, q)
  {
    forall q | q in m
      ensures m[q] + e.weight * Times(e.valid, q) + (0 - e.weight) * Times(e.potential, q) == m[q] + Contribution(e, q)
    {
      Spread(e.weight, Times(e.valid, q), Times(e.potential, q));
    }
  }

  lemma PlusBothSets(m: map<Proposal, int>, e: Entry)
    requires e.CountedFollowing?
    ensures PlusSet(PlusSet(m, e.votes.support, Signed(true, e.weight)), e.votes.against, Signed(false, e.weight)) ==
      map q | q in m :: m[q] + Contribution(e, q)
  {
  }

  lemma Spread(w: nat, a: int, b: int)
    ensures w * (a - b) == w * a + (0 - w) * b
  {
  }

  /** `votesMargin`, `incomingProposals`, the first-round lists and the two kinds of
      registration, updated message by message. */
  class State {
    const config: Config
    var margins: map<Proposal, int>
    var valid: set<Proposal>
    var potential: set<Proposal>
    var lists: map<NodeID, seq<Proposal>>
    var proposed: set<NodeID>
    var voted: map<NodeID, set<nat>>
    ghost var log: seq<Entry>

    ghost function View(): Snapshot
      reads this
    {
      Snapshot(margins, valid, potential, lists, proposed, voted, log)
    }

    constructor (config: Config)
      ensures this.config == config && View() == START
    {
      this.config := config;
      margins, valid, potential := map[], {}, {};
      lists, proposed, voted := map[], {}, map[];
      log := [];
    }

    /** Votes on unknown proposals are ignored. */
    method AddVote(p: Proposal, up: bool, weight: nat)
      modifies `margins
      ensures margins == PlusOne(old(margins), p, Signed(up, weight))
    {
      if p in margins {
        margins := margins[p := if up then margins[p] + weight else margins[p] - weight];
      }
    }

    /** One vote per entry of the list, repeats included. */
    method AddVotes(ps: seq<Proposal>, up: bool, weight: nat)
      modifies `margins
      ensures margins == PlusList(old(margins), ps, Signed(up, weight))
    {
      ghost var before := margins;
      for i := 0 to |ps|
        invariant margins == PlusList(before, ps[..i], Signed(up, weight))
      {
        AddVote(ps[i], up, weight);
        PlusListStep(before, ps, i, Signed(up, weight));
      }
      assert ps[..|ps|] == ps;
    }

    /** One vote per member of the set, in any order. */
    method AddVotesOf(ps: set<Proposal>, up: bool, weight: nat)
      modifies `margins
      ensures margins == PlusSet(old(margins), ps, Signed(up, weight))
    {
      ghost var before := margins;
      var left := ps;
      while left != {}
        invariant left <= ps && margins == PlusSet(before, ps - left, Signed(up, weight))
      {
        var p :| p in left;
        AddVote(p, up, weight);
        left := left - {p};
      }
      assert ps - left == ps;
    }

    method RegisterVoted(node: NodeID, round: nat) returns (ok: bool)
      modifies `voted
      ensures ok <==> round !in RoundsOf(old(voted), node)
      ensures View() == if ok then Register(old(View()), node, round) else old(View())
    {
      var rounds := if node in voted then voted[node] else {};
      ok := round !in rounds;
      if ok {
        voted := voted[node := rounds + {round}];
      }
    }

    method AddProposal(p: Proposal, category: Category)
      modifies `margins, `valid, `potential, `log
      ensures View() == match category
        case ValidProposal => NewProposal(old(View()).(valid := old(valid) + {p}), p)
        case PotentiallyValid => NewProposal(old(View()).(potential := old(potential) + {p}), p)
        case InvalidProposal => old(View())
    {
      match category {
        case ValidProposal =>
          valid := valid + {p};
          margins := margins[p := 0];
          log := log + [Registered(p)];
        case PotentiallyValid =>
          potential := potential + {p};
          margins := margins[p := 0];
          log := log + [Registered(p)];
        case InvalidProposal =>
      }
    }

    method HandleProposal(node: NodeID, p: Proposal, category: Category)
      modifies this
      ensures View() == Step(config, old(View()), Propose(node, p, category))
    {
      if node !in config.weights || node in proposed {
        return;
      }
      proposed := proposed + {node};
      AddProposal(p, category);
    }

    method HandleFirstVotes(node: NodeID, first: seq<Proposal>, second: seq<Proposal>)
      modifies this
      ensures View() == Step(config, old(View()), FirstVote(node, first, second))
    {
      var ok := RegisterVoted(node, FIRST_ROUND);
      if !ok || node !in config.weights {
        return;
      }
      var weight := config.weights[node];
      ghost var before, e := margins, CountedFirst(node, weight, first, second);
      AddVotes(first, true, weight);
      AddVotes(second, false, weight);
      PlusBothLists(before, e);
      var list := first + second;
      if |list| > config.votesLimit {
        list := list[..config.votesLimit];
      }
      lists := lists[node := list];
      log := log + [e];
    }

    method HandleFollowingVotes(node: NodeID, round: nat, vector: seq<Byte>)
      modifies this
      ensures View() == Step(config, old(View()), FollowingVote(node, round, vector))
    {
      var ok := RegisterVoted(node, round);
      if !ok || node !in config.weights || node !in lists {
        return;
      }
      var weight := config.weights[node];
      var votes := DecodeVotes(vector, lists[node]);
      ghost var before, e := margins, CountedFollowing(node, round, weight, votes);
      AddVotesOf(votes.support, true, weight);
      AddVotesOf(votes.against, false, weight);
      PlusBothSets(before, e);
      log := log + [e];
    }
  }
}
