/** Gossip delivers messages in different orders to different nodes.  Two nodes that receive the
    same proposals and then the same votes, each miner's messages in the order sent, end in the
    same state. */
module BeaconOrder {
  import opened Ids
  import opened Sorting
  import opened BeaconState
  import opened VoteCodec

  /** Everything but the record of what happened. */
  ghost predicate Same(s: Snapshot, t: Snapshot) {
    s.(log := []) == t.(log := [])
  }

  // ---- One vote ----

  function RoundOf(m: Message): nat {
    if m.FollowingVote? then m.round else FIRST_ROUND
  }

  /** What a vote is counted as; this depends on its miner's own part of the state alone. */
  ghost function Counts(c: Config, s: Snapshot, m: Message): Option<Entry>
    requires !m.Propose?
  {
    if RoundOf(m) in RoundsOf(s.voted, m.node) || m.node !in c.weights then None
    else if m.FirstVote? then Some(CountedFirst(m.node, c.weights[m.node], m.valid, m.potential))
    else if m.node !in s.lists then None
    else Some(CountedFollowing(m.node, m.round, c.weights[m.node], Decoded(m.vector, s.lists[m.node])))
  }

  ghost function Moved(margins: map<Proposal, int>, e: Option<Entry>): map<Proposal, int> {
    if e.None? then margins else map p | p in margins :: margins[p] + Contribution(e.value, p)
  }

  ghost function VotedAfter(voted: map<NodeID, set<nat>>, m: Message): map<NodeID, set<nat>> {
    if RoundOf(m) in RoundsOf(voted, m.node) then voted
    else voted[m.node := RoundsOf(voted, m.node) + {RoundOf(m)}]
  }

  ghost function ListsAfter(c: Config, lists: map<NodeID, seq<Proposal>>, m: Message, e: Option<Entry>)
    : map<NodeID, seq<Proposal>>
  {
    if e.Some? && m.FirstVote? then lists[m.node := Truncated(m.valid, m.potential, c.votesLimit)] else lists
  }

  ghost function AfterVote(c: Config, s: Snapshot, m: Message, e: Option<Entry>): Snapshot {
    s.(
      margins := Moved(s.margins, e),
      voted := VotedAfter(s.voted, m),
      lists := ListsAfter(c, s.lists, m, e),
      log := [])
  }

  lemma VoteStep(c: Config, s: Snapshot, m: Message)
    requires !m.Propose?
    ensures Step(c, s, m).(log := []) == AfterVote(c, s, m, Counts(c, s, m))
  {
  }

  /** Votes of different miners do not see each other. */
  lemma Unseen(c: Config, s: Snapshot, m: Message, n: Message)
    requires !m.Propose? && !n.Propose? && m.node != n.node
    ensures Counts(c, Step(c, s, m), n) == Counts(c, s, n)
  {
    VoteStep(c, s, m);
    hide Step, Moved;
  }

  lemma MovedTwice(margins: map<Proposal, int>, d: Option<Entry>, e: Option<Entry>)
    ensures Moved(Moved(margins, d), e) == Moved(Moved(margins, e), d)
  {
    hide Contribution;
  }

  lemma VotedTwice(voted: map<NodeID, set<nat>>, m: Message, n: Message)
    requires m.node != n.node
    ensures VotedAfter(VotedAfter(voted, m), n) == VotedAfter(VotedAfter(voted, n), m)
  {
  }

  lemma ListedTwice(c: Config, lists: map<NodeID, seq<Proposal>>, m: Message, n: Message, d: Option<Entry>,
      e: Option<Entry>)
    requires m.node != n.node
    ensures ListsAfter(c, ListsAfter(c, lists, m, d), n, e) == ListsAfter(c, ListsAfter(c, lists, n, e), m, d)
  {
    hide Truncated;
  }

  lemma VotesSwap(c: Config, s: Snapshot, m: Message, n: Message)
    requires !m.Propose? && !n.Propose? && m.node != n.node
    ensures Same(Step(c, Step(c, s, m), n), Step(c, Step(c, s, n), m))
  {
    hide Step, Moved, Counts, VotedAfter, ListsAfter;
    VoteStep(c, s, m);
    VoteStep(c, s, n);
    VoteStep(c, Step(c, s, m), n);
    VoteStep(c, Step(c, s, n), m);
    Unseen(c, s, m, n);
    Unseen(c, s, n, m);
    var d, e := Counts(c, s, m), Counts(c, s, n);
    MovedTwice(s.margins, d, e);
    VotedTwice(s.voted, m, n);
    ListedTwice(c, s.lists, m, n, d, e);
  }

  // ---- One proposal ----

  ghost predicate Accepted(c: Config, s: Snapshot, m: Message) {
    m.node in c.weights && m.node !in s.proposed
  }

  ghost function AfterProposal(s: Snapshot, m: Message, accepted: bool): Snapshot
    requires m.Propose?
  {
    var registered := accepted && !m.category.InvalidProposal?;
    s.(
      proposed := s.proposed + (if accepted then {m.node} else {}),
      valid := s.valid + (if accepted && m.category.ValidProposal? then {m.proposal} else {}),
      potential := s.potential + (if accepted && m.category.PotentiallyValid? then {m.proposal} else {}),
      margins := if registered then s.margins[m.proposal := 0] else s.margins,
      log := [])
  }

  lemma ProposalStep(c: Config, s: Snapshot, m: Message)
    requires m.Propose?
    ensures Step(c, s, m).(log := []) == AfterProposal(s, m, Accepted(c, s, m))
  {
  }

  lemma AfterTwo(s: Snapshot, m: Message, n: Message, x: bool, y: bool)
    requires m.Propose? && n.Propose?
    ensures AfterProposal(AfterProposal(s, m, x), n, y) == AfterProposal(AfterProposal(s, n, y), m, x)
  {
  }

  lemma SameProposal(s: Snapshot, t: Snapshot, m: Message, x: bool)
    requires m.Propose? && Same(s, t)
    ensures AfterProposal(s, m, x) == AfterProposal(t, m, x)
  {
  }

  lemma ProposalsSwap(c: Config, s: Snapshot, m: Message, n: Message)
    requires m.Propose? && n.Propose? && m.node != n.node
    ensures Same(Step(c, Step(c, s, m), n), Step(c, Step(c, s, n), m))
  {
    ProposalStep(c, s, m);
    ProposalStep(c, s, n);
    ProposalStep(c, Step(c, s, m), n);
    ProposalStep(c, Step(c, s, n), m);
    var x, y := Accepted(c, s, m), Accepted(c, s, n);
    hide Step;
    assert Accepted(c, Step(c, s, m), n) == y && Accepted(c, Step(c, s, n), m) == x;
    AfterTwo(s, m, n, x, y);
    SameProposal(Step(c, s, m), AfterProposal(s, m, x), n, y);
    SameProposal(Step(c, s, n), AfterProposal(s, n, y), m, x);
  }

  /** A step depends on no record. */
  lemma StepSame(c: Config, s: Snapshot, t: Snapshot, m: Message)
    requires Same(s, t)
    ensures Same(Step(c, s, m), Step(c, t, m))
  {
    hide Step, Moved, VotedAfter, ListsAfter;
    if m.Propose? {
      ProposalStep(c, s, m);
      ProposalStep(c, t, m);
    } else {
      VoteStep(c, s, m);
      VoteStep(c, t, m);
    }
  }

  // ---- Sequences ----

  ghost function RunFrom(c: Config, s: Snapshot, messages: seq<Message>): Snapshot
    decreases |messages|
  {
    if messages == [] then s else RunFrom(c, Step(c, s, messages[0]), messages[1..])
  }

  lemma {:induction false} RunFromConcat(c: Config, s: Snapshot, a: seq<Message>, b: seq<Message>)
    ensures RunFrom(c, s, a + b) == RunFrom(c, RunFrom(c, s, a), b)
    decreases |a|
  {
    if a == [] {
      assert a + b == b;
    } else {
      assert (a + b)[1..] == a[1..] + b;
      RunFromConcat(c, Step(c, s, a[0]), a[1..], b);
    }
  }

  lemma {:induction false} RunIsFromStart(c: Config, messages: seq<Message>)
    ensures Run(c, messages) == RunFrom(c, START, messages)
  {
    if messages != [] {
      var front, m := messages[..|messages| - 1], messages[|messages| - 1];
      RunIsFromStart(c, front);
      RunFromConcat(c, START, front, [m]);
      assert front + [m] == messages;
      assert RunFrom(c, RunFrom(c, START, front), [m]) == Step(c, RunFrom(c, START, front), m);
    }
  }

  lemma {:induction false} RunFromSame(c: Config, s: Snapshot, t: Snapshot, messages: seq<Message>)
    requires Same(s, t)
    ensures Same(RunFrom(c, s, messages), RunFrom(c, t, messages))
    decreases |messages|
  {
    if messages != [] {
      StepSame(c, s, t, messages[0]);
      RunFromSame(c, Step(c, s, messages[0]), Step(c, t, messages[0]), messages[1..]);
    }
  }

  /** All proposals, or all votes. */
  ghost predicate OneKind(messages: seq<Message>, proposals: bool) {
    forall m :: m in messages ==> m.Propose? == proposals
  }

  lemma Swap(c: Config, s: Snapshot, m: Message, n: Message)
    requires m.Propose? == n.Propose? && m.node != n.node
    ensures Same(Step(c, Step(c, s, m), n), Step(c, Step(c, s, n), m))
  {
    if m.Propose? {
      ProposalsSwap(c, s, m, n);
    } else {
      VotesSwap(c, s, m, n);
    }
  }

  /** A message can be taken before others of its kind by other miners. */
  lemma {:induction false} TakeFirst(c: Config, s: Snapshot, before: seq<Message>, m: Message)
    requires OneKind(before, m.Propose?) && forall x :: x in before ==> x.node != m.node
    ensures Same(RunFrom(c, s, before + [m]), RunFrom(c, Step(c, s, m), before))
    decreases |before|
  {
    hide Step, Same;
    if before == [] {
      assert before + [m] == [m];
      assert RunFrom(c, Step(c, s, m), [m][1..]) == Step(c, s, m);
      SameSelf(Step(c, s, m));
    } else {
      var x := before[0];
      assert x in before && (before + [m])[1..] == before[1..] + [m];
      TakeFirst(c, Step(c, s, x), before[1..], m);
      Swap(c, s, x, m);
      RunFromSame(c, Step(c, Step(c, s, x), m), Step(c, Step(c, s, m), x), before[1..]);
      SameTransitive(RunFrom(c, s, before + [m]), RunFrom(c, Step(c, Step(c, s, x), m), before[1..]),
        RunFrom(c, Step(c, s, m), before));
    }
  }

  lemma SameSelf(s: Snapshot)
    ensures Same(s, s)
  {
  }

  lemma SameTransitive(s: Snapshot, t: Snapshot, u: Snapshot)
    requires Same(s, t) && Same(t, u)
    ensures Same(s, u)
  {
  }

  // ---- Reorderings ----

  /** One miner's messages, in order. */
  ghost function By(messages: seq<Message>, node: NodeID): seq<Message> {
    if messages == [] then []
    else if messages[0].node == node then [messages[0]] + By(messages[1..], node)
    else By(messages[1..], node)
  }

  /** Every miner's messages come in the same order. */
  ghost predicate SamePerMiner(a: seq<Message>, b: seq<Message>) {
    forall node :: By(a, node) == By(b, node)
  }

  lemma {:induction false} ByConcat(a: seq<Message>, b: seq<Message>, node: NodeID)
    ensures By(a + b, node) == By(a, node) + By(b, node)
  {
    if a == [] {
      assert a + b == b;
    } else {
      assert (a + b)[1..] == a[1..] + b;
      ByConcat(a[1..], b, node);
    }
  }

  lemma {:induction false} FirstBy(messages: seq<Message>, node: NodeID) returns (i: nat)
    requires By(messages, node) != []
    ensures i < |messages| && messages[i] == By(messages, node)[0]
    ensures forall x :: x in messages[..i] ==> x.node != node
    ensures By(messages[..i], node) == [] && messages[i].node == node
  {
    if messages[0].node == node {
      i := 0;
    } else {
      var j := FirstBy(messages[1..], node);
      i := j + 1;
      assert messages[..i] == [messages[0]] + messages[1..][..j];
    }
  }

  lemma {:induction false} ByEmpty(messages: seq<Message>)
    requires forall node :: By(messages, node) == []
    ensures messages == []
  {
    assert messages != [] ==> By(messages, messages[0].node) != [];
  }

  lemma ByMiddle(before: seq<Message>, m: Message, after: seq<Message>, node: NodeID)
    ensures By(before + [m] + after, node) ==
      By(before, node) + (if m.node == node then [m] else []) + By(after, node)
  {
    ByConcat(before + [m], after, node);
    ByConcat(before, [m], node);
    assert [m][1..] == [];
    assert By([m], node) == if m.node == node then [m] else [];
  }

  lemma WithoutFirst(a: seq<Message>, b: seq<Message>, i: nat, node: NodeID)
    requires a != [] && i < |b| && b[i] == a[0] && By(a, node) == By(b, node)
    requires By(b[..i], a[0].node) == []
    ensures By(a[1..], node) == By(Without(b, i), node)
  {
    hide By;
    var before, m, after := b[..i], a[0], b[i + 1..];
    assert b == before + [m] + after && a == [] + [m] + a[1..];
    ByMiddle(before, m, after, node);
    ByMiddle([], m, a[1..], node);
    ByNothing(node);
    ByConcat(before, after, node);
    Cancel(m, By(a[1..], node), By(after, node));
  }

  lemma ByNothing(node: NodeID)
    ensures By([], node) == []
  {
  }

  lemma Cancel(m: Message, x: seq<Message>, y: seq<Message>)
    ensures [] + [m] + x == [] + [m] + y ==> x == y
    ensures [] + [] + x == x && forall z: seq<Message> :: z + [] + y == z + y
  {
    assert ([] + [m] + x)[1..] == x && ([] + [m] + y)[1..] == y;
  }

  /** Messages of one kind, reordered across miners, lead to the same state. */
  lemma {:induction false} ReorderedSame(c: Config, s: Snapshot, a: seq<Message>, b: seq<Message>, proposals: bool)
    requires SamePerMiner(a, b) && OneKind(b, proposals)
    ensures Same(RunFrom(c, s, a), RunFrom(c, s, b))
    decreases |a|
  {
    hide Step, Same;
    if a == [] {
      forall node
        ensures By(b, node) == []
      {
        assert By(a, node) == [];
      }
      ByEmpty(b);
      SameSelf(s);
    } else {
      var m := a[0];
      assert By(a, m.node) == By(b, m.node);
      var i := FirstBy(b, m.node);
      var rest := Without(b, i);
      forall node
        ensures By(a[1..], node) == By(rest, node)
      {
        assert By(a, node) == By(b, node);
        WithoutFirst(a, b, i, node);
      }
      ReorderedSame(c, Step(c, s, m), a[1..], rest, proposals);
      MovedUp(c, s, b, i, proposals);
      SameTransitive(RunFrom(c, s, a), RunFrom(c, Step(c, s, m), rest), RunFrom(c, s, b));
    }
  }

  lemma PrefixKind(b: seq<Message>, i: nat, proposals: bool)
    requires i <= |b| && OneKind(b, proposals)
    ensures OneKind(b[..i], proposals)
  {
    forall x | x in b[..i]
      ensures x in b
    {
    }
  }

  lemma MovedUp(c: Config, s: Snapshot, b: seq<Message>, i: nat, proposals: bool)
    requires i < |b| && OneKind(b, proposals) && forall x :: x in b[..i] ==> x.node != b[i].node
    ensures Same(RunFrom(c, Step(c, s, b[i]), Without(b, i)), RunFrom(c, s, b))
  {
    hide Step;
    var before, m, after := b[..i], b[i], b[i + 1..];
    assert m in b;
    PrefixKind(b, i, proposals);
    TakeFirst(c, s, before, m);
    assert b == (before + [m]) + after;
    RunFromConcat(c, s, before + [m], after);
    RunFromConcat(c, Step(c, s, m), before, after);
    RunFromSame(c, RunFrom(c, s, before + [m]), RunFrom(c, Step(c, s, m), before), after);
  }

  /** Two nodes that receive the same proposals and then the same votes, each miner's messages in
      one order, know the same margins. */
  lemma {:induction false} SameMargins(c: Config, proposals1: seq<Message>, votes1: seq<Message>,
      proposals2: seq<Message>, votes2: seq<Message>)
    requires SamePerMiner(proposals1, proposals2) && OneKind(proposals2, true)
    requires SamePerMiner(votes1, votes2) && OneKind(votes2, false)
    ensures Run(c, proposals1 + votes1).margins == Run(c, proposals2 + votes2).margins
  {
    RunIsFromStart(c, proposals1 + votes1);
    RunIsFromStart(c, proposals2 + votes2);
    RunFromConcat(c, START, proposals1, votes1);
    RunFromConcat(c, START, proposals2, votes2);
    var s, t := RunFrom(c, START, proposals1), RunFrom(c, START, proposals2);
    ReorderedSame(c, START, proposals1, proposals2, true);
    RunFromSame(c, s, t, votes1);
    ReorderedSame(c, t, votes1, votes2, false);
  }
}
