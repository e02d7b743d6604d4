/** Splitting requests into batches per peer (`organizeRequests` once peers are known). */
module FetchBatches {
  import opened Ids
  import opened Sorting
  import opened FetchRequests

  type Peer = nat

  /** `protocol` is set for hashes that are too large to be batched. */
  datatype Batch = Batch(requests: seq<RequestMessage>, protocol: Option<nat>)

  /** The hints that need a protocol of their own. */
  type Protocols = map<nat, nat>

  ghost function Plain(s: seq<RequestMessage>, own: Protocols): seq<RequestMessage> {
    if s == [] then []
    else Plain(s[..|s| - 1], own) + if s[|s| - 1].hint in own then [] else [s[|s| - 1]]
  }

  ghost function Singles(s: seq<RequestMessage>, own: Protocols): seq<Batch> {
    if s == [] then []
    else
      var r := s[|s| - 1];
      Singles(s[..|s| - 1], own) + if r.hint in own then [Batch([r], Some(own[r.hint]))] else []
  }

  /** Consecutive pieces of the given size, the last possibly shorter. */
  ghost function Chunks(s: seq<RequestMessage>, size: nat): seq<Batch>
    requires size > 0
  {
    if s == [] then []
    else if |s| <= size then [Batch(s, None)]
    else [Batch(s[..size], None)] + Chunks(s[size..], size)
  }

  /** A peer's batches: one per request with its own protocol, then the rest in pieces; a rest
      smaller than one batch, even an empty one, is one batch. */
  ghost function PeerBatches(s: seq<RequestMessage>, own: Protocols, size: nat): seq<Batch>
    requires size > 0
  {
    var plain := Plain(s, own);
    Singles(s, own) + if |plain| < size then [Batch(plain, None)] else Chunks(plain, size)
  }

  ghost function Content(batches: seq<Batch>): multiset<RequestMessage> {
    if batches == [] then multiset{} else multiset(batches[0].requests) + Content(batches[1..])
  }

  // ---- What a peer's batches hold ----

  lemma {:induction false} ContentConcat(a: seq<Batch>, b: seq<Batch>)
    ensures Content(a + b) == Content(a) + Content(b)
  {
    if a == [] {
      assert a + b == b;
    } else {
      assert (a + b)[1..] == a[1..] + b;
      ContentConcat(a[1..], b);
    }
  }

  lemma {:induction false} ChunksContent(s: seq<RequestMessage>, size: nat)
    requires size > 0
    ensures Content(Chunks(s, size)) == multiset(s)
  {
    if s != [] && |s| > size {
      ChunksContent(s[size..], size);
      assert s == s[..size] + s[size..];
      assert Chunks(s, size)[1..] == Chunks(s[size..], size);
    }
  }

  lemma OneMoreSingle(batches: seq<Batch>, b: Batch, r: RequestMessage)
    requires b.requests == [r]
    ensures Content(batches + [b]) == Content(batches) + multiset{r}
  {
    ContentConcat(batches, [b]);
    assert [b][1..] == [];
    assert Content([b]) == multiset([r]);
  }

  lemma AddToOne(a: multiset<RequestMessage>, b: multiset<RequestMessage>, r: RequestMessage)
    ensures (a + multiset{r}) + b == (a + b) + multiset{r}
    ensures a + (b + multiset{r}) == (a + b) + multiset{r}
  {
  }

  lemma {:induction false} SplitContent(s: seq<RequestMessage>, own: Protocols)
    ensures Content(Singles(s, own)) + multiset(Plain(s, own)) == multiset(s)
  {
    if s != [] {
      SplitContent(s[..|s| - 1], own);
      SplitLast(s, own);
      LastMultiset(s);
      AddToOne(Content(Singles(s[..|s| - 1], own)), multiset(Plain(s[..|s| - 1], own)), s[|s| - 1]);
    }
  }

  lemma SplitLast(s: seq<RequestMessage>, own: Protocols)
    requires s != []
    ensures var front, r := s[..|s| - 1], s[|s| - 1];
      if r.hint in own then
        Content(Singles(s, own)) == Content(Singles(front, own)) + multiset{r} && Plain(s, own) == Plain(front, own)
      else
        Singles(s, own) == Singles(front, own) && multiset(Plain(s, own)) == multiset(Plain(front, own)) + multiset{r}
  {
    var front, r := s[..|s| - 1], s[|s| - 1];
    if r.hint in own {
      OneMoreSingle(Singles(front, own), Batch([r], Some(own[r.hint])), r);
    }
  }

  /** No request is lost or repeated: a peer's batches together hold exactly its requests. */
  lemma PeerContent(s: seq<RequestMessage>, own: Protocols, size: nat)
    requires size > 0
    ensures Content(PeerBatches(s, own, size)) == multiset(s)
  {
    var plain := Plain(s, own);
    SplitContent(s, own);
    ChunksContent(plain, size);
    assert Content([Batch(plain, None)]) == multiset(plain);
    ContentConcat(Singles(s, own), if |plain| < size then [Batch(plain, None)] else Chunks(plain, size));
  }

  /** A batch is a single request under its protocol, or at most `size` plain requests. */
  ghost predicate WellFormed(b: Batch, own: Protocols, size: nat) {
    if b.protocol.Some? then
      |b.requests| == 1 && b.requests[0].hint in own && b.protocol.value == own[b.requests[0].hint]
    else
      |b.requests| <= size && forall r :: r in b.requests ==> r.hint !in own
  }

  lemma {:induction false} PlainIsPlain(s: seq<RequestMessage>, own: Protocols)
    ensures forall r :: r in Plain(s, own) <==> r in s && r.hint !in own
  {
    if s != [] {
      PlainIsPlain(s[..|s| - 1], own);
      assert s == s[..|s| - 1] + [s[|s| - 1]];
    }
  }

  lemma {:induction false} SinglesWellFormed(s: seq<RequestMessage>, own: Protocols, size: nat)
    ensures forall b :: b in Singles(s, own) ==> WellFormed(b, own, size) && b.protocol.Some?
  {
    if s != [] {
      SinglesWellFormed(s[..|s| - 1], own, size);
    }
  }

  lemma {:induction false} ChunksWellFormed(s: seq<RequestMessage>, own: Protocols, size: nat)
    requires size > 0 && forall r :: r in s ==> r.hint !in own
    ensures forall b :: b in Chunks(s, size) ==> WellFormed(b, own, size) && b.requests != []
  {
    if |s| > size {
      ChunksWellFormed(s[size..], own, size);
    }
  }

  /** Every batch is well formed, and one is empty exactly when all of the peer's requests need
      their own protocol. */
  lemma PeerBatchesWellFormed(s: seq<RequestMessage>, own: Protocols, size: nat)
    requires size > 0
    ensures forall b :: b in PeerBatches(s, own, size) ==> WellFormed(b, own, size)
    ensures Batch([], None) in PeerBatches(s, own, size) <==> forall r :: r in s ==> r.hint in own
  {
    var plain := Plain(s, own);
    PlainIsPlain(s, own);
    SinglesWellFormed(s, own, size);
    ChunksWellFormed(plain, own, size);
    hide Plain, Singles, Chunks, WellFormed;
    PlainEmptyIff(s, plain, own);
  }

  lemma PlainEmptyIff(s: seq<RequestMessage>, plain: seq<RequestMessage>, own: Protocols)
    requires forall r :: r in plain <==> r in s && r.hint !in own
    ensures plain == [] <==> forall r :: r in s ==> r.hint in own
  {
    if plain != [] {
      assert plain[0] in plain;
    }
  }

  // ---- One peer: compaction in place, then pieces ----

  /** Moves the plain requests to the front of the array and returns their number, and the
      batches for the others. */
  method Compact(reqs: array<RequestMessage>, own: Protocols) returns (j: nat, singles: seq<Batch>)
    modifies reqs
    ensures j <= reqs.Length
    ensures reqs[..j] == Plain(old(reqs[..]), own)
    ensures singles == Singles(old(reqs[..]), own)
  {
    j, singles := 0, [];
    ghost var s := reqs[..];
    for i := 0 to reqs.Length
      invariant j <= i
      invariant reqs[..j] == Plain(s[..i], own)
      invariant singles == Singles(s[..i], own)
      invariant reqs[i..] == s[i..]
    {
      assert s[..i + 1][..i] == s[..i];
      assert reqs[i] == reqs[i..][0] == s[i];
      var r := reqs[i];
      if r.hint !in own {
        reqs[j] := reqs[i];
        assert reqs[..j + 1] == reqs[..j] + [r];
        j := j + 1;
      } else {
        singles := singles + [Batch([r], Some(own[r.hint]))];
      }
      assert reqs[i + 1..] == s[i..][1..] == s[i + 1..];
    }
    assert s[..reqs.Length] == s;
  }

  method SplitPeer(reqs: array<RequestMessage>, own: Protocols, size: nat) returns (batches: seq<Batch>)
    requires size > 0
    modifies reqs
    ensures batches == PeerBatches(old(reqs[..]), own, size)
  {
    var n, singles := Compact(reqs, own);
    if n < size {
      return singles + [Batch(reqs[..n], None)];
    }
    var pieces := Pieces(reqs[..n], size);
    return singles + pieces;
  }

  ghost function Rest(s: seq<RequestMessage>, i: nat): seq<RequestMessage> {
    if i <= |s| then s[i..] else []
  }

  lemma NextChunk(done: seq<Batch>, s: seq<RequestMessage>, i: nat, j: nat, size: nat)
    requires size > 0 && i < |s| && j == if i + size > |s| then |s| else i + size
    ensures done + Chunks(Rest(s, i), size) == (done + [Batch(s[i..j], None)]) + Chunks(Rest(s, i + size), size)
  {
    var rest := s[i..];
    if |rest| <= size {
      assert Rest(s, i + size) == [] && s[i..|s|] == rest;
    } else {
      assert rest[size..] == s[i + size..] && rest[..size] == s[i..i + size];
    }
  }

  method Pieces(plain: seq<RequestMessage>, size: nat) returns (batches: seq<Batch>)
    requires size > 0
    ensures batches == Chunks(plain, size)
  {
    hide Chunks;
    batches := [];
    var i := 0;
    assert Rest(plain, 0) == plain;
    while i < |plain|
      invariant batches + Chunks(Rest(plain, i), size) == Chunks(plain, size)
    {
      var j := i + size;
      if j > |plain| {
        j := |plain|;
      }
      NextChunk(batches, plain, i, j, size);
      batches := batches + [Batch(plain[i..j], None)];
      i := i + size;
    }
    NoChunks(size);
    assert Rest(plain, i) == [];
  }

  lemma NoChunks(size: nat)
    requires size > 0
    ensures Chunks([], size) == []
  {
  }

  // ---- All peers ----

  /** The requests sent to `peer`, in order; `choice` is the peer picked for each request. */
  ghost function RequestsFor(requests: seq<RequestMessage>, choice: seq<Peer>, peer: Peer): seq<RequestMessage>
    requires |requests| == |choice|
  {
    if requests == [] then []
    else
      var n := |requests| - 1;
      RequestsFor(requests[..n], choice[..n], peer) + if choice[n] == peer then [requests[n]] else []
  }

  /** Groups the requests by the peer picked for each. */
  method GroupByPeer(requests: seq<RequestMessage>, choice: seq<Peer>) returns (groups: map<Peer, seq<RequestMessage>>)
    requires |requests| == |choice|
    ensures groups.Keys == set p | p in choice
    ensures forall p :: p in groups ==> groups[p] == RequestsFor(requests, choice, p)
  {
    groups := map[];
    for i := 0 to |requests|
      invariant groups.Keys == set p | p in choice[..i]
      invariant forall p :: p in groups ==> groups[p] == RequestsFor(requests[..i], choice[..i], p)
    {
      var target := choice[i];
      assert requests[..i + 1][..i] == requests[..i] && choice[..i + 1][..i] == choice[..i];
      assert choice[..i + 1] == choice[..i] + [target];
      if target !in groups {
        NoneFor(requests[..i], choice[..i], target);
        groups := groups[target := [requests[i]]];
      } else {
        groups := groups[target := groups[target] + [requests[i]]];
      }
    }
    assert requests[..|requests|] == requests && choice[..|choice|] == choice;
  }

  /** How many of the requests were given to `peer`. */
  ghost function GivenTo(choice: seq<Peer>, peer: Peer): nat {
    if choice == [] then 0 else GivenTo(choice[..|choice| - 1], peer) + if choice[|choice| - 1] == peer then 1 else 0
  }

  /** A peer's requests are those it was picked for, each at its place in the order. */
  lemma {:induction false} RequestsForIs(requests: seq<RequestMessage>, choice: seq<Peer>, peer: Peer)
    requires |requests| == |choice|
    ensures |RequestsFor(requests, choice, peer)| == GivenTo(choice, peer)
    ensures forall i :: 0 <= i < |choice| && choice[i] == peer ==>
      var k := GivenTo(choice[..i], peer);
      k < |RequestsFor(requests, choice, peer)| && RequestsFor(requests, choice, peer)[k] == requests[i]
  {
    if requests != [] {
      var n := |requests| - 1;
      RequestsForIs(requests[..n], choice[..n], peer);
      forall i | 0 <= i < |choice| && choice[i] == peer
        ensures var k := GivenTo(choice[..i], peer);
          k < |RequestsFor(requests, choice, peer)| && RequestsFor(requests, choice, peer)[k] == requests[i]
      {
        if i < n {
          assert choice[..n][i] == choice[i] && choice[..n][..i] == choice[..i];
        }
      }
    }
  }

  lemma {:induction false} NoneFor(requests: seq<RequestMessage>, choice: seq<Peer>, peer: Peer)
    requires |requests| == |choice| && peer !in choice
    ensures RequestsFor(requests, choice, peer) == []
  {
    if requests != [] {
      var n := |requests| - 1;
      assert choice[n] in choice;
      NoneFor(requests[..n], choice[..n], peer);
    }
  }

  method Organize(requests: seq<RequestMessage>, choice: seq<Peer>, own: Protocols, size: nat)
    returns (result: map<Peer, seq<Batch>>)
    requires |requests| == |choice| && size > 0
    ensures result.Keys == set p | p in choice
    ensures forall p :: p in result ==> result[p] == PeerBatches(RequestsFor(requests, choice, p), own, size)
  {
    var groups := GroupByPeer(requests, choice);
    result := map[];
    var left := groups.Keys;
    while left != {}
      invariant left <= groups.Keys && result.Keys == groups.Keys - left
      invariant forall p :: p in result ==> result[p] == PeerBatches(groups[p], own, size)
    {
      var peer :| peer in left;
      var reqs := groups[peer];
      var buffer := new RequestMessage[|reqs|](i requires 0 <= i < |reqs| => reqs[i]);
      assert buffer[..] == reqs;
      var batches := SplitPeer(buffer, own, size);
      result := result[peer := batches];
      left := left - {peer};
    }
  }

  /** Everything in the batches of the listed peers. */
  ghost function Sent(requests: seq<RequestMessage>, choice: seq<Peer>, own: Protocols, size: nat,
      peers: seq<Peer>): multiset<RequestMessage>
    requires |requests| == |choice| && size > 0
  {
    if peers == [] then multiset{}
    else
      Content(PeerBatches(RequestsFor(requests, choice, peers[0]), own, size)) +
      Sent(requests, choice, own, size, peers[1..])
  }

  ghost function Grouped(requests: seq<RequestMessage>, choice: seq<Peer>, peers: seq<Peer>): multiset<RequestMessage>
    requires |requests| == |choice|
  {
    if peers == [] then multiset{}
    else multiset(RequestsFor(requests, choice, peers[0])) + Grouped(requests, choice, peers[1..])
  }

  lemma {:induction false} SentIsGrouped(requests: seq<RequestMessage>, choice: seq<Peer>, own: Protocols,
      size: nat, peers: seq<Peer>)
    requires |requests| == |choice| && size > 0
    ensures Sent(requests, choice, own, size, peers) == Grouped(requests, choice, peers)
  {
    if peers != [] {
      PeerContent(RequestsFor(requests, choice, peers[0]), own, size);
      SentIsGrouped(requests, choice, own, size, peers[1..]);
    }
  }

  lemma {:induction false} GroupedStep(requests: seq<RequestMessage>, choice: seq<Peer>, peers: seq<Peer>)
    requires |requests| == |choice| > 0
    requires forall i, j :: 0 <= i < j < |peers| ==> peers[i] != peers[j]
    ensures var n := |requests| - 1;
      Grouped(requests, choice, peers) == Grouped(requests[..n], choice[..n], peers) +
        if choice[n] in peers then multiset{requests[n]} else multiset{}
  {
    if peers != [] {
      GroupedStep(requests, choice, peers[1..]);
    }
  }

  lemma {:induction false} GroupedIsAll(requests: seq<RequestMessage>, choice: seq<Peer>, peers: seq<Peer>)
    requires |requests| == |choice|
    requires forall i, j :: 0 <= i < j < |peers| ==> peers[i] != peers[j]
    requires forall p :: p in choice ==> p in peers
    ensures Grouped(requests, choice, peers) == multiset(requests)
  {
    if requests == [] {
      GroupedNone(choice, peers);
    } else {
      var n := |requests| - 1;
      assert choice[n] in choice;
      GroupedStep(requests, choice, peers);
      GroupedIsAll(requests[..n], choice[..n], peers);
      assert requests == requests[..n] + [requests[n]];
    }
  }

  lemma {:induction false} GroupedNone(choice: seq<Peer>, peers: seq<Peer>)
    requires choice == []
    ensures Grouped([], choice, peers) == multiset{}
  {
    if peers != [] {
      GroupedNone(choice, peers[1..]);
    }
  }

  /** Over all peers the batches hold exactly the requests, whichever peers were picked. */
  lemma OrganizeConserves(requests: seq<RequestMessage>, choice: seq<Peer>, own: Protocols, size: nat, peers: seq<Peer>)
    requires |requests| == |choice| && size > 0
    requires Enumerates(peers, set p | p in choice)
    ensures Sent(requests, choice, own, size, peers) == multiset(requests)
  {
    EnumerationDistinct(peers, set p | p in choice);
    forall p | p in choice
      ensures p in peers
    {
      EnumerationContains(peers, (set q | q in choice), p);
    }
    SentIsGrouped(requests, choice, own, size, peers);
    GroupedIsAll(requests, choice, peers);
  }
}
