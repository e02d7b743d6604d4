/** What holds of the marriage and malfeasance tables in every state that a run of
    transactions reaches from the empty database. */
module MarriageRuns {
  import opened Ids
  import opened Marriages

  datatype Step =
    | StoreStep(atx: MarriageAtx, local: bool, rest: Rest)
    | PublishStep(node: NodeID, refFound: bool)
    | ReceiveStep(ids: seq<NodeID>)

  /** The tables together with the marriage ATXs stored so far, oldest first. */
  datatype World = World(db: Db, history: seq<MarriageAtx>)

  const EMPTY := World(Db({}, map[], map[]), [])

  ghost function Apply(w: World, s: Step): World {
    match s
    case StoreStep(atx, local, rest) =>
      var stored := StoreResultOf(w.db, atx, local, rest).Stored?;
      World(Store(w.db, atx, local, rest),
            if stored && atx.members != [] then w.history + [atx] else w.history)
    case PublishStep(node, refFound) => World(Publish(w.db, node, refFound), w.history)
    case ReceiveStep(ids) => World(if ids == [] then w.db else Receive(w.db, ids), w.history)
  }

  ghost function Run(steps: seq<Step>): World {
    if steps == [] then EMPTY else Apply(Run(steps[..|steps| - 1]), steps[|steps| - 1])
  }

  // ---- Chains of marriage ATXs ----

  ghost predicate Overlap(x: MarriageAtx, y: MarriageAtx) {
    exists n :: n in x.members && n in y.members
  }

  /** `chain` lists positions of stored marriage ATXs: the first names `a`, the last names `b`,
      and each shares a member with the next. */
  ghost predicate IsChain(history: seq<MarriageAtx>, chain: seq<nat>, a: NodeID, b: NodeID) {
    && |chain| > 0
    && (forall i :: 0 <= i < |chain| ==> chain[i] < |history|)
    && a in history[chain[0]].members
    && b in history[chain[|chain| - 1]].members
    && forall i :: 0 <= i < |chain| - 1 ==> Overlap(history[chain[i]], history[chain[i + 1]])
  }

  ghost predicate Linked(history: seq<MarriageAtx>, a: NodeID, b: NodeID) {
    exists chain :: IsChain(history, chain, a, b)
  }

  lemma LinkedByOne(history: seq<MarriageAtx>, k: nat, a: NodeID, b: NodeID)
    requires k < |history| && a in history[k].members && b in history[k].members
    ensures Linked(history, a, b)
  {
    assert IsChain(history, [k], a, b);
  }

  lemma LinkedTransitive(history: seq<MarriageAtx>, a: NodeID, b: NodeID, c: NodeID)
    requires Linked(history, a, b) && Linked(history, b, c)
    ensures Linked(history, a, c)
  {
    var x :| IsChain(history, x, a, b);
    var y :| IsChain(history, y, b, c);
    forall i | 0 <= i < |x + y| - 1
      ensures Overlap(history[(x + y)[i]], history[(x + y)[i + 1]])
    {
      if i < |x| - 1 {
        assert Overlap(history[x[i]], history[x[i + 1]]);
      } else if i >= |x| {
        assert Overlap(history[y[i - |x|]], history[y[i - |x| + 1]]);
      }
    }
    assert IsChain(history, x + y, a, c);
  }

  lemma LinkedGrows(history: seq<MarriageAtx>, atx: MarriageAtx, a: NodeID, b: NodeID)
    requires Linked(history, a, b)
    ensures Linked(history + [atx], a, b)
  {
    var x :| IsChain(history, x, a, b);
    forall i | 0 <= i < |x| - 1
      ensures Overlap((history + [atx])[x[i]], (history + [atx])[x[i + 1]])
    {
      assert Overlap(history[x[i]], history[x[i + 1]]);
    }
    assert IsChain(history + [atx], x, a, b);
  }

  // ---- Storing one marriage ATX merges classes ----

  /** `a` is named by the ATX, or shares a class with a node it names. */
  ghost predicate Joined(t: Table, atx: MarriageAtx, a: NodeID) {
    a in atx.members || exists m :: m in atx.members && SameClass(t, m, a)
  }

  lemma MergedId(t: Table, atx: MarriageAtx, a: NodeID)
    ensures a in MergedTable(t, atx) <==> a in t || a in atx.members
    ensures Joined(t, atx, a) ==> Married(MergedTable(t, atx), a, Target(t, atx.members))
    ensures a in t && !Joined(t, atx, a) ==>
      t[a].id !in Touched(t, atx.members) && MergedTable(t, atx)[a] == t[a]
  {
  }

  /** Two nodes share a class afterwards exactly when they did before, or the ATX joins both:
      whole classes merge and none is split. */
  lemma MergeIsExact(t: Table, atx: MarriageAtx, a: NodeID, b: NodeID)
    ensures SameClass(MergedTable(t, atx), a, b) <==>
      SameClass(t, a, b) || (Joined(t, atx, a) && Joined(t, atx, b))
  {
  }

  /** The merged class keeps the smallest ID among the classes it joins; only when it joins
      none does the new ID stay. */
  lemma MergeKeepsSmallest(t: Table, atx: MarriageAtx, m: NodeID)
    requires m in atx.members
    ensures m in t ==> MergedTable(t, atx)[m].id <= t[m].id < NewId(t)
    ensures (forall n :: n in atx.members ==> n !in t) ==> MergedTable(t, atx)[m].id == NewId(t)
    ensures MergedTable(t, atx)[m].id != NewId(t) ==>
      exists n :: n in atx.members && n in t && t[n].id == MergedTable(t, atx)[m].id
  {
  }

  // ---- The invariant ----

  /** All members of one stored marriage ATX share a class. */
  ghost predicate AtxIsOneClass(t: Table, atx: MarriageAtx) {
    forall a, b :: a in atx.members && b in atx.members ==> SameClass(t, a, b)
  }

  ghost predicate ChainsAreClasses(t: Table, history: seq<MarriageAtx>) {
    && (forall k :: 0 <= k < |history| ==> AtxIsOneClass(t, history[k]))
    && (forall a, b :: SameClass(t, a, b) ==> Linked(history, a, b))
  }

  /** A class is entirely malicious or entirely honest. */
  ghost predicate UniformMalice(t: Table, mal: Malfeasance) {
    forall a, b :: SameClass(t, a, b) ==> (a in mal <==> b in mal)
  }

  /** The marriage ID kept with a malicious node is the ID of its class now, NULL if unmarried. */
  ghost predicate RowsPointHome(t: Table, mal: Malfeasance) {
    forall n :: n in mal ==> mal[n].marriage == if n in t then Some(t[n].id) else None
  }

  ghost predicate HasProof(t: Table, mal: Malfeasance, n: NodeID) {
    exists p :: p in mal && mal[p].proof && (p == n || SameClass(t, n, p))
  }

  /** A proof is on file for every malicious node: its own, or one against a class member. */
  ghost predicate ProofsOnFile(t: Table, mal: Malfeasance) {
    forall n :: n in mal ==> HasProof(t, mal, n) && (n !in t ==> mal[n].proof)
  }

  /** Rows come from stored ATXs, and no two use one certificate: the UNIQUE constraint on
      (ATX, certificate index) is never violated. */
  ghost predicate SlotsUnique(t: Table, known: set<ATXID>) {
    && (forall n :: n in t ==> t[n].atx in known)
    && (forall a, b :: a in t && b in t && a != b ==> t[a].atx != t[b].atx || t[a].index != t[b].index)
  }

  /** What concerns marriages alone. */
  ghost predicate MarriageInv(w: World) {
    ChainsAreClasses(w.db.table, w.history) && SlotsUnique(w.db.table, w.db.known)
  }

  ghost predicate MalfeasanceInv(db: Db) {
    UniformMalice(db.table, db.mal) && RowsPointHome(db.table, db.mal) && ProofsOnFile(db.table, db.mal)
  }

  ghost predicate Inv(w: World) {
    MarriageInv(w) && MalfeasanceInv(w.db)
  }

  // ---- Storing keeps it ----

  lemma StoreKeepsChains(t: Table, history: seq<MarriageAtx>, atx: MarriageAtx)
    requires ChainsAreClasses(t, history) && atx.members != []
    ensures ChainsAreClasses(MergedTable(t, atx), history + [atx])
  {
    var t', h' := MergedTable(t, atx), history + [atx];
    forall k | 0 <= k < |h'|
      ensures AtxIsOneClass(t', h'[k])
    {
      forall a, b | a in h'[k].members && b in h'[k].members
        ensures SameClass(t', a, b)
      {
        if k < |history| {
          assert AtxIsOneClass(t, history[k]);
        }
        MergeIsExact(t, atx, a, b);
      }
    }
    forall a, b | SameClass(t', a, b)
      ensures Linked(h', a, b)
    {
      MergeIsExact(t, atx, a, b);
      if SameClass(t, a, b) {
        LinkedGrows(history, atx, a, b);
      } else {
        var m := NamedKin(t, history, atx, a);
        var n := NamedKin(t, history, atx, b);
        LinkedByOne(h', |history|, m, n);
        LinkedTransitive(h', a, m, n);
        LinkedTransitive(h', a, n, b);
      }
    }
  }

  /** A joined node is linked, both ways, to a node that the ATX names. */
  lemma NamedKin(t: Table, history: seq<MarriageAtx>, atx: MarriageAtx, a: NodeID) returns (m: NodeID)
    requires ChainsAreClasses(t, history) && Joined(t, atx, a)
    ensures m in atx.members
    ensures Linked(history + [atx], a, m) && Linked(history + [atx], m, a)
  {
    if a in atx.members {
      m := a;
      LinkedByOne(history + [atx], |history|, a, a);
    } else {
      m :| m in atx.members && SameClass(t, m, a);
      assert SameClass(t, a, m);
      LinkedGrows(history, atx, a, m);
      LinkedGrows(history, atx, m, a);
    }
  }

  lemma JoinedIsClass(t: Table, atx: MarriageAtx, n: NodeID)
    ensures Married(MergedTable(t, atx), n, Target(t, atx.members)) <==> Joined(t, atx, n)
  {
  }

  /** Only named nodes are looked up, yet the whole merged class comes out uniform. */
  lemma StoreKeepsUniform(db: Db, atx: MarriageAtx)
    requires atx.members != [] && UniformMalice(db.table, db.mal)
    ensures UniformMalice(TableAfter(db, atx), MalAfter(db, atx))
  {
  }

  lemma StoreKeepsRows(db: Db, atx: MarriageAtx)
    requires atx.members != [] && UniformMalice(db.table, db.mal) && RowsPointHome(db.table, db.mal)
    ensures RowsPointHome(TableAfter(db, atx), MalAfter(db, atx))
  {
  }

  lemma {:induction false} StoreKeepsProofs(db: Db, atx: MarriageAtx)
    requires atx.members != [] && UniformMalice(db.table, db.mal) && ProofsOnFile(db.table, db.mal)
    ensures ProofsOnFile(TableAfter(db, atx), MalAfter(db, atx))
  {
    var t', mal' := TableAfter(db, atx), MalAfter(db, atx);
    forall n | n in mal'
      ensures HasProof(t', mal', n) && (n !in t' ==> mal'[n].proof)
    {
      JoinedIsClass(db.table, atx, n);
      MergedId(db.table, atx, n);
      if n in db.mal {
        var p :| p in db.mal && db.mal[p].proof && (p == n || SameClass(db.table, n, p));
        ProofSurvives(db, atx, p);
        MergeIsExact(db.table, atx, n, p);
      } else {
        var m :| m in atx.members && m in db.mal;
        var p :| p in db.mal && db.mal[p].proof && (p == m || SameClass(db.table, m, p));
        ProofSurvives(db, atx, p);
        assert Joined(db.table, atx, p);
        MergeIsExact(db.table, atx, n, p);
      }
    }
  }

  lemma ProofSurvives(db: Db, atx: MarriageAtx, p: NodeID)
    requires p in db.mal && db.mal[p].proof
    ensures p in MalAfter(db, atx) && MalAfter(db, atx)[p].proof
  {
  }

  lemma StoreKeepsSlots(db: Db, atx: MarriageAtx)
    requires atx.members != [] && SlotsUnique(db.table, db.known) && atx.id !in db.known
    ensures SlotsUnique(TableAfter(db, atx), db.known + {atx.id})
  {
  }

  lemma {:induction false} StoreKeepsInv(w: World, s: Step)
    requires Inv(w) && s.StoreStep?
    ensures Inv(Apply(w, s))
  {
    if StoreResultOf(w.db, s.atx, s.local, s.rest).Stored? && s.atx.members != [] {
      StoreKeepsChains(w.db.table, w.history, s.atx);
      StoreKeepsUniform(w.db, s.atx);
      StoreKeepsRows(w.db, s.atx);
      StoreKeepsProofs(w.db, s.atx);
      StoreKeepsSlots(w.db, s.atx);
    }
  }

  // ---- Publishing keeps it ----

  lemma PublishKeepsInv(w: World, s: Step)
    requires Inv(w) && s.PublishStep?
    ensures Inv(Apply(w, s))
  {
    var t, mal, mal' := w.db.table, w.db.mal, Publish(w.db, s.node, s.refFound).mal;
    forall n | n in mal'
      ensures HasProof(t, mal', n) && (n !in t ==> mal'[n].proof)
    {
      if n in mal {
        var p :| p in mal && mal[p].proof && (p == n || SameClass(t, n, p));
        assert p in mal' && mal'[p].proof;
      } else if s.node in t {
        assert SameClass(t, n, s.node);
        assert s.node in mal';
      }
    }
    forall a, b | SameClass(t, a, b)
      ensures a in mal' <==> b in mal'
    {
    }
  }

  // ---- Receiving a proof ----

  /** Nothing changes, or the proof marks a whole class of more than one, or an unmarried node. */
  ghost predicate Fits(db: Db, ids: seq<NodeID>)
    requires ids != []
  {
    if |ids| == 1 then ids[0] in db.mal || ids[0] !in db.table
    else
      || ids[0] !in db.table
      || (&& (forall n :: n in ids ==> SameClass(db.table, ids[0], n))
          && (ids[0] in db.mal || forall n :: SameClass(db.table, ids[0], n) ==> n in ids))
  }

  lemma {:induction false} SingleFitsIff(w: World, ids: seq<NodeID>)
    requires Inv(w) && |ids| == 1
    ensures MalfeasanceInv(Receive(w.db, ids)) <==> Fits(w.db, ids)
  {
    var n, t, mal, mal' := ids[0], w.db.table, w.db.mal, Receive(w.db, ids).mal;
    if n !in mal && n !in t {
      forall m | m in mal'
        ensures HasProof(t, mal', m)
      {
        if m != n {
          var p :| p in mal && mal[p].proof && (p == m || SameClass(t, m, p));
          assert p in mal' && mal'[p].proof;
        }
      }
    }
  }

  lemma {:induction false} SeveralNeed(w: World, ids: seq<NodeID>)
    requires Inv(w) && |ids| > 1 && MalfeasanceInv(Receive(w.db, ids))
    ensures Fits(w.db, ids)
  {
    var n, t, mal' := ids[0], w.db.table, Receive(w.db, ids).mal;
    if n in t {
      forall m | m in ids
        ensures SameClass(t, n, m)
      {
        if m != n {
          SecondHalf(ids, m);
          assert mal'[m].marriage == Some(t[n].id);
        }
      }
      forall m | n !in w.db.mal && SameClass(t, n, m)
        ensures m in ids
      {
        assert m in mal';
      }
    }
  }

  lemma SecondHalf(ids: seq<NodeID>, m: NodeID)
    requires ids != [] && m in ids && m != ids[0]
    ensures m in Others(ids)
  {
    var i :| 0 <= i < |ids| && ids[i] == m;
    assert ids[1..][i - 1] == m;
  }

  /** Receiving a proof for a whole honest class is publishing it. */
  lemma WholeClassIsPublished(db: Db, ids: seq<NodeID>)
    requires |ids| > 1 && UniformMalice(db.table, db.mal) && ids[0] in db.table && ids[0] !in db.mal
    requires forall m :: m in ids <==> SameClass(db.table, ids[0], m)
    ensures Receive(db, ids) == Publish(db, ids[0], true)
  {
    var n, mal', published := ids[0], Receive(db, ids).mal, Publish(db, ids[0], true).mal;
    forall m
      ensures m in mal' <==> m in published
      ensures m in mal' ==> mal'[m] == published[m]
    {
      assert m in Others(ids) ==> m in ids;
      if m in ids && m != n {
        SecondHalf(ids, m);
      }
    }
  }

  lemma NothingNew(db: Db, ids: seq<NodeID>)
    requires |ids| > 1 && UniformMalice(db.table, db.mal) && RowsPointHome(db.table, db.mal)
    requires ids[0] in db.mal && forall m :: m in ids ==> SameClass(db.table, ids[0], m)
    ensures Receive(db, ids) == db
  {
    assert ids[0] in ids;
    forall m | m in Others(ids)
      ensures m in db.mal && Marked(db.mal, m, db.table[ids[0]].id) == db.mal[m]
    {
      assert m in ids;
    }
  }

  lemma {:induction false} SeveralSuffice(w: World, ids: seq<NodeID>)
    requires Inv(w) && |ids| > 1 && Fits(w.db, ids)
    ensures MalfeasanceInv(Receive(w.db, ids))
  {
    hide UniformMalice, RowsPointHome, ProofsOnFile, MarriageInv, Publish, Others, MarkAll, WithProof;
    if ids[0] in w.db.table && ids[0] in w.db.mal {
      NothingNew(w.db, ids);
    } else if ids[0] in w.db.table {
      WholeClassIsPublished(w.db, ids);
      PublishKeepsInv(w, PublishStep(ids[0], true));
    }
  }

  /** Storing a received proof keeps the tables in order exactly when the IDs read before fit what
      the tables hold now. */
  lemma {:induction false} ReceiveKeepsInvIff(w: World, ids: seq<NodeID>)
    requires Inv(w) && ids != []
    ensures Inv(Apply(w, ReceiveStep(ids))) <==> Fits(w.db, ids)
  {
    if |ids| == 1 {
      SingleFitsIff(w, ids);
    } else if Fits(w.db, ids) {
      SeveralSuffice(w, ids);
    } else if MalfeasanceInv(Receive(w.db, ids)) {
      SeveralNeed(w, ids);
    }
  }

  // ---- Whole runs ----

  ghost predicate StepFits(w: World, s: Step) {
    s.ReceiveStep? && s.ids != [] ==> Fits(w.db, s.ids)
  }

  /** Every received proof in the run fits when it is stored. */
  ghost predicate ReceivesFit(steps: seq<Step>) {
    forall i :: 0 <= i < |steps| ==> StepFits(Run(steps[..i]), steps[i])
  }

  /** Marriages stay in order whatever proofs are received. */
  lemma {:induction false} RunKeepsMarriages(steps: seq<Step>)
    ensures MarriageInv(Run(steps))
  {
    if steps != [] {
      var w, s := Run(steps[..|steps| - 1]), steps[|steps| - 1];
      RunKeepsMarriages(steps[..|steps| - 1]);
      if s.StoreStep? && StoreResultOf(w.db, s.atx, s.local, s.rest).Stored? && s.atx.members != [] {
        StoreKeepsChains(w.db.table, w.history, s.atx);
        StoreKeepsSlots(w.db, s.atx);
      }
    }
  }

  lemma {:induction false} RunKeepsInv(steps: seq<Step>)
    requires ReceivesFit(steps)
    ensures Inv(Run(steps))
  {
    if steps != [] {
      var n, s := |steps| - 1, steps[|steps| - 1];
      assert forall i :: 0 <= i < n ==> steps[..n][..i] == steps[..i];
      assert StepFits(Run(steps[..n]), steps[n]);
      RunKeepsInv(steps[..n]);
      match s {
        case StoreStep(_, _, _) => StoreKeepsInv(Run(steps[..n]), s);
        case PublishStep(_, _) => PublishKeepsInv(Run(steps[..n]), s);
        case ReceiveStep(ids) =>
          if ids != [] {
            ReceiveKeepsInvIff(Run(steps[..n]), ids);
          }
      }
    }
  }

  lemma {:induction false} ChainSharesClass(t: Table, history: seq<MarriageAtx>, chain: seq<nat>, a: NodeID, b: NodeID)
    requires ChainsAreClasses(t, history) && IsChain(history, chain, a, b)
    ensures SameClass(t, a, b)
    decreases |chain|
  {
    var first := history[chain[0]];
    assert AtxIsOneClass(t, first);
    if |chain| > 1 {
      assert Overlap(history[chain[0]], history[chain[1]]);
      var n :| n in first.members && n in history[chain[1]].members;
      forall i | 0 <= i < |chain[1..]| - 1
        ensures Overlap(history[chain[1..][i]], history[chain[1..][i + 1]])
      {
        assert Overlap(history[chain[i + 1]], history[chain[i + 1 + 1]]);
      }
      ChainSharesClass(t, history, chain[1..], n, b);
    }
  }

  /** In every reachable table, two nodes share a marriage ID exactly when a chain of stored
      marriage ATXs with overlapping members links them. */
  lemma {:induction false} ClassesAreChains(steps: seq<Step>, a: NodeID, b: NodeID)
    ensures SameClass(Run(steps).db.table, a, b) <==> Linked(Run(steps).history, a, b)
  {
    var w := Run(steps);
    RunKeepsMarriages(steps);
    if Linked(w.history, a, b) {
      var chain :| IsChain(w.history, chain, a, b);
      ChainSharesClass(w.db.table, w.history, chain, a, b);
    }
  }

  /** In every state reached while received proofs fit, a malicious node's whole class is
      malicious, each of its rows names the class as it is now, and a proof against a member is on
      file. */
  lemma {:induction false} MaliceIsClassWide(steps: seq<Step>, a: NodeID, b: NodeID)
    requires ReceivesFit(steps)
    requires SameClass(Run(steps).db.table, a, b) && a in Run(steps).db.mal
    ensures b in Run(steps).db.mal
    ensures Run(steps).db.mal[b].marriage == Some(Run(steps).db.table[a].id)
    ensures exists p :: SameClass(Run(steps).db.table, a, p) && p in Run(steps).db.mal && Run(steps).db.mal[p].proof
  {
    RunKeepsInv(steps);
    var w := Run(steps);
    var p :| p in w.db.mal && w.db.mal[p].proof && (p == a || SameClass(w.db.table, a, p));
  }

  lemma StepOnlyAdds(w: World, s: Step, a: NodeID, b: NodeID)
    ensures SameClass(w.db.table, a, b) ==> SameClass(Apply(w, s).db.table, a, b)
    ensures a in w.db.mal ==> a in Apply(w, s).db.mal
  {
    if s.StoreStep? {
      hide MergedTable;
      MergeIsExact(w.db.table, s.atx, a, b);
    }
  }

  /** Once two nodes share a class, no later step separates them; once malicious, a node stays so. */
  lemma {:induction false} NeverSplit(steps: seq<Step>, more: seq<Step>, a: NodeID, b: NodeID)
    ensures SameClass(Run(steps).db.table, a, b) ==> SameClass(Run(steps + more).db.table, a, b)
    ensures a in Run(steps).db.mal ==> a in Run(steps + more).db.mal
  {
    if more == [] {
      assert steps + more == steps;
    } else {
      var front := more[..|more| - 1];
      NeverSplit(steps, front, a, b);
      assert (steps + more)[..|steps + more| - 1] == steps + front;
      StepOnlyAdds(Run(steps + front), more[|more| - 1], a, b);
    }
  }

  lemma {:induction false} ClassGrows(steps: seq<Step>, more: seq<Step>, n: NodeID)
    ensures Class(Run(steps).db.table, n) <= Class(Run(steps + more).db.table, n)
  {
    forall m | m in Class(Run(steps).db.table, n)
      ensures m in Class(Run(steps + more).db.table, n)
    {
      NeverSplit(steps, more, n, m);
    }
  }

  /** The IDs are read outside the transaction that stores them.  They fit exactly when the node is
      already malicious by then, or its class is as it was and is not the node alone. */
  lemma {:induction false} ReadFitsIff(steps: seq<Step>, more: seq<Step>, n: NodeID, ids: seq<NodeID>)
    requires IsRead(Run(steps).db.table, n, ids)
    ensures var then', now := Run(steps).db, Run(steps + more).db;
      Fits(now, ids) <==>
        || n in now.mal
        || (Class(now.table, n) == Class(then'.table, n) && Class(now.table, n) != {n})
  {
    var then', now := Run(steps).db, Run(steps + more).db;
    ClassGrows(steps, more, n);
    SingleRead(then'.table, n, ids);
    MemberOfOwn(then'.table, n);
    MemberOfOwn(now.table, n);
    hide Run, Distinct;
    if |ids| > 1 {
      assert n in now.table;
    }
  }

  lemma MemberOfOwn(t: Table, n: NodeID)
    ensures n in t <==> n in Class(t, n)
    ensures n !in t ==> Class(t, n) == {}
  {
  }

  lemma SingleRead(t: Table, n: NodeID, ids: seq<NodeID>)
    requires IsRead(t, n, ids)
    ensures |ids| == 1 <==> Class(t, n) == {} || Class(t, n) == {n}
    ensures |ids| > 1 ==> forall m :: m in ids <==> m in Class(t, n)
  {
    MemberOfOwn(t, n);
    if |ids| > 1 {
      assert ids[1] in ids && ids[1] != n;
    }
    if |ids| == 1 {
      assert forall m :: m in ids ==> m == n;
    }
  }

  /** A node married to itself alone, and a proof against it: its row does not name its class. */
  lemma SelfMarriedExample() returns (steps: seq<Step>, ids: seq<NodeID>)
    ensures IsRead(Run(steps).db.table, 1, ids) && ReceivesFit(steps)
    ensures !RowsPointHome(Run(steps + [ReceiveStep(ids)]).db.table, Run(steps + [ReceiveStep(ids)]).db.mal)
  {
    var atx := MarriageAtx(7, 1, [1]);
    steps, ids := [StoreStep(atx, false, Rest(false, None))], [1];
    FirstMarriage(atx);
    var w := Run(steps);
    ReceiveAfter(steps, ids);
    assert 1 in Receive(w.db, ids).mal;
  }

  lemma {:induction false} FirstMarriage(atx: MarriageAtx)
    requires atx.members != [] && Distinct(atx.members)
    ensures var w := Run([StoreStep(atx, false, Rest(false, None))]);
      && w.db.mal == map[] && (forall n :: n in w.db.table <==> n in atx.members)
      && (forall a, b :: SameClass(w.db.table, a, b) <==> a in atx.members && b in atx.members)
      && w.db.known == {atx.id} && ReceivesFit([StoreStep(atx, false, Rest(false, None))])
  {
    var s := StoreStep(atx, false, Rest(false, None));
    assert [s][..0] == [];
    assert Run([]) == EMPTY;
    forall a, b { MergeIsExact(map[], atx, a, b); }
    forall n { MergedId(map[], atx, n); }
  }

  lemma {:induction false} ReceiveAfter(steps: seq<Step>, ids: seq<NodeID>)
    requires ids != []
    ensures Run(steps + [ReceiveStep(ids)]).db == Receive(Run(steps).db, ids)
  {
    var more := steps + [ReceiveStep(ids)];
    assert more[..|more| - 1] == steps;
  }

  /** A marriage between the read and the write leaves a class half malicious. */
  lemma MergedMeanwhileExample() returns (steps: seq<Step>, between: Step, ids: seq<NodeID>)
    ensures IsRead(Run(steps).db.table, 1, ids) && ReceivesFit(steps) && between.StoreStep?
    ensures var w := Run(steps + [between] + [ReceiveStep(ids)]);
      SameClass(w.db.table, 1, 3) && 1 in w.db.mal && 3 !in w.db.mal
  {
    hide Run, MergedTable, ReceivesFit, Receive;
    var first, second := MarriageAtx(7, 1, [1, 2]), MarriageAtx(8, 3, [3, 1]);
    var fine := Rest(false, None);
    steps, between, ids := [StoreStep(first, false, fine)], StoreStep(second, false, fine), [1, 2];
    FirstMarriage(first);
    assert first.members[0] in first.members && first.members[1] in first.members && ids == first.members;
    var w := Run(steps);
    HonestStore(steps, second);
    assert second.members[0] in second.members && second.members[1] in second.members;
    MergeIsExact(w.db.table, second, 1, 3);
    ReceiveAfter(steps + [between], ids);
    ReceivedByTwo(Run(steps + [between]).db, 1, 2);
  }

  lemma {:induction false} HonestStore(steps: seq<Step>, atx: MarriageAtx)
    requires Run(steps).db.mal == map[] && atx.id !in Run(steps).db.known && Distinct(atx.members) && atx.members != []
    ensures var w := Run(steps + [StoreStep(atx, false, Rest(false, None))]);
      w.db.mal == map[] && w.db.table == MergedTable(Run(steps).db.table, atx)
  {
    hide MergedTable;
    var s := StoreStep(atx, false, Rest(false, None));
    assert (steps + [s])[..|steps + [s]| - 1] == steps;
  }

  lemma ReceivedByTwo(db: Db, a: NodeID, b: NodeID)
    requires db.mal == map[] && a in db.table
    ensures Receive(db, [a, b]).mal.Keys == {a, b} && Receive(db, [a, b]).table == db.table
  {
    assert [a, b][1..] == [b];
  }

  // ---- What each transaction does ----

  /** An ATX is stored exactly when it is new, its certificates name distinct nodes and nothing else
      fails; and, if it is the node's own, it exposes nobody. */
  lemma {:induction false} StoredIff(db: Db, atx: MarriageAtx, local: bool, rest: Rest)
    ensures StoreResultOf(db, atx, local, rest).Stored? <==>
      && atx.id !in db.known && Distinct(atx.members) && !rest.fails
      && (local ==>
            && (forall m :: m in atx.members ==> m !in db.mal)
            && (forall m :: m in atx.members && m in db.table ==> db.table[m].atx == atx.id)
            && rest.proofFor.None?)
    ensures StoreResultOf(db, atx, local, rest).Stored? ==> Store(db, atx, local, rest).known == db.known + {atx.id}
    ensures StoreResultOf(db, atx, local, rest).Rejected? ==> Store(db, atx, local, rest) == db
  {
    ElsewhereBefore(db, atx);
    hide MergedTable, Republish, NewId;
    var t', d := TableAfter(db, atx), DoubleMarry(TableAfter(db, atx), atx, 0);
    assert NamesMalicious(db.mal, atx.members) || !Republish(db, atx) by { RepublishNames(db, atx); }
    if d.None? {
      forall m | m in atx.members
        ensures !MarriedElsewhere(t', atx, m)
      {
        var i := IndexOf(atx.members, m);
      }
    }
  }

  lemma RepublishNames(db: Db, atx: MarriageAtx)
    ensures Republish(db, atx) ==> NamesMalicious(db.mal, atx.members)
  {
  }

  /** Only a node that was married before can be recorded with another ATX. */
  lemma ElsewhereBefore(db: Db, atx: MarriageAtx)
    ensures forall m :: MarriedElsewhere(TableAfter(db, atx), atx, m) <==>
      m in atx.members && m in db.table && db.table[m].atx != atx.id
  {
    hide NewId, Target, Touched;
  }

  ghost predicate RecordedElsewhere(db: Db, atx: MarriageAtx, i: nat)
    requires i < |atx.members|
  {
    atx.members[i] in db.table && db.table[atx.members[i]].atx != atx.id
  }

  ghost predicate FirstElsewhere(db: Db, atx: MarriageAtx, i: nat) {
    i < |atx.members| && RecordedElsewhere(db, atx, i) && forall j :: 0 <= j < i ==> !RecordedElsewhere(db, atx, j)
  }

  lemma {:induction false} FirstDouble(db: Db, atx: MarriageAtx, from: nat)
    requires from <= |atx.members| && forall j :: 0 <= j < from ==> !RecordedElsewhere(db, atx, j)
    ensures var d := DoubleMarry(TableAfter(db, atx), atx, from);
      && (d.Some? ==> exists i: nat :: FirstElsewhere(db, atx, i) && d == Some(atx.members[i]))
      && (d.None? ==> forall i :: 0 <= i < |atx.members| ==> !RecordedElsewhere(db, atx, i))
    decreases |atx.members| - from
  {
    ElsewhereBefore(db, atx);
    hide TableAfter, MarriedElsewhere;
    if from < |atx.members| {
      assert MarriedElsewhere(TableAfter(db, atx), atx, atx.members[from]) <==> RecordedElsewhere(db, atx, from);
      if RecordedElsewhere(db, atx, from) {
        assert FirstElsewhere(db, atx, from);
      } else {
        FirstDouble(db, atx, from + 1);
      }
    }
  }

  /** The proof to publish: none for a class that was malicious already, else the first node, in
      certificate order, that is married through another ATX, else what the other checks found. */
  lemma {:induction false} ProofForIs(db: Db, atx: MarriageAtx, local: bool, rest: Rest)
    requires StoreResultOf(db, atx, local, rest).Stored?
    ensures var r := StoreResultOf(db, atx, local, rest);
      && (r.malicious <==> exists m :: m in atx.members && m in db.mal)
      && (r.malicious ==> r.proofFor.None?)
      && (!r.malicious && (forall i :: 0 <= i < |atx.members| ==> !RecordedElsewhere(db, atx, i)) ==>
            r.proofFor == rest.proofFor)
      && (!r.malicious && (exists i :: 0 <= i < |atx.members| && RecordedElsewhere(db, atx, i)) ==>
            exists i: nat :: FirstElsewhere(db, atx, i) && r.proofFor == Some(atx.members[i]))
  {
    RepublishNames(db, atx);
    FirstDouble(db, atx, 0);
    hide Republish, TableAfter, DoubleMarry, RecordedElsewhere, Distinct;
  }

  /** A named node that was not married gets a row with the ATX, its place among the certificates and
      the signer; a row that was there keeps all but its marriage ID. */
  lemma {:induction false} RowsWritten(t: Table, atx: MarriageAtx, n: NodeID)
    requires Distinct(atx.members)
    ensures n in t ==> n in MergedTable(t, atx) && MergedTable(t, atx)[n] == t[n].(id := MergedTable(t, atx)[n].id)
    ensures forall i :: 0 <= i < |atx.members| && atx.members[i] !in t ==>
      && atx.members[i] in MergedTable(t, atx)
      && MergedTable(t, atx)[atx.members[i]] ==
         Info(MergedTable(t, atx)[atx.members[i]].id, atx.id, i, atx.smesher)
  {
    hide Target, Touched, NewId;
    forall i | 0 <= i < |atx.members|
      ensures IndexOf(atx.members, atx.members[i]) == i
    {
    }
  }

  /** Storing makes malicious exactly everyone the ATX joins, if it names a malicious node, and
      nobody otherwise. */
  lemma {:induction false} MarkedByStore(db: Db, atx: MarriageAtx, n: NodeID)
    requires atx.members != []
    ensures n in MalAfter(db, atx) <==>
      n in db.mal || (Joined(db.table, atx, n) && exists m :: m in atx.members && m in db.mal)
    ensures n in db.mal ==> n in MalAfter(db, atx) && MalAfter(db, atx)[n].proof == db.mal[n].proof
    ensures n in MalAfter(db, atx) && n !in db.mal ==> !MalAfter(db, atx)[n].proof
  {
    JoinedIsClass(db.table, atx, n);
    hide MergedTable, Target, Touched, NewId;
  }

  /** Publishing a proof records it and marks exactly the node and its class; an unmarried node needs
      an ATX to refer to. */
  lemma PublishedIs(db: Db, node: NodeID, refFound: bool, n: NodeID)
    ensures n in Publish(db, node, refFound).mal <==>
      n in db.mal || SameClass(db.table, node, n) || (n == node && n !in db.table && refFound)
    ensures node in Publish(db, node, true).mal
    ensures node !in db.mal && node in Publish(db, node, refFound).mal ==> Publish(db, node, refFound).mal[node].proof
    ensures Publish(db, node, refFound).table == db.table && Publish(db, node, refFound).known == db.known
  {
  }

  /** Receiving one does the same for the IDs read, as far as the first of several is married. */
  lemma ReceivedIs(db: Db, ids: seq<NodeID>, n: NodeID)
    requires ids != []
    ensures n in Receive(db, ids).mal <==> n in db.mal || (n in ids && (|ids| == 1 || ids[0] in db.table))
    ensures ids[0] !in db.mal && ids[0] in Receive(db, ids).mal ==> Receive(db, ids).mal[ids[0]].proof
    ensures Receive(db, ids).table == db.table && Receive(db, ids).known == db.known
  {
    assert ids == [ids[0]] + ids[1..];
  }

  /** The proof is gossiped again exactly when storing changed some node's status. */
  lemma RepublishIffStatusChanges(db: Db, atx: MarriageAtx, local: bool, rest: Rest)
    requires StoreResultOf(db, atx, local, rest).Stored?
    ensures StoreResultOf(db, atx, local, rest).republish <==> Store(db, atx, local, rest).mal.Keys != db.mal.Keys
  {
  }

  lemma DoubleMarriageStored(w: World, atx: MarriageAtx, rest: Rest, m: NodeID, n: NodeID)
    requires atx.id !in w.db.known && Distinct(atx.members) && !rest.fails
    requires m in atx.members && m in w.db.table && w.db.table[m].atx in w.db.known
    requires Joined(w.db.table, atx, n)
    ensures var r, after := StoreResultOf(w.db, atx, false, rest), Store(w.db, atx, false, rest);
      && r.Stored?
      && (r.malicious ==> n in after.mal)
      && (!r.malicious ==> r.proofFor.Some? && SameClass(after.table, r.proofFor.value, n))
  {
    var t := w.db.table;
    var t' := TableAfter(w.db, atx);
    JoinedIsClass(t, atx, n);
    MergedId(t, atx, m);
    assert t'[m].atx == t[m].atx;
    assert MarriedElsewhere(t', atx, m);
    var d := DoubleMarry(t', atx, 0);
    var i := IndexOf(atx.members, m);
    assert d.Some?;
    JoinedIsClass(t, atx, d.value);
  }

  /** A stored ATX that names a node married before is exposed.  Whatever other transactions come
      between storing it and publishing the proof it yields, everyone the ATX joins is malicious
      then, unless the class was malicious at once. */
  lemma {:induction false} DoubleMarriageIsPunished(steps: seq<Step>, atx: MarriageAtx, rest: Rest, more: seq<Step>,
      m: NodeID, n: NodeID)
    requires atx.id !in Run(steps).db.known && Distinct(atx.members) && !rest.fails
    requires m in atx.members && m in Run(steps).db.table
    requires Joined(Run(steps).db.table, atx, n)
    ensures var r := StoreResultOf(Run(steps).db, atx, false, rest);
      var later := Run(steps + [StoreStep(atx, false, rest)] + more).db;
      && r.Stored?
      && (r.malicious ==> n in later.mal)
      && (!r.malicious ==> r.proofFor.Some? && n in Publish(later, r.proofFor.value, true).mal)
  {
    var w, s := Run(steps), StoreStep(atx, false, rest);
    RunKeepsMarriages(steps);
    DoubleMarriageStored(w, atx, rest, m, n);
    assert (steps + [s])[..|steps + [s]| - 1] == steps;
    var r := StoreResultOf(w.db, atx, false, rest);
    var d := if r.proofFor.Some? then r.proofFor.value else n;
    NeverSplit(steps + [s], more, d, n);
    NeverSplit(steps + [s], more, n, n);
  }
}
