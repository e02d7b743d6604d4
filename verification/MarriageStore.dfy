/** The code that updates the marriage and malfeasance tables: certificate validation,
    `storeAtx` with its loops over certificates, touched IDs and class members, and
    `PublishATXProof`. */
module MarriageStore {
  import opened Ids
  import opened Sorting
  import opened Marriages

  /** A marriage certificate: the ATX that identifies its signer, or none when the ATX's own
      smesher signed, and whether the signature over the smesher's key verifies. */
  datatype Certificate = Certificate(reference: Option<ATXID>, signatureOk: bool)

  ghost predicate Resolves(c: Certificate, owners: map<ATXID, NodeID>) {
    c.reference.Some? ==> c.reference.value in owners
  }

  ghost function Signer(c: Certificate, smesher: NodeID, owners: map<ATXID, NodeID>): NodeID
    requires Resolves(c, owners)
  {
    if c.reference.None? then smesher else owners[c.reference.value]
  }

  /** Everything `validateMarriages` asks of the certificates. */
  ghost predicate CertificatesValid(certs: seq<Certificate>, smesher: NodeID, owners: map<ATXID, NodeID>) {
    && (forall i :: 0 <= i < |certs| ==> Resolves(certs[i], owners) && certs[i].signatureOk)
    && (forall i, j :: 0 <= i < j < |certs| ==>
          Signer(certs[i], smesher, owners) != Signer(certs[j], smesher, owners))
  }

  /** Returns the married IDs in certificate order; the order is what a PoST's marriage index
      refers to. */
  method ValidateMarriages(certs: seq<Certificate>, smesher: NodeID, owners: map<ATXID, NodeID>)
    returns (r: Option<seq<NodeID>>)
    ensures r.Some? <==> CertificatesValid(certs, smesher, owners)
    ensures r.Some? ==> Distinct(r.value) && |r.value| == |certs|
    ensures r.Some? ==> forall i :: 0 <= i < |certs| ==>
      Resolves(certs[i], owners) && r.value[i] == Signer(certs[i], smesher, owners)
  {
    var seen: set<NodeID> := {};
    var ids: seq<NodeID> := [];
    for i := 0 to |certs|
      invariant |ids| == i && Distinct(ids)
      invariant seen == set id | id in ids
      invariant forall j :: 0 <= j < i ==>
        Resolves(certs[j], owners) && certs[j].signatureOk && ids[j] == Signer(certs[j], smesher, owners)
    {
      var c := certs[i];
      if c.reference.Some? && c.reference.value !in owners {
        return None;
      }
      var id := if c.reference.None? then smesher else owners[c.reference.value];
      if !c.signatureOk {
        return None;
      }
      if id in seen {
        var j :| 0 <= j < i && ids[j] == id;
        assert Signer(certs[j], smesher, owners) == Signer(certs[i], smesher, owners);
        return None;
      }
      seen := seen + {id};
      ids := ids + [id];
    }
    return Some(ids);
  }

  ghost function Signers(certs: seq<Certificate>, smesher: NodeID, owners: map<ATXID, NodeID>): seq<NodeID>
    requires CertificatesValid(certs, smesher, owners)
  {
    seq(|certs|, i requires 0 <= i < |certs| => Signer(certs[i], smesher, owners))
  }

  // ---- The tables inside the transaction ----

  /** The table after the first `i` certificates were added under `newId`; rows that were there
      conflict and stay as they are. */
  ghost function Added(t: Table, atx: MarriageAtx, newId: nat, i: nat): Table
    requires i <= |atx.members|
  {
    map n | n in t.Keys + (set m | m in atx.members[..i]) ::
      if n in t then t[n] else Info(newId, atx.id, IndexOf(atx.members, n), atx.smesher)
  }

  ghost function TouchedBy(t: Table, members: seq<NodeID>, newId: nat): set<nat> {
    {newId} + set m | m in members && m in t :: t[m].id
  }

  ghost function Renamed(t: Table, ids: set<nat>, target: nat): Table {
    map n | n in t :: t[n].(id := if t[n].id in ids then target else t[n].id)
  }

  lemma IndexIsUnique(s: seq<NodeID>, i: nat)
    requires Distinct(s) && i < |s|
    ensures IndexOf(s, s[i]) == i
  {
  }

  lemma NextMember(s: seq<NodeID>, i: nat)
    requires Distinct(s) && i < |s|
    ensures s[..i + 1] == s[..i] + [s[i]] && s[i] !in s[..i]
  {
  }

  lemma AddedStep(t: Table, atx: MarriageAtx, newId: nat, i: nat)
    requires Distinct(atx.members) && i < |atx.members|
    ensures var m := atx.members[i];
      && (m in Added(t, atx, newId, i) <==> m in t)
      && Added(t, atx, newId, i + 1) ==
         (if m in t then Added(t, atx, newId, i)
          else Added(t, atx, newId, i)[m := Info(newId, atx.id, i, atx.smesher)])
  {
    var m := atx.members[i];
    IndexIsUnique(atx.members, i);
    NextMember(atx.members, i);
    hide Distinct, IndexOf;
    var before, after := Added(t, atx, newId, i), Added(t, atx, newId, i + 1);
    forall n
      ensures n in after <==> n in before || n == m
      ensures n in before ==> after[n] == before[n]
    {
    }
  }

  lemma TouchedStep(t: Table, members: seq<NodeID>, newId: nat, i: nat)
    requires i < |members|
    ensures TouchedBy(t, members[..i + 1], newId) ==
      TouchedBy(t, members[..i], newId) + (if members[i] in t then {t[members[i]].id} else {})
  {
  }

  /** Renaming every touched ID in the extended table is the merge. */
  lemma RenamingMerges(t: Table, atx: MarriageAtx, ids: set<nat>)
    requires ids == Touched(t, atx.members) - {Target(t, atx.members)}
    ensures Renamed(Added(t, atx, NewId(t), |atx.members|), ids, Target(t, atx.members)) == MergedTable(t, atx)
  {
  }

  ghost function MembersTo(ids: seq<NodeID>, i: nat): set<NodeID>
    requires 1 <= i <= |ids|
  {
    set n | n in ids[1..i]
  }

  lemma MarkOneMore(mal: Malfeasance, ids: seq<NodeID>, i: nat, id: nat)
    requires 1 <= i < |ids|
    ensures var before, n := MarkAll(mal, MembersTo(ids, i), id), ids[i];
      MarkAll(mal, MembersTo(ids, i + 1), id) == before[n := MalRow(Some(id), n in before && before[n].proof)]
  {
    assert ids[1..i + 1] == ids[1..i] + [ids[i]];
    assert MembersTo(ids, i + 1) == MembersTo(ids, i) + {ids[i]};
  }

  class Tables {
    var known: set<ATXID>
    var table: Table
    var mal: Malfeasance

    ghost function View(): Db
      reads this
    {
      Db(known, table, mal)
    }

    constructor ()
      ensures View() == Db({}, map[], map[])
    {
      known, table, mal := {}, map[], map[];
    }

    /** `SELECT max(id) FROM marriages`, plus one. */
    method NewMarriageId() returns (r: nat)
      ensures r == NewId(table)
    {
      var left := table.Keys;
      r := 0;
      while left != {}
        invariant left <= table.Keys
        invariant forall n :: n in table && n !in left ==> table[n].id <= r
        invariant r == 0 || r in IdsOf(table)
      {
        var n :| n in left;
        if table[n].id > r {
          r := table[n].id;
        }
        left := left - {n};
      }
      if table != map[] {
        var n :| n in table;
        assert table[n].id in IdsOf(table);
        assert r in IdsOf(table);
        assert Max(IdsOf(table)) in IdsOf(table);
        assert Max(IdsOf(table)) == r;
      }
      r := r + 1;
    }

    /** `INSERT … ON CONFLICT(pubkey) DO UPDATE … WHERE id = $1`: a row with another marriage ID
        is a conflict and stays. */
    method Add(node: NodeID, info: Info) returns (conflict: bool)
      modifies `table
      ensures conflict <==> node in old(table) && old(table)[node].id != info.id
      ensures table == if conflict then old(table) else old(table)[node := info]
    {
      conflict := node in table && table[node].id != info.id;
      if !conflict {
        table := table[node := info];
      }
    }

    /** `UPDATE marriages SET id = to WHERE id = from`. */
    method UpdateMarriageId(from: nat, to: nat)
      modifies `table
      ensures table == Renamed(old(table), {from}, to)
    {
      table := map n | n in table :: n := table[n].(id := if table[n].id == from then to else table[n].id);
    }

    /** Adds a row per certificate and collects the marriage IDs that are touched. */
    method AddCertificates(atx: MarriageAtx, newId: nat) returns (ids: set<nat>, malicious: bool)
      requires Distinct(atx.members)
      requires forall n :: n in table ==> table[n].id < newId
      modifies `table
      ensures table == Added(old(table), atx, newId, |atx.members|)
      ensures ids == TouchedBy(old(table), atx.members, newId)
      ensures malicious <==> NamesMalicious(mal, atx.members)
    {
      ids, malicious := {newId}, false;
      ghost var t := table;
      for i := 0 to |atx.members|
        invariant table == Added(t, atx, newId, i)
        invariant ids == TouchedBy(t, atx.members[..i], newId)
        invariant malicious <==> NamesMalicious(mal, atx.members[..i])
      {
        var m := atx.members[i];
        AddedStep(t, atx, newId, i);
        TouchedStep(t, atx.members, newId, i);
        var conflict := Add(m, Info(newId, atx.id, i, atx.smesher));
        if conflict {
          ids := ids + {table[m].id};
        }
        if !malicious {
          malicious := m in mal;
        }
        assert atx.members[..i + 1] == atx.members[..i] + [m];
      }
      assert atx.members[..|atx.members|] == atx.members;
    }

    /** Renames every collected ID to the smallest. */
    method MergeIds(ids: set<nat>) returns (target: nat)
      requires ids != {}
      modifies `table
      ensures target == Min(ids)
      ensures table == Renamed(old(table), ids - {target}, target)
    {
      target :| target in ids;
      var left := ids - {target};
      while left != {}
        invariant left <= ids && target in ids && target !in left
        invariant forall x :: x in ids ==> x in left || target <= x
        decreases left
      {
        var x :| x in left;
        if x < target { target := x; }
        left := left - {x};
      }
      ghost var t, done := table, {};
      left := ids - {target};
      while left != {}
        invariant left <= ids - {target} && done == ids - {target} - left
        invariant table == Renamed(t, done, target)
        decreases left
      {
        var id :| id in left;
        UpdateMarriageId(id, target);
        left := left - {id};
        done := done + {id};
      }
    }

    /** Marks every node of the class malicious and reports whether one was not. */
    method SpreadMalice(id: nat) returns (changed: bool)
      modifies `mal
      ensures mal == MarkClass(table, old(mal), id)
      ensures changed <==> AnyHonest(table, old(mal), id)
    {
      changed := false;
      ghost var before := mal;
      var members := set n | n in table && table[n].id == id;
      var left := members;
      while left != {}
        invariant left <= members
        invariant forall n :: n in mal <==> n in before || (n in members && n !in left)
        invariant forall n :: n in mal ==>
          mal[n] == if n in members && n !in left then Marked(before, n, id) else before[n]
        invariant changed <==> exists n :: n in members && n !in left && n !in before
      {
        var n :| n in left;
        if n !in mal {
          changed := true;
        }
        mal := mal[n := MalRow(Some(id), n in mal && mal[n].proof)];
        left := left - {n};
      }
      assert forall n :: n in members <==> Married(table, n, id);
      if changed {
        ghost var n :| n in members && n !in before;
        assert Married(table, n, id);
      }
    }

    method CheckDoubleMarry(atx: MarriageAtx) returns (node: Option<NodeID>)
      requires forall m :: m in atx.members ==> m in table
      ensures node == DoubleMarry(table, atx, 0)
    {
      for i := 0 to |atx.members|
        invariant DoubleMarry(table, atx, 0) == DoubleMarry(table, atx, i)
      {
        if table[atx.members[i]].atx != atx.id {
          return Some(atx.members[i]);
        }
      }
      return None;
    }

    /** The marriages part of the transaction. */
    method StoreMarriages(atx: MarriageAtx) returns (malicious: bool, republish: bool)
      requires Distinct(atx.members)
      modifies `table, `mal
      ensures table == TableAfter(old(View()), atx) && mal == MalAfter(old(View()), atx)
      ensures malicious <==> NamesMalicious(old(mal), atx.members)
      ensures republish <==> Republish(old(View()), atx)
    {
      malicious, republish := false, false;
      if atx.members == [] {
        return;
      }
      ghost var t := table;
      var newId := NewMarriageId();
      var ids;
      ids, malicious := AddCertificates(atx, newId);
      var target := MergeIds(ids);
      RenamingMerges(t, atx, ids - {target});
      if malicious {
        republish := SpreadMalice(target);
      }
    }

    /** `processATX` as far as these tables go; an error rolls the transaction back. */
    method StoreAtx(atx: MarriageAtx, local: bool, rest: Rest) returns (r: StoreResult)
      requires Distinct(atx.members)
      modifies this
      ensures r == StoreResultOf(old(View()), atx, local, rest)
      ensures View() == Store(old(View()), atx, local, rest)
    {
      if atx.id in known {
        return Rejected;
      }
      var savedTable, savedMal := table, mal;
      var malicious, republish := StoreMarriages(atx);
      known := known + {atx.id};
      if malicious || republish {
        r := if local || rest.fails then Rejected else Stored(malicious, republish, None);
      } else {
        var double := CheckDoubleMarry(atx);
        if double.Some? {
          r := if local || rest.fails then Rejected else Stored(malicious, republish, double);
        } else if rest.fails || (local && rest.proofFor.Some?) {
          r := Rejected;
        } else {
          r := Stored(malicious, republish, rest.proofFor);
        }
      }
      if r.Rejected? {
        known, table, mal := known - {atx.id}, savedTable, savedMal;
      }
    }

    /** `processATX` from the certificates on: invalid certificates change nothing. */
    method ProcessAtx(id: ATXID, smesher: NodeID, certs: seq<Certificate>, owners: map<ATXID, NodeID>, local: bool,
        rest: Rest)
      returns (r: StoreResult)
      modifies this
      ensures !CertificatesValid(certs, smesher, owners) ==> r.Rejected? && View() == old(View())
      ensures CertificatesValid(certs, smesher, owners) ==>
        var atx := MarriageAtx(id, smesher, Signers(certs, smesher, owners));
        && r == StoreResultOf(old(View()), atx, local, rest)
        && View() == Store(old(View()), atx, local, rest)
    {
      if id in known {
        return Rejected;
      }
      var members := ValidateMarriages(certs, smesher, owners);
      if members.None? {
        return Rejected;
      }
      assert members.value == Signers(certs, smesher, owners);
      r := StoreAtx(MarriageAtx(id, smesher, members.value), local, rest);
    }

    method PublishProof(node: NodeID, refFound: bool)
      modifies `mal
      ensures View() == Publish(old(View()), node, refFound)
    {
      if node !in table {
        if node !in mal && refFound {
          mal := mal[node := MalRow(None, true)];
        }
        return;
      }
      var id := table[node].id;
      ghost var before := mal;
      var members := set n | n in table && table[n].id == id;
      if node !in mal {
        mal := mal[node := MalRow(Some(id), true)];
      }
      var left := members;
      while left != {}
        invariant left <= members
        invariant forall n :: n in mal <==> n in before || n == node || (n in members && n !in left)
        invariant forall n :: n in mal ==>
          mal[n] == if n in before then before[n] else MalRow(Some(id), n == node)
      {
        var n :| n in left;
        if n != node && n !in mal {
          mal := mal[n := MalRow(Some(id), false)];
        }
        left := left - {n};
      }
    }

    /** The end of `handleProof`: who a proof against `node` concerns. */
    method ReadClass(node: NodeID) returns (ids: seq<NodeID>)
      ensures IsRead(table, node, ids)
    {
      ids := [node];
      if node !in table {
        return;
      }
      var others := set n | n in table && table[n].id == table[node].id && n != node;
      var list := Enumerate(others);
      EnumerationMembers(list, others);
      EnumerationDistinct(list, others);
      ids := ids + list;
      EnumerationContains(list, others, node);
      assert node !in list;
      forall m
        ensures m in ids <==> m == node || m in Class(table, node)
      {
        EnumerationContains(list, others, m);
      }
    }

    /** `storeProof`. */
    method ReceiveProof(ids: seq<NodeID>)
      requires ids != []
      modifies `mal
      ensures View() == Receive(old(View()), ids)
    {
      if |ids| == 1 {
        mal := WithProof(mal, ids[0], None);
        return;
      }
      if ids[0] !in table {
        return;
      }
      var id := table[ids[0]].id;
      mal := WithProof(mal, ids[0], Some(id));
      ghost var before := mal;
      for i := 1 to |ids|
        invariant mal == MarkAll(before, MembersTo(ids, i), id)
      {
        var n := ids[i];
        MarkOneMore(before, ids, i, id);
        mal := mal[n := MalRow(Some(id), n in mal && mal[n].proof)];
      }
      assert ids[1..|ids|] == ids[1..];
    }
  }
}
