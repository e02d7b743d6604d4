/** The marriage and malfeasance tables, as three transactions change them: storing an ATX with
    marriage certificates, publishing a malfeasance proof, and storing a received one.

    Everything here is a function on table values; `MarriageStore` is the code that updates
    the tables step by step and is proved to compute these functions.  `MarriageRuns` states
    what holds in every state that a run of such transactions reaches. */
module Marriages {
  import opened Ids
  import opened Sorting

  /** A row of `marriages`; the key is the married node. */
  datatype Info = Info(id: nat, atx: ATXID, index: nat, target: NodeID)

  type Table = map<NodeID, Info>

  /** A row of `malfeasance`: the marriage ID column (may be NULL) and whether a proof is kept. */
  datatype MalRow = MalRow(marriage: Option<nat>, proof: bool)

  type Malfeasance = map<NodeID, MalRow>

  /** `known` is the set of stored ATXs. */
  datatype Db = Db(known: set<ATXID>, table: Table, mal: Malfeasance)

  /** An ATX with the IDs its marriage certificates name, in certificate order. */
  datatype MarriageAtx = MarriageAtx(id: ATXID, smesher: NodeID, members: seq<NodeID>)

  /** What the rest of the transaction does: it can fail on the database, and the checks for a
      double merge and for a wrong previous ATX can fail, or find a proof against a node. */
  datatype Rest = Rest(fails: bool, proofFor: Option<NodeID>)

  datatype StoreResult =
    | Rejected
    | Stored(malicious: bool, republish: bool, proofFor: Option<NodeID>)

  ghost predicate Distinct(s: seq<NodeID>) {
    forall i, j :: 0 <= i < j < |s| ==> s[i] != s[j]
  }

  ghost predicate Married(t: Table, n: NodeID, id: nat) {
    n in t && t[n].id == id
  }

  ghost predicate SameClass(t: Table, a: NodeID, b: NodeID) {
    a in t && b in t && t[a].id == t[b].id
  }

  ghost function IdsOf(t: Table): set<nat> {
    set n | n in t :: t[n].id
  }

  /** The ID a new marriage gets: one more than the largest in use, so 1 for an empty table. */
  ghost function NewId(t: Table): (r: nat)
    ensures r > 0
    ensures forall n :: n in t ==> t[n].id < r
  {
    if t == map[] then 1 else
      var n :| n in t;
      assert forall m :: m in t ==> t[m].id in IdsOf(t);
      Max(IdsOf(t)) + 1
  }

  /** One more than the largest ID in use, and 1 when there is none. */
  lemma NewIdIs(t: Table)
    ensures t == map[] ==> NewId(t) == 1
    ensures t != map[] ==> exists n :: n in t && NewId(t) == t[n].id + 1
  {
    if t != map[] {
      var n :| n in t;
      assert t[n].id in IdsOf(t);
      assert Max(IdsOf(t)) in IdsOf(t);
    }
  }

  /** The marriage IDs a new marriage ATX touches: the new ID, and the ID of every named node
      that is already married. */
  ghost function Touched(t: Table, members: seq<NodeID>): set<nat> {
    {NewId(t)} + set m | m in members && m in t :: t[m].id
  }

  /** The ID the touched classes end up with. */
  ghost function Target(t: Table, members: seq<NodeID>): nat {
    Min(Touched(t, members))
  }

  ghost function IndexOf(s: seq<NodeID>, n: NodeID): (i: nat)
    requires n in s
    ensures i < |s| && s[i] == n
  {
    var i: nat :| i < |s| && s[i] == n;
    i
  }

  /** The table after storing the marriages of `atx`: every touched class gets the target ID,
      and named nodes that were not married join it. */
  ghost function MergedTable(t: Table, atx: MarriageAtx): Table {
    var touched := Touched(t, atx.members);
    var target := Target(t, atx.members);
    map n | n in t.Keys + (set m | m in atx.members) ::
      if n in t then t[n].(id := if t[n].id in touched then target else t[n].id)
      else Info(target, atx.id, IndexOf(atx.members, n), atx.smesher)
  }

  ghost predicate NamesMalicious(mal: Malfeasance, members: seq<NodeID>) {
    exists m :: m in members && m in mal
  }

  /** `SetMalicious` keeps the proof of a row that is already there. */
  ghost function Marked(mal: Malfeasance, n: NodeID, id: nat): MalRow {
    MalRow(Some(id), n in mal && mal[n].proof)
  }

  ghost function MarkClass(t: Table, mal: Malfeasance, id: nat): Malfeasance {
    map n | n in mal.Keys + t.Keys && (n in mal || Married(t, n, id)) ::
      if Married(t, n, id) then Marked(mal, n, id) else mal[n]
  }

  ghost predicate AnyHonest(t: Table, mal: Malfeasance, id: nat) {
    exists n :: Married(t, n, id) && n !in mal
  }

  /** A named node that is still recorded with another marriage ATX. */
  ghost predicate MarriedElsewhere(t: Table, atx: MarriageAtx, m: NodeID) {
    m in atx.members && m in t && t[m].atx != atx.id
  }

  ghost function TableAfter(db: Db, atx: MarriageAtx): Table {
    if atx.members == [] then db.table else MergedTable(db.table, atx)
  }

  ghost function MalAfter(db: Db, atx: MarriageAtx): Malfeasance {
    if NamesMalicious(db.mal, atx.members) then
      MarkClass(TableAfter(db, atx), db.mal, Target(db.table, atx.members))
    else db.mal
  }

  ghost predicate Republish(db: Db, atx: MarriageAtx) {
    NamesMalicious(db.mal, atx.members) && AnyHonest(TableAfter(db, atx), db.mal, Target(db.table, atx.members))
  }

  /** The first named node, in certificate order, that is married through another ATX. */
  ghost function DoubleMarry(t: Table, atx: MarriageAtx, from: nat): (r: Option<NodeID>)
    requires from <= |atx.members|
    ensures r.Some? ==> MarriedElsewhere(t, atx, r.value)
    ensures r.None? ==> forall i :: from <= i < |atx.members| ==> !MarriedElsewhere(t, atx, atx.members[i])
    decreases |atx.members| - from
  {
    if from == |atx.members| then None
    else if MarriedElsewhere(t, atx, atx.members[from]) then Some(atx.members[from])
    else DoubleMarry(t, atx, from + 1)
  }

  /** What one `processATX`/`storeAtx` transaction answers: a stored ATX is not processed again,
      and one with two certificates for a node is not valid. */
  ghost function StoreResultOf(db: Db, atx: MarriageAtx, local: bool, rest: Rest): StoreResult {
    if atx.id in db.known || !Distinct(atx.members) then Rejected
    else
      ResultOf(local, rest, NamesMalicious(db.mal, atx.members), Republish(db, atx),
               DoubleMarry(TableAfter(db, atx), atx, 0))
  }

  /** What the transaction leaves behind: anything but `Stored` rolls back. */
  ghost function Store(db: Db, atx: MarriageAtx, local: bool, rest: Rest): Db {
    if StoreResultOf(db, atx, local, rest).Rejected? then db
    else Db(db.known + {atx.id}, TableAfter(db, atx), MalAfter(db, atx))
  }

  function ResultOf(local: bool, rest: Rest, malicious: bool, republish: bool, double: Option<NodeID>): StoreResult {
    if malicious || republish then
      (if local || rest.fails then Rejected else Stored(malicious, republish, None))
    else if double.Some? then
      (if local || rest.fails then Rejected else Stored(malicious, republish, double))
    else if rest.fails || (local && rest.proofFor.Some?) then Rejected
    else Stored(malicious, republish, rest.proofFor)
  }

  /** One `PublishATXProof` transaction for `node`.  For an unmarried node it needs a first ATX to
      refer to, unless none is required; without it the transaction is rolled back. */
  ghost function Publish(db: Db, node: NodeID, refFound: bool): Db {
    if node !in db.table then
      (if node in db.mal || !refFound then db else db.(mal := db.mal[node := MalRow(None, true)]))
    else
      var id := db.table[node].id;
      db.(mal := map n | n in db.mal.Keys + db.table.Keys && (n in db.mal || Married(db.table, n, id)) ::
        if n in db.mal then db.mal[n] else MalRow(Some(id), n == node))
  }

  /** `AddProof` leaves a row that is already there. */
  function WithProof(mal: Malfeasance, n: NodeID, marriage: Option<nat>): Malfeasance {
    if n in mal then mal else mal[n := MalRow(marriage, true)]
  }

  /** `SetMalicious` for several nodes. */
  ghost function MarkAll(mal: Malfeasance, nodes: set<NodeID>, id: nat): Malfeasance {
    map n | n in mal.Keys + nodes :: if n in nodes then Marked(mal, n, id) else mal[n]
  }

  ghost function Others(ids: seq<NodeID>): set<NodeID>
    requires ids != []
  {
    set n | n in ids[1..]
  }

  /** One `storeProof` transaction for a received proof; `ids` was read before it began, the node
      that the proof is against first.  A single ID is taken for an unmarried node. */
  ghost function Receive(db: Db, ids: seq<NodeID>): Db
    requires ids != []
  {
    if |ids| == 1 then db.(mal := WithProof(db.mal, ids[0], None))
    else if ids[0] !in db.table then db
    else
      var id := db.table[ids[0]].id;
      db.(mal := MarkAll(WithProof(db.mal, ids[0], Some(id)), Others(ids), id))
  }

  ghost function Class(t: Table, n: NodeID): set<NodeID> {
    set m | m in t && SameClass(t, n, m)
  }

  /** What `handleProof` reads: the node and then the other members of its class, if any. */
  ghost predicate IsRead(t: Table, n: NodeID, ids: seq<NodeID>) {
    && ids != [] && ids[0] == n && Distinct(ids)
    && forall m :: m in ids <==> m == n || m in Class(t, n)
  }
}
