/** Preserving the node's own ATXs across a checkpoint recovery: collecting an ATX with all it
    depends on, and the order in which the preserved ATXs are handed on. */
module Recovery {
  import opened Ids
  import opened Sorting

  const EMPTY: ATXID := 0

  /** What the stored blob refers to, by ATX version. */
  datatype Blob =
    | V1(positioning: ATXID, previous: ATXID)
    | V2(positioning: ATXID, previouses: seq<ATXID>, marriage: Option<ATXID>)
    | Unsupported

  /** A row of the ATX table; `hasProofs` says whether the PoET proofs it needs can be loaded. */
  datatype StoredAtx = StoredAtx(
    epoch: nat, golden: bool, commitment: Option<ATXID>, blob: Option<Blob>, hasProofs: bool)

  type Db = map<ATXID, StoredAtx>

  datatype Dep = Dep(id: ATXID, epoch: nat)

  /** Can be preserved: stored, not from an earlier snapshot, with a blob of a known version. */
  predicate Preservable(db: Db, id: ATXID) {
    id in db && !db[id].golden && db[id].blob.Some? && !db[id].blob.value.Unsupported?
  }

  /** The commitment, positioning, previous and marriage ATXs, in the order they are followed. */
  function Refs(db: Db, id: ATXID): seq<ATXID>
    requires Preservable(db, id)
  {
    (if db[id].commitment.Some? then [db[id].commitment.value] else []) +
    match db[id].blob.value {
      case V1(positioning, previous) => [positioning] + (if previous != EMPTY then [previous] else [])
      case V2(positioning, previouses, marriage) =>
        [positioning] + previouses + (if marriage.Some? then [marriage.value] else [])
      case Unsupported => assert false; []
    }
  }

  /** Stored with a blob of the first or second version, and not from an earlier snapshot. */
  ghost predicate KeptWhole(db: Db, id: ATXID) {
    id in db && db[id].golden == false && db[id].blob.Some? && (db[id].blob.value.V1? || db[id].blob.value.V2?)
  }

  lemma PreservableIs(db: Db, id: ATXID)
    ensures Preservable(db, id) <==> KeptWhole(db, id)
  {
  }

  /** What a preserved ATX refers to, field by field. */
  ghost predicate RefersTo(x: StoredAtx, ref: ATXID) {
    || x.commitment == Some(ref)
    || (x.blob.Some? && x.blob.value.V1? && x.blob.value.positioning == ref)
    || (x.blob.Some? && x.blob.value.V1? && x.blob.value.previous == ref && ref != EMPTY)
    || (x.blob.Some? && x.blob.value.V2? && x.blob.value.positioning == ref)
    || (x.blob.Some? && x.blob.value.V2? && ref in x.blob.value.previouses)
    || (x.blob.Some? && x.blob.value.V2? && x.blob.value.marriage == Some(ref))
  }

  lemma RefsAre(db: Db, id: ATXID, ref: ATXID)
    requires Preservable(db, id)
    ensures ref in Refs(db, id) <==> RefersTo(db[id], ref)
  {
  }

  /** References go to strictly earlier epochs. */
  ghost predicate RefsEarlier(db: Db) {
    forall id, ref :: Preservable(db, id) && ref in Refs(db, id) && ref in db ==> db[ref].epoch < db[id].epoch
  }

  ghost function Rank(db: Db, id: ATXID): nat {
    if id in db then db[id].epoch + 1 else 0
  }

  // ---- Reachability ----

  /** `path` follows references through ATXs outside `done`; all but the last can be preserved. */
  ghost predicate IsPath(db: Db, done: set<ATXID>, path: seq<ATXID>) {
    && path != []
    && (forall i :: 0 <= i < |path| ==> path[i] !in done)
    && (forall i :: 0 <= i < |path| - 1 ==> Preservable(db, path[i]) && path[i + 1] in Refs(db, path[i]))
  }

  ghost predicate Reaches(db: Db, done: set<ATXID>, from: ATXID, to: ATXID) {
    exists path :: IsPath(db, done, path) && path[0] == from && path[|path| - 1] == to
  }

  lemma ReachesSelf(db: Db, done: set<ATXID>, id: ATXID)
    requires id !in done
    ensures Reaches(db, done, id, id)
  {
    assert IsPath(db, done, [id]);
  }

  lemma ReachesVia(db: Db, done: set<ATXID>, more: set<ATXID>, id: ATXID, ref: ATXID, to: ATXID)
    requires Preservable(db, id) && ref in Refs(db, id) && id !in done && done <= more
    requires Reaches(db, more, ref, to)
    ensures Reaches(db, done, id, to)
  {
    var path :| IsPath(db, more, path) && path[0] == ref && path[|path| - 1] == to;
    var longer := [id] + path;
    forall i | 0 <= i < |longer| - 1
      ensures Preservable(db, longer[i]) && longer[i + 1] in Refs(db, longer[i])
    {
      if i > 0 {
        assert longer[i] == path[i - 1] && longer[i + 1] == path[i - 1 + 1];
      }
    }
    assert IsPath(db, done, longer);
  }

  /** New members of a set that contains the references of its new members contain everything
      they reach. */
  ghost predicate ClosedOver(db: Db, done: set<ATXID>, all: set<ATXID>) {
    forall x :: x in all && x !in done ==>
      Preservable(db, x) && forall ref :: ref in Refs(db, x) ==> ref in all
  }

  lemma {:induction false} ClosedContainsReached(db: Db, done: set<ATXID>, all: set<ATXID>, path: seq<ATXID>)
    requires ClosedOver(db, done, all) && IsPath(db, done, path) && path[0] in all
    ensures path[|path| - 1] in all && Preservable(db, path[|path| - 1])
    decreases |path|
  {
    if |path| > 1 {
      forall i | 0 <= i < |path[1..]| - 1
        ensures Preservable(db, path[1..][i]) && path[1..][i + 1] in Refs(db, path[1..][i])
      {
        assert path[1..][i] == path[i + 1] && path[1..][i + 1] == path[i + 1 + 1];
      }
      ClosedContainsReached(db, done, all, path[1..]);
    }
  }

  // ---- Collecting ----

  /** What a successful collection has added to `all` and `deps`. */
  ghost predicate Added(db: Db, all0: set<ATXID>, deps0: map<ATXID, Dep>, all: set<ATXID>, deps: map<ATXID, Dep>) {
    && all0 <= all
    && ClosedOver(db, all0, all)
    && deps.Keys == deps0.Keys + (all - all0)
    && (forall x :: x in deps ==> deps[x] == if x in all0 && x in deps0 then deps0[x] else Dep(x, Epoch(db, x)))
  }

  ghost function Epoch(db: Db, id: ATXID): nat {
    if id in db then db[id].epoch else 0
  }

  lemma AddedTransitive(db: Db, all0: set<ATXID>, deps0: map<ATXID, Dep>, all1: set<ATXID>, deps1: map<ATXID, Dep>,
                        all2: set<ATXID>, deps2: map<ATXID, Dep>)
    requires deps0.Keys <= all0
    requires Added(db, all0, deps0, all1, deps1) && Added(db, all1, deps1, all2, deps2)
    ensures Added(db, all0, deps0, all2, deps2) && all0 <= all1 <= all2
  {
  }

  lemma AddedNothing(db: Db, all: set<ATXID>, deps: map<ATXID, Dep>, ref: ATXID)
    requires deps.Keys <= all
    ensures Added(db, all, deps, all, deps) && AllReached(db, all, all, ref)
  {
  }

  lemma AddedSelf(db: Db, all0: set<ATXID>, deps0: map<ATXID, Dep>, all: set<ATXID>, deps: map<ATXID, Dep>, ref: ATXID)
    requires deps0.Keys <= all0 && ref !in all0
    requires Added(db, all0, deps0, all, deps)
    requires Preservable(db, ref) && forall r :: r in Refs(db, ref) ==> r in all
    requires AllReached(db, all0, all, ref)
    ensures Added(db, all0, deps0, all + {ref}, deps[ref := Dep(ref, db[ref].epoch)])
    ensures AllReached(db, all0, all + {ref}, ref)
  {
    hide Reaches, Refs;
    ReachesSelf(db, all0, ref);
  }

  /** Everything added is reached from `ref` by a path outside what was there before. */
  ghost predicate AllReached(db: Db, all0: set<ATXID>, all: set<ATXID>, ref: ATXID) {
    forall x :: x in all && x !in all0 ==> Reaches(db, all0, ref, x)
  }

  lemma ReachedVia(db: Db, all0: set<ATXID>, all1: set<ATXID>, all2: set<ATXID>, id: ATXID, ref: ATXID)
    requires Preservable(db, id) && ref in Refs(db, id) && id !in all0 && all0 <= all1
    requires AllReached(db, all0, all1, id) && AllReached(db, all1, all2, ref)
    ensures AllReached(db, all0, all2, id)
  {
    forall x | x in all2 && x !in all0
      ensures Reaches(db, all0, id, x)
    {
      if x !in all1 {
        ReachesVia(db, all0, all1, id, ref, x);
      }
    }
  }

  ghost predicate ReachesUnpreservable(db: Db, done: set<ATXID>, ref: ATXID) {
    exists x :: Reaches(db, done, ref, x) && !Preservable(db, x)
  }

  lemma SelfObstacle(db: Db, done: set<ATXID>, ref: ATXID)
    requires ref !in done && !Preservable(db, ref)
    ensures ReachesUnpreservable(db, done, ref)
  {
    ReachesSelf(db, done, ref);
  }

  lemma AddedGrows(db: Db, all0: set<ATXID>, deps0: map<ATXID, Dep>, all: set<ATXID>, deps: map<ATXID, Dep>)
    requires Added(db, all0, deps0, all, deps)
    ensures all0 <= all
  {
  }

  lemma NoObstacle(db: Db, done: set<ATXID>, all: set<ATXID>, ref: ATXID)
    requires ClosedOver(db, done, all) && ref in all
    ensures !ReachesUnpreservable(db, done, ref)
  {
    forall x | Reaches(db, done, ref, x)
      ensures Preservable(db, x)
    {
      var path :| IsPath(db, done, path) && path[0] == ref && path[|path| - 1] == x;
      ClosedContainsReached(db, done, all, path);
    }
  }

  ghost predicate ReachesUnproven(db: Db, done: set<ATXID>, ref: ATXID) {
    exists x :: Reaches(db, done, ref, x) && x in db && !db[x].hasProofs
  }

  lemma {:induction false} ObstacleVia(db: Db, done: set<ATXID>, more: set<ATXID>, id: ATXID, ref: ATXID)
    requires Preservable(db, id) && ref in Refs(db, id) && id !in done && done <= more
    requires ReachesUnpreservable(db, more, ref)
    ensures ReachesUnpreservable(db, done, id)
  {
    var x :| Reaches(db, more, ref, x) && !Preservable(db, x);
    ReachesVia(db, done, more, id, ref, x);
  }

  /** `all` and `deps` as `collect` shares them between calls: what need not be collected (any
      more), and the collected ATXs. */
  class Collector {
    const db: Db
    var all: set<ATXID>
    var deps: map<ATXID, Dep>

    constructor (db: Db, all: set<ATXID>)
      ensures this.db == db && this.all == all && deps == map[]
    {
      this.db, this.all, this.deps := db, all, map[];
    }

    /** Collects `ref` and all it depends on, depth first; fails at the first ATX that cannot be
        preserved. */
    method Collect(ref: ATXID) returns (ok: bool)
      requires RefsEarlier(db) && deps.Keys <= all
      modifies this
      ensures ok ==> Added(db, old(all), old(deps), all, deps) && deps.Keys <= all && ref in all
      ensures ok ==> AllReached(db, old(all), all, ref)
      ensures !ok ==> ReachesUnpreservable(db, old(all), ref)
      decreases Rank(db, ref)
    {
      hide Added, AllReached, ReachesUnpreservable, Refs;
      AddedNothing(db, all, deps, ref);
      if ref in all {
        return true;
      }
      if ref !in db || db[ref].golden || db[ref].blob.None? || db[ref].blob.value.Unsupported? {
        SelfObstacle(db, all, ref);
        return false;
      }
      var refs := Refs(db, ref);
      for i := 0 to |refs|
        invariant Added(db, old(all), old(deps), all, deps) && deps.Keys <= all
        invariant forall j :: 0 <= j < i ==> refs[j] in all
        invariant AllReached(db, old(all), all, ref)
      {
        assert refs[i] in refs;
        ghost var all1, deps1 := all, deps;
        AddedGrows(db, old(all), old(deps), all1, deps1);
        ok := Collect(refs[i]);
        if !ok {
          ObstacleVia(db, old(all), all1, ref, refs[i]);
          return;
        }
        AddedTransitive(db, old(all), old(deps), all1, deps1, all, deps);
        ReachedVia(db, old(all), all1, all, ref, refs[i]);
      }
      AddedSelf(db, old(all), old(deps), all, deps, ref);
      deps := deps[ref := Dep(ref, db[ref].epoch)];
      all := all + {ref};
      ok := true;
    }
  }

  /** A successful collection adds exactly what `ref` reaches outside of what was there. */
  lemma CollectedIsReached(db: Db, all0: set<ATXID>, all: set<ATXID>, ref: ATXID, x: ATXID)
    requires ClosedOver(db, all0, all) && AllReached(db, all0, all, ref) && ref in all
    ensures x in all && x !in all0 <==> Reaches(db, all0, ref, x)
  {
    if Reaches(db, all0, ref, x) {
      var path :| IsPath(db, all0, path) && path[0] == ref && path[|path| - 1] == x;
      ClosedContainsReached(db, all0, all, path);
    }
  }

  /** `ref` depends on something that cannot be preserved or whose proofs are missing. */
  ghost predicate Obstructed(db: Db, done: set<ATXID>, ref: ATXID) {
    ReachesUnpreservable(db, done, ref) || ReachesUnproven(db, done, ref)
  }

  /** An obstacle is an ATX that is missing, golden, without a known blob or without proofs. */
  lemma ObstructedIs(db: Db, done: set<ATXID>, ref: ATXID)
    ensures Obstructed(db, done, ref) <==>
      exists x :: Reaches(db, done, ref, x) && (!KeptWhole(db, x) || db[x].hasProofs == false)
  {
    hide Reaches;
  }

  lemma ReachesLess(db: Db, done: set<ATXID>, more: set<ATXID>, from: ATXID, to: ATXID)
    requires done <= more && Reaches(db, more, from, to)
    ensures Reaches(db, done, from, to)
  {
  }

  lemma ObstructedLess(db: Db, done: set<ATXID>, more: set<ATXID>, ref: ATXID)
    requires done <= more && Obstructed(db, more, ref)
    ensures Obstructed(db, done, ref)
  {
  }

  /** What is reached outside `base` was collected before or is reached outside of that. */
  lemma {:induction false} ReachedOutside(db: Db, base: set<ATXID>, all: set<ATXID>, path: seq<ATXID>)
    requires ClosedOver(db, base, all) && IsPath(db, base, path) && base <= all
    ensures path[|path| - 1] in all || IsPath(db, all, path)
  {
    if path[0] in all {
      ClosedContainsReached(db, base, all, path);
    } else if |path| > 1 {
      hide Refs, ClosedOver;
      PathTail(db, base, path);
      ReachedOutside(db, base, all, path[1..]);
      if IsPath(db, all, path[1..]) {
        PathCons(db, base, all, path);
      }
    }
  }

  lemma PathTail(db: Db, done: set<ATXID>, path: seq<ATXID>)
    requires IsPath(db, done, path) && |path| > 1
    ensures IsPath(db, done, path[1..]) && path[1..][|path| - 2] == path[|path| - 1]
  {
    hide Refs;
  }

  lemma PathCons(db: Db, base: set<ATXID>, all: set<ATXID>, path: seq<ATXID>)
    requires IsPath(db, base, path) && |path| > 1 && path[0] !in all && IsPath(db, all, path[1..])
    ensures IsPath(db, all, path)
  {
    hide Refs;
    forall i | 0 <= i < |path|
      ensures path[i] !in all
    {
      if i > 0 {
        assert path[i] == path[1..][i - 1];
      }
    }
  }

  lemma {:induction false} ReachesOutside(db: Db, base: set<ATXID>, all: set<ATXID>, ref: ATXID, x: ATXID)
    requires ClosedOver(db, base, all) && base <= all && Reaches(db, base, ref, x)
    ensures x in all || Reaches(db, all, ref, x)
  {
    var path :| IsPath(db, base, path) && path[0] == ref && path[|path| - 1] == x;
    ReachedOutside(db, base, all, path);
  }

  /** An obstacle outside `base` is still one after collecting something that has none. */
  lemma {:induction false} ObstructedStill(db: Db, base: set<ATXID>, all: set<ATXID>, root: ATXID, ref: ATXID)
    requires ClosedOver(db, base, all) && base <= all && AllReached(db, base, all, root)
    requires !Obstructed(db, base, root) && Obstructed(db, base, ref)
    ensures Obstructed(db, all, ref)
  {
    hide ClosedOver, Reaches;
    var x :| Reaches(db, base, ref, x) && (!Preservable(db, x) || (x in db && !db[x].hasProofs));
    ReachesOutside(db, base, all, ref, x);
    ReachedNotBase(db, base, ref, x);
  }

  lemma ReachedNotBase(db: Db, base: set<ATXID>, ref: ATXID, x: ATXID)
    requires Reaches(db, base, ref, x)
    ensures x !in base && ref !in base
  {
  }

  // ---- One identity ----

  /** The challenge an identity is building on, if any. */
  datatype Challenge = Challenge(commitment: Option<ATXID>, positioning: ATXID)

  /** An identity's last ATX (`EMPTY` if it has none) and its challenge. */
  datatype Identity = Identity(last: ATXID, challenge: Option<Challenge>)

  datatype OwnResult = Preserved(deps: map<ATXID, Dep>) | Failed | Crashed

  /** The ATX to preserve: the last one, or the commitment of a first one still being built. */
  function Root(who: Identity): ATXID {
    if who.last == EMPTY && who.challenge.Some? && who.challenge.value.commitment.Some?
    then who.challenge.value.commitment.value
    else who.last
  }

  /** Preserved ATXs, and what they refer to, are complete: each reference is in the checkpoint
      (or golden or empty) or is preserved too. */
  ghost predicate Complete(db: Db, base: set<ATXID>, deps: map<ATXID, Dep>) {
    forall x :: x in deps ==>
      && Preservable(db, x) && deps[x] == Dep(x, db[x].epoch)
      && forall ref :: ref in Refs(db, x) ==> ref in base || ref in deps
  }

  ghost predicate Has(base: set<ATXID>, deps: map<ATXID, Dep>, id: ATXID) {
    id in base || id in deps
  }

  method PoetProofs(db: Db, deps: map<ATXID, Dep>) returns (ok: bool)
    ensures ok <==> forall x :: x in deps ==> x in db && db[x].hasProofs
  {
    var left := deps.Keys;
    while left != {}
      invariant left <= deps.Keys
      invariant forall x :: x in deps && x !in left ==> x in db && db[x].hasProofs
    {
      var x :| x in left;
      if x !in db || !db[x].hasProofs {
        return false;
      }
      left := left - {x};
    }
    return true;
  }

  /** `collectDeps`: a fresh set of dependencies, sharing `all` with earlier calls. */
  method CollectDeps(c: Collector, ref: ATXID) returns (deps: Option<map<ATXID, Dep>>)
    requires RefsEarlier(c.db)
    modifies c
    ensures deps.Some? ==> Added(c.db, old(c.all), map[], c.all, deps.value) && ref in c.all
    ensures deps.Some? ==> AllReached(c.db, old(c.all), c.all, ref)
    ensures deps.None? <==> Obstructed(c.db, old(c.all), ref)
  {
    ghost var all0 := c.all;
    c.deps := map[];
    var ok := c.Collect(ref);
    if !ok {
      return None;
    }
    NoObstacle(c.db, all0, c.all, ref);
    forall x { CollectedIsReached(c.db, all0, c.all, ref, x); }
    var proofs := PoetProofs(c.db, c.deps);
    return if proofs then Some(c.deps) else None;
  }

  lemma AddedIsComplete(db: Db, base: set<ATXID>, all1: set<ATXID>, deps1: map<ATXID, Dep>, all2: set<ATXID>,
      deps2: map<ATXID, Dep>)
    requires Added(db, base, map[], all1, deps1) && Added(db, all1, map[], all2, deps2)
    ensures Complete(db, base, deps1 + deps2)
    ensures (deps1 + deps2).Keys == all2 - base
  {
  }

  /** What an identity needs preserved: its root, and what its challenge builds on. */
  ghost predicate Needs(who: Identity, id: ATXID) {
    id == Root(who) || (who.challenge.Some? && id == who.challenge.value.positioning)
  }

  /** An identity needs its last ATX, or, if it has none, the commitment of the one it is building;
      and the positioning ATX of what it is building. */
  lemma NeedsIs(who: Identity, id: ATXID)
    ensures Needs(who, id) <==>
      || (who.last != EMPTY && id == who.last)
      || (who.last == EMPTY && who.challenge.Some? && who.challenge.value.commitment == Some(id))
      || (who.last == EMPTY && (who.challenge.None? || who.challenge.value.commitment.None?) && id == EMPTY)
      || (who.challenge.Some? && who.challenge.value.positioning == id)
  {
  }

  ghost predicate ReachedBy(db: Db, base: set<ATXID>, who: Identity, x: ATXID) {
    exists id :: Needs(who, id) && Reaches(db, base, id, x)
  }

  ghost predicate ObstructedFor(db: Db, base: set<ATXID>, who: Identity) {
    exists id :: Needs(who, id) && Obstructed(db, base, id)
  }

  lemma BothReached(db: Db, who: Identity, base: set<ATXID>, all1: set<ATXID>, all2: set<ATXID>)
    requires base <= all1 && who.challenge.Some?
    requires AllReached(db, base, all1, Root(who)) && AllReached(db, all1, all2, who.challenge.value.positioning)
    ensures forall x :: x in all2 && x !in base ==> ReachedBy(db, base, who, x)
  {
    forall x | x in all2 && x !in base
      ensures ReachedBy(db, base, who, x)
    {
      if x in all1 {
        assert Needs(who, Root(who)) && Reaches(db, base, Root(who), x);
      } else {
        ReachesLess(db, base, all1, who.challenge.value.positioning, x);
        assert Needs(who, who.challenge.value.positioning);
      }
    }
  }

  /** The preserved ATXs are exactly those that the identity's needs reach. */
  ghost predicate ExactlyReached(db: Db, base: set<ATXID>, who: Identity, deps: map<ATXID, Dep>) {
    forall x :: x in deps <==> ReachedBy(db, base, who, x)
  }

  lemma CompleteIsClosed(db: Db, base: set<ATXID>, deps: map<ATXID, Dep>)
    requires Complete(db, base, deps)
    ensures ClosedOver(db, base, base + deps.Keys)
  {
  }

  lemma {:induction false} CompleteIsExact(db: Db, base: set<ATXID>, who: Identity, deps: map<ATXID, Dep>)
    requires Complete(db, base, deps) && forall id :: Needs(who, id) ==> Has(base, deps, id)
    requires forall x :: x in deps ==> ReachedBy(db, base, who, x)
    ensures ExactlyReached(db, base, who, deps)
  {
    CompleteIsClosed(db, base, deps);
    hide Needs, Complete, ClosedOver, Refs;
    forall x | ReachedBy(db, base, who, x)
      ensures x in deps
    {
      var id :| Needs(who, id) && Reaches(db, base, id, x);
      var path :| IsPath(db, base, path) && path[0] == id && path[|path| - 1] == x;
      ClosedContainsReached(db, base, base + deps.Keys, path);
    }
  }

  /** `collectOwnAtxDeps`.  The first map of dependencies does not exist unless there is an ATX to
      preserve; copying anything into it then crashes. */
  method CollectOwn(db: Db, who: Identity, base: set<ATXID>) returns (r: OwnResult)
    requires RefsEarlier(db) && EMPTY in base
    ensures r.Preserved? ==> Complete(db, base, r.deps)
    ensures r.Preserved? ==> forall id :: Needs(who, id) ==> Has(base, r.deps, id)
    ensures r.Preserved? ==> ExactlyReached(db, base, who, r.deps)
    ensures r.Failed? <==> ObstructedFor(db, base, who)
    ensures r.Crashed? <==> Crashes(db, base, who)
  {
    hide Refs, Reaches, ClosedOver, AllReached, Obstructed;
    var c := new Collector(db, base);
    var ref := Root(who);
    var deps: Option<map<ATXID, Dep>> := None;
    AddedNothing(db, base, map[], ref);
    EmptyUnobstructed(db, base);
    if ref != EMPTY {
      deps := CollectDeps(c, ref);
      if deps.None? {
        assert Needs(who, ref);
        return Failed;
      }
    }
    var deps1 := if deps.Some? then deps.value else map[];
    r := CollectPending(c, who, base, deps1, deps.Some?);
  }

  lemma EmptyUnobstructed(db: Db, base: set<ATXID>)
    requires EMPTY in base
    ensures !Obstructed(db, base, EMPTY)
  {
  }

  /** The second half: the positioning ATX of a pending challenge. */
  method CollectPending(c: Collector, who: Identity, ghost base: set<ATXID>, deps1: map<ATXID, Dep>, exists1: bool)
    returns (r: OwnResult)
    requires RefsEarlier(c.db) && EMPTY in base
    requires Added(c.db, base, map[], c.all, deps1) && AllReached(c.db, base, c.all, Root(who)) && Root(who) in c.all
    requires !Obstructed(c.db, base, Root(who))
    requires exists1 <==> Root(who) != EMPTY
    requires !exists1 ==> c.all == base
    modifies c
    ensures r.Preserved? ==> Complete(c.db, base, r.deps)
    ensures r.Preserved? ==> forall id :: Needs(who, id) ==> Has(base, r.deps, id)
    ensures r.Preserved? ==> ExactlyReached(c.db, base, who, r.deps)
    ensures r.Failed? <==> ObstructedFor(c.db, base, who)
    ensures r.Crashed? <==> Crashes(c.db, base, who)
  {
    hide Refs, Reaches, ClosedOver, AllReached, Obstructed, ReachedBy, ExactlyReached, Complete;
    ghost var all1 := c.all;
    if who.challenge.None? {
      AddedNothing(c.db, all1, map[], Root(who));
      AddedIsComplete(c.db, base, all1, deps1, all1, map[]);
      assert deps1 + map[] == deps1;
      RootReached(c.db, who, base, all1);
      CompleteIsExact(c.db, base, who, deps1);
      return Preserved(deps1);
    }
    var positioning := who.challenge.value.positioning;
    assert Needs(who, positioning);
    var more := CollectDeps(c, positioning);
    if more.None? {
      ObstructedLess(c.db, base, all1, positioning);
      return Failed;
    }
    if Obstructed(c.db, base, positioning) {
      ObstructedStill(c.db, base, all1, Root(who), positioning);
    }
    AddedIsComplete(c.db, base, all1, deps1, c.all, more.value);
    if !exists1 && more.value != map[] {
      ghost var x :| x in more.value;
      BaseHasNoPaths(c.db, base, c.all, positioning, x);
      return Crashed;
    }
    BothReached(c.db, who, base, all1, c.all);
    CompleteIsExact(c.db, base, who, deps1 + more.value);
    return Preserved(deps1 + more.value);
  }

  lemma RootReached(db: Db, who: Identity, base: set<ATXID>, all: set<ATXID>)
    requires AllReached(db, base, all, Root(who))
    ensures forall x :: x in all && x !in base ==> ReachedBy(db, base, who, x)
  {
  }

  lemma BaseHasNoPaths(db: Db, base: set<ATXID>, all: set<ATXID>, ref: ATXID, x: ATXID)
    requires AllReached(db, base, all, ref) && x in all && x !in base
    ensures ref !in base
  {
  }

  /** There is nothing to preserve but the challenge's positioning ATX, which is new. */
  predicate CrashesOn(who: Identity, base: set<ATXID>) {
    && Root(who) == EMPTY
    && who.challenge.Some?
    && who.challenge.value.positioning !in base
  }

  /** The copy into the missing map is reached only when collecting succeeds. */
  ghost predicate Crashes(db: Db, base: set<ATXID>, who: Identity) {
    CrashesOn(who, base) && !ObstructedFor(db, base, who)
  }

  /** A first ATX being built on a positioning ATX that the checkpoint lacks. */
  lemma CrashExample() returns (db: Db, base: set<ATXID>, who: Identity)
    ensures RefsEarlier(db) && EMPTY in base && Crashes(db, base, who)
  {
    db := map[5 := StoredAtx(1, false, None, Some(V1(1, EMPTY)), true)];
    base := {EMPTY, 1};
    who := Identity(EMPTY, Some(Challenge(None, 5)));
    assert Refs(db, 5) == [1];
    var all := base + {5};
    assert ClosedOver(db, base, all);
    forall id, x | Needs(who, id) && Reaches(db, base, id, x)
      ensures x == 5
    {
      var path :| IsPath(db, base, path) && path[0] == id && path[|path| - 1] == x;
      ClosedContainsReached(db, base, all, path);
    }
  }

  // ---- All identities, in order ----

  function IdKey(d: Dep): int {
    d.id
  }

  function EpochKey(d: Dep): int {
    d.epoch
  }

  /** Dependencies collected for several identities stay complete together. */
  lemma CompleteUnion(db: Db, base: set<ATXID>, a: map<ATXID, Dep>, b: map<ATXID, Dep>)
    requires Complete(db, base, a) && Complete(db, base, b)
    ensures Complete(db, base, a + b)
  {
  }

  /** Everything an identity needs is there, unless something it needs is obstructed. */
  ghost predicate Served(db: Db, base: set<ATXID>, who: Identity, deps: map<ATXID, Dep>) {
    ObstructedFor(db, base, who) || forall id :: Needs(who, id) ==> Has(base, deps, id)
  }

  /** Reached by an identity that can be preserved. */
  ghost predicate Wanted(db: Db, base: set<ATXID>, identities: seq<Identity>, x: ATXID) {
    exists i :: 0 <= i < |identities| && WantedBy(db, base, identities[i], x)
  }

  ghost predicate WantedBy(db: Db, base: set<ATXID>, who: Identity, x: ATXID) {
    !ObstructedFor(db, base, who) && ReachedBy(db, base, who, x)
  }

  ghost predicate ExactlyWanted(db: Db, base: set<ATXID>, identities: seq<Identity>, deps: map<ATXID, Dep>) {
    forall x :: x in deps <==> Wanted(db, base, identities, x)
  }

  lemma WantedMore(db: Db, base: set<ATXID>, identities: seq<Identity>, i: nat, x: ATXID)
    requires i < |identities|
    ensures Wanted(db, base, identities[..i + 1], x) <==>
      Wanted(db, base, identities[..i], x) || WantedBy(db, base, identities[i], x)
  {
    hide WantedBy;
    var now, next := identities[..i], identities[..i + 1];
    if Wanted(db, base, now, x) {
      var k :| 0 <= k < |now| && WantedBy(db, base, now[k], x);
      assert next[k] == now[k];
    }
    assert next[i] == identities[i];
    assert forall k :: 0 <= k < i ==> next[k] == now[k];
  }

  /** The collected ATXs are exactly those that identities which can be preserved reach; they are
      complete and enough for each of these.  There is a crash exactly when some identity's
      collection crashes. */
  method CollectAll(db: Db, identities: seq<Identity>, base: set<ATXID>) returns (deps: Option<map<ATXID, Dep>>)
    requires RefsEarlier(db) && EMPTY in base
    ensures deps.Some? ==> Complete(db, base, deps.value) && ExactlyWanted(db, base, identities, deps.value)
    ensures deps.Some? ==> forall i :: 0 <= i < |identities| ==> Served(db, base, identities[i], deps.value)
    ensures deps.None? <==> exists i :: 0 <= i < |identities| && Crashes(db, base, identities[i])
  {
    hide ReachedBy, ObstructedFor, Needs, Crashes, Complete, Wanted;
    var all := map[];
    NothingComplete(db, base);
    NothingWanted(db, base);
    assert identities[..0] == [];
    for i := 0 to |identities|
      invariant Complete(db, base, all) && ExactlyWanted(db, base, identities[..i], all)
      invariant forall j :: 0 <= j < i ==> Served(db, base, identities[j], all)
      invariant forall j :: 0 <= j < i ==> !Crashes(db, base, identities[j])
    {
      forall x { WantedMore(db, base, identities, i, x); }
      var r := CollectOwn(db, identities[i], base);
      match r {
        case Failed =>
        case Crashed => return None;
        case Preserved(own) =>
          CompleteUnion(db, base, all, own);
          all := all + own;
      }
    }
    assert identities[..|identities|] == identities;
    return Some(all);
  }

  lemma NothingWanted(db: Db, base: set<ATXID>)
    ensures ExactlyWanted(db, base, [], map[])
  {
  }

  lemma NothingComplete(db: Db, base: set<ATXID>)
    ensures Complete(db, base, map[])
  {
  }

  ghost predicate Lists(list: seq<Dep>, deps: map<ATXID, Dep>) {
    Enumerates(list, set x | x in deps :: deps[x])
  }

  /** Strictly by (epoch, ID). */
  ghost predicate InEpochOrder(list: seq<Dep>) {
    forall i, j :: 0 <= i < j < |list| ==>
      list[i].epoch < list[j].epoch || (list[i].epoch == list[j].epoch && list[i].id < list[j].id)
  }

  ghost predicate KeyedById(deps: map<ATXID, Dep>) {
    forall x :: x in deps ==> deps[x].id == x
  }

  lemma ListedMembers(list: seq<Dep>, deps: map<ATXID, Dep>, d: Dep)
    requires Lists(list, deps) && KeyedById(deps)
    ensures d in list <==> d.id in deps && deps[d.id] == d
  {
    EnumerationContains(list, (set x | x in deps :: deps[x]), d);
  }

  /** Sorts by ID and then, stably, by publish epoch. */
  method SortDeps(deps: map<ATXID, Dep>) returns (list: seq<Dep>)
    requires KeyedById(deps)
    ensures Lists(list, deps) && InEpochOrder(list)
    ensures exists byId :: Lists(byId, deps) && SortedBy(byId, IdKey) && StablySorted(byId, list, EpochKey)
  {
    var values := Enumerate(set x | x in deps :: deps[x]);
    var byId := Sort(values, IdKey);
    list := StableSort(byId, EpochKey);
    OrderedByEpochThenId(byId, list, deps);
    assert Lists(byId, deps);
  }

  lemma OrderedByEpochThenId(byId: seq<Dep>, list: seq<Dep>, deps: map<ATXID, Dep>)
    requires KeyedById(deps) && Lists(byId, deps) && SortedBy(byId, IdKey) && StablySorted(byId, list, EpochKey)
    ensures Lists(list, deps) && InEpochOrder(list)
  {
    StableAfterSort(byId, list, IdKey, EpochKey);
    EnumerationDistinct(list, set x | x in deps :: deps[x]);
    forall i, j | 0 <= i < j < |list|
      ensures list[i].epoch < list[j].epoch || (list[i].epoch == list[j].epoch && list[i].id < list[j].id)
    {
      assert EpochKey(list[i]) <= EpochKey(list[j]);
      ListedMembers(list, deps, list[i]);
      ListedMembers(list, deps, list[j]);
      if list[i].epoch == list[j].epoch {
        assert IdKey(list[i]) <= IdKey(list[j]);
      }
    }
  }

  /** Whatever order the map is enumerated in, the result is the same list. */
  lemma OrderIsDeterministic(deps: map<ATXID, Dep>, byId1: seq<Dep>, list1: seq<Dep>, byId2: seq<Dep>, list2: seq<Dep>)
    requires KeyedById(deps)
    requires Lists(byId1, deps) && SortedBy(byId1, IdKey) && StablySorted(byId1, list1, EpochKey)
    requires Lists(byId2, deps) && SortedBy(byId2, IdKey) && StablySorted(byId2, list2, EpochKey)
    ensures list1 == list2
  {
    forall x, y | x in byId1 && y in byId1 && IdKey(x) == IdKey(y)
      ensures x == y
    {
      ListedMembers(byId1, deps, x);
      ListedMembers(byId1, deps, y);
    }
    SortedIsUnique(byId1, byId2, IdKey);
    StableIsUnique(list1, list2, EpochKey);
  }

  /** In the result every ATX comes after all preserved ATXs it refers to, and whatever else it
      refers to is golden, empty or in the checkpoint. */
  lemma {:induction false} DependenciesComeFirst(db: Db, base: set<ATXID>, deps: map<ATXID, Dep>, list: seq<Dep>,
      i: nat, ref: ATXID)
    requires RefsEarlier(db) && Complete(db, base, deps) && Lists(list, deps) && InEpochOrder(list)
    requires i < |list| && list[i].id in db && RefersTo(db[list[i].id], ref)
    ensures ref in base || exists j :: 0 <= j < i && list[j].id == ref
  {
    hide Lists, RefersTo, Refs, InEpochOrder;
    var id := list[i].id;
    assert list[i] in list;
    CompleteKeyed(db, base, deps);
    ListedMembers(list, deps, list[i]);
    RefsAre(db, id, ref);
    if ref !in base {
      EarlierDep(db, base, deps, id, ref);
      ListedMembers(list, deps, deps[ref]);
      var j :| 0 <= j < |list| && list[j] == deps[ref];
      ComesBefore(list, i, j);
    }
  }

  lemma CompleteKeyed(db: Db, base: set<ATXID>, deps: map<ATXID, Dep>)
    requires Complete(db, base, deps)
    ensures KeyedById(deps)
  {
  }

  lemma EarlierDep(db: Db, base: set<ATXID>, deps: map<ATXID, Dep>, id: ATXID, ref: ATXID)
    requires RefsEarlier(db) && Complete(db, base, deps) && id in deps && Preservable(db, id)
    requires ref in Refs(db, id) && ref !in base
    ensures ref in deps && deps[ref].id == ref && deps[ref].epoch < deps[id].epoch
  {
    hide Refs;
  }

  lemma ComesBefore(list: seq<Dep>, i: nat, j: nat)
    requires InEpochOrder(list) && i < |list| && j < |list| && list[j].epoch < list[i].epoch
    ensures j < i
  {
  }

  ghost predicate Contains(list: seq<Dep>, id: ATXID) {
    exists j :: 0 <= j < |list| && list[j].id == id
  }

  /** What a preserved list promises: an order by (epoch, ID) in which every ATX follows what it
      refers to, complete, sufficient for every identity that is not obstructed, and holding
      exactly what such identities reach. */
  ghost predicate GoodList(db: Db, identities: seq<Identity>, base: set<ATXID>, list: seq<Dep>) {
    && InEpochOrder(list)
    && (forall i :: 0 <= i < |list| ==>
          && KeptWhole(db, list[i].id) && list[i].epoch == db[list[i].id].epoch
          && forall ref :: RefersTo(db[list[i].id], ref) ==> ref in base || Contains(list[..i], ref))
    && (forall x :: Contains(list, x) <==> Wanted(db, base, identities, x))
    && (forall k, id :: 0 <= k < |identities| && Needs(identities[k], id) ==>
          ObstructedFor(db, base, identities[k]) || id in base || Contains(list, id))
  }

  lemma SortedIsGood(db: Db, identities: seq<Identity>, base: set<ATXID>, deps: map<ATXID, Dep>, list: seq<Dep>)
    requires RefsEarlier(db) && Complete(db, base, deps) && Lists(list, deps) && InEpochOrder(list)
    requires forall i :: 0 <= i < |identities| ==> Served(db, base, identities[i], deps)
    requires ExactlyWanted(db, base, identities, deps)
    ensures GoodList(db, identities, base, list)
  {
    hide Refs, RefersTo, Wanted, ObstructedFor, Needs;
    forall i | 0 <= i < |list|
      ensures Preservable(db, list[i].id) && list[i].id in deps
      ensures list[i].epoch == db[list[i].id].epoch
      ensures forall ref :: RefersTo(db[list[i].id], ref) ==> ref in base || Contains(list[..i], ref)
    {
      assert list[i] in list;
      ListedMembers(list, deps, list[i]);
      forall ref | RefersTo(db[list[i].id], ref)
        ensures ref in base || Contains(list[..i], ref)
      {
        DependenciesComeFirst(db, base, deps, list, i, ref);
        if ref !in base {
          var j :| 0 <= j < i && list[j].id == ref;
          assert list[..i][j].id == ref;
        }
      }
    }
    forall x
      ensures Contains(list, x) <==> x in deps
    {
      if x in deps {
        ListedMembers(list, deps, deps[x]);
      }
    }
    forall k, id | 0 <= k < |identities| && Needs(identities[k], id)
      ensures ObstructedFor(db, base, identities[k]) || id in base || Contains(list, id)
    {
      assert Served(db, base, identities[k], deps);
      if id in deps {
        ListedMembers(list, deps, deps[id]);
      }
    }
  }

  /** The recovery as far as own ATXs go: what is preserved, in the order it is handed on. */
  method Preserve(db: Db, identities: seq<Identity>, base: set<ATXID>) returns (r: Option<seq<Dep>>)
    requires RefsEarlier(db) && EMPTY in base
    ensures r.Some? ==> GoodList(db, identities, base, r.value)
    ensures r.None? <==> exists i :: 0 <= i < |identities| && Crashes(db, base, identities[i])
  {
    var deps := CollectAll(db, identities, base);
    if deps.None? {
      return None;
    }
    var list := SortDeps(deps.value);
    SortedIsGood(db, identities, base, deps.value, list);
    return Some(list);
  }
}
