/** Verification of ATX chains: the memoised recursive check against the plain definition of
    chain validity, and the admission rules that make the recursion end. */
module ChainVerification {
  import opened Ids

  /** What an ATX depends on (`getAtxDeps`). */
  datatype Deps = Deps(previous: seq<ATXID>, positioning: ATXID, commitment: ATXID)

  /** A stored ATX.  `posts` is the verdict of full PoST verification on each of its NIPoSTs;
      `deps` is absent when its blob or its commitment cannot be loaded. */
  datatype Atx = Atx(
    epoch: nat, smesher: NodeID, golden: bool, received: int, posts: seq<bool>, deps: Option<Deps>)

  type Db = map<ATXID, Atx>

  datatype Options = Options(golden: ATXID, assumedValidBefore: int, trusted: NodeID)

  /** `Failed` is any error that is not an `InvalidChainError`, such as a missing ATX. */
  datatype Verdict = Valid | InvalidChain | Failed

  /** An ATX that needs no verification. */
  predicate Exempt(a: Atx, o: Options) {
    a.golden || a.received < o.assumedValidBefore || a.smesher == o.trusted
  }

  /** The ATXs a chain check follows, in order: every previous ATX, the positioning ATX, and the
      commitment ATX of a first ATX. */
  function Followed(d: Deps, o: Options): seq<ATXID> {
    d.previous
    + (if d.positioning != o.golden then [d.positioning] else [])
    + (if d.previous == [] && d.commitment != o.golden then [d.commitment] else [])
  }

  ghost predicate Earlier(db: Db, id: ATXID, ref: ATXID) {
    id in db && (ref in db ==> db[ref].epoch < db[id].epoch)
  }

  /** Every reference that a check can follow goes to an earlier epoch. */
  ghost predicate WellFounded(db: Db, o: Options) {
    forall id :: id in db && db[id].deps.Some? ==>
      forall ref :: ref in Followed(db[id].deps.value, o) ==> Earlier(db, id, ref)
  }

  ghost function Rank(db: Db, id: ATXID): nat {
    if id in db then db[id].epoch + 1 else 0
  }

  // ---- Plain definition ----

  /** The verdict on an ATX without any stored marks. */
  ghost function Check(db: Db, o: Options, id: ATXID): Verdict
    requires WellFounded(db, o)
    decreases Rank(db, id), 1, 0
  {
    if id !in db then Failed
    else if Exempt(db[id], o) then Valid
    else if db[id].deps.None? then Failed
    else if false in db[id].posts then InvalidChain
    else CheckAll(db, o, id, Followed(db[id].deps.value, o))
  }

  /** The verdict on a list of references of `id`: that of the first which is not valid. */
  ghost function CheckAll(db: Db, o: Options, id: ATXID, refs: seq<ATXID>): Verdict
    requires WellFounded(db, o)
    requires forall ref :: ref in refs ==> Earlier(db, id, ref)
    decreases Rank(db, id), 0, |refs|
  {
    if refs == [] then Valid
    else
      assert refs[0] in refs && Earlier(db, id, refs[0]);
      var v := Check(db, o, refs[0]);
      if v == Valid then CheckAll(db, o, id, refs[1..]) else v
  }

  /** What needs no verification, and what the verdict is otherwise. */
  lemma {:induction false} CheckIs(db: Db, o: Options, id: ATXID)
    requires WellFounded(db, o)
    ensures id !in db ==> Check(db, o, id) == Failed
    ensures id in db && (db[id].golden || db[id].received < o.assumedValidBefore || db[id].smesher == o.trusted) ==>
      Check(db, o, id) == Valid
    ensures id in db && !db[id].golden && db[id].received >= o.assumedValidBefore && db[id].smesher != o.trusted ==>
      && (db[id].deps.None? ==> Check(db, o, id) == Failed)
      && (db[id].deps.Some? && false in db[id].posts ==> Check(db, o, id) == InvalidChain)
      && (db[id].deps.Some? && false !in db[id].posts ==>
            (Check(db, o, id) == Valid <==>
               forall ref :: ref in Followed(db[id].deps.value, o) ==> Check(db, o, ref) == Valid))
  {
    if id in db && db[id].deps.Some? {
      AllValidIff(db, o, id, Followed(db[id].deps.value, o));
    }
  }

  // ---- Validity as a property of the reference graph ----

  /** `path` starts at `id` and follows references out of ATXs that are not exempt. */
  ghost predicate IsPath(db: Db, o: Options, path: seq<ATXID>) {
    && path != []
    && forall i :: 0 <= i < |path| - 1 ==>
      && path[i] in db && !Exempt(db[path[i]], o) && db[path[i]].deps.Some?
      && path[i + 1] in Followed(db[path[i]].deps.value, o)
  }

  /** An ATX that is itself acceptable: exempt, or loadable with every PoST valid. */
  ghost predicate Sound(db: Db, o: Options, id: ATXID) {
    id in db && (Exempt(db[id], o) || (db[id].deps.Some? && false !in db[id].posts))
  }

  ghost predicate SoundChain(db: Db, o: Options, id: ATXID) {
    forall path :: IsPath(db, o, path) && path[0] == id ==> Sound(db, o, path[|path| - 1])
  }

  lemma {:induction false} ValidReaches(db: Db, o: Options, path: seq<ATXID>)
    requires WellFounded(db, o) && IsPath(db, o, path) && Check(db, o, path[0]) == Valid
    ensures Sound(db, o, path[|path| - 1])
    decreases |path|
  {
    if |path| > 1 {
      var id := path[0];
      FollowedValid(db, o, id, Followed(db[id].deps.value, o), path[1]);
      ValidReaches(db, o, path[1..]);
    }
  }

  lemma {:induction false} FollowedValid(db: Db, o: Options, id: ATXID, refs: seq<ATXID>, ref: ATXID)
    requires WellFounded(db, o)
    requires forall r :: r in refs ==> Earlier(db, id, r)
    requires CheckAll(db, o, id, refs) == Valid && ref in refs
    ensures Check(db, o, ref) == Valid
    decreases |refs|
  {
    if ref != refs[0] {
      FollowedValid(db, o, id, refs[1..], ref);
    }
  }

  lemma {:induction false} SoundIsValid(db: Db, o: Options, id: ATXID)
    requires WellFounded(db, o) && SoundChain(db, o, id)
    ensures Check(db, o, id) == Valid
    decreases Rank(db, id), 1, 0
  {
    assert IsPath(db, o, [id]);
    assert Sound(db, o, id);
    if !Exempt(db[id], o) {
      AllSoundIsValid(db, o, id, Followed(db[id].deps.value, o));
    }
  }

  lemma {:induction false} AllSoundIsValid(db: Db, o: Options, id: ATXID, refs: seq<ATXID>)
    requires WellFounded(db, o) && SoundChain(db, o, id)
    requires id in db && !Exempt(db[id], o) && db[id].deps.Some?
    requires forall ref :: ref in refs ==> ref in Followed(db[id].deps.value, o)
    ensures CheckAll(db, o, id, refs) == Valid
    decreases Rank(db, id), 0, |refs|
  {
    if refs != [] {
      assert refs[0] in refs;
      assert IsPath(db, o, [id, refs[0]]);
      assert Sound(db, o, refs[0]);
      forall path | IsPath(db, o, path) && path[0] == refs[0]
        ensures Sound(db, o, path[|path| - 1])
      {
        assert IsPath(db, o, [id] + path);
      }
      SoundIsValid(db, o, refs[0]);
      AllSoundIsValid(db, o, id, refs[1..]);
    }
  }

  /** A chain check succeeds exactly when every ATX it can reach is acceptable. */
  lemma ValidIffSoundChain(db: Db, o: Options, id: ATXID)
    requires WellFounded(db, o)
    ensures Check(db, o, id) == Valid <==> SoundChain(db, o, id)
  {
    if Check(db, o, id) == Valid {
      forall path | IsPath(db, o, path) && path[0] == id
        ensures Sound(db, o, path[|path| - 1])
      {
        ValidReaches(db, o, path);
      }
    } else if SoundChain(db, o, id) {
      SoundIsValid(db, o, id);
    }
  }

  // ---- Admission ----

  /** The epoch checks on an ATX before it is stored: previous and positioning ATXs, and the
      commitment of a first ATX, are stored already and were published earlier. */
  predicate Admissible(db: Db, o: Options, atx: Atx)
    requires atx.deps.Some?
  {
    var d := atx.deps.value;
    && (forall p :: p in d.previous ==> p in db && db[p].epoch < atx.epoch)
    && (d.positioning == o.golden || (d.positioning in db && db[d.positioning].epoch < atx.epoch))
    && (d.previous == [] ==>
          d.commitment == o.golden || (d.commitment in db && db[d.commitment].epoch < atx.epoch))
  }

  /** An ATX that arrives, with its ID.  `full` tells whether the node verifies every index of a
      PoST on arrival, or only some. */
  datatype Arrival = Arrival(
    id: ATXID, epoch: nat, smesher: NodeID, received: int, posts: seq<bool>, deps: Deps, full: bool)

  function Incoming(a: Arrival): Atx {
    Atx(a.epoch, a.smesher, false, a.received, a.posts, Some(a.deps))
  }

  predicate IsStored(db: Db, o: Options, a: Arrival) {
    a.id !in db && Admissible(db, o, Incoming(a))
  }

  /** Stores an ATX unless it is known or fails the epoch checks. */
  function Arrive(db: Db, o: Options, a: Arrival): Db {
    if IsStored(db, o, a) then db[a.id := Incoming(a)] else db
  }

  /** An ATX is admitted exactly when everything it refers to is stored and earlier. */
  lemma AdmissibleIff(db: Db, o: Options, a: Arrival)
    ensures IsStored(db, o, a) <==>
      && a.id !in db
      && forall ref :: ref in Followed(a.deps, o) ==> ref in db && db[ref].epoch < a.epoch
  {
    forall ref
      ensures ref in Followed(a.deps, o) <==>
        || ref in a.deps.previous
        || (ref == a.deps.positioning && ref != o.golden)
        || (a.deps.previous == [] && ref == a.deps.commitment && ref != o.golden)
    {
      FollowedIs(a.deps, o, ref);
    }
    hide Followed;
  }

  /** A database starts with the golden ATXs of a checkpoint, which carry no blob. */
  ghost predicate IsCheckpoint(db: Db) {
    forall id :: id in db ==> db[id].golden && db[id].deps.None?
  }

  ghost function ArriveAll(start: Db, o: Options, arrivals: seq<Arrival>): Db {
    if arrivals == [] then start
    else Arrive(ArriveAll(start, o, arrivals[..|arrivals| - 1]), o, arrivals[|arrivals| - 1])
  }

  /** Every ATX that is not golden can be loaded, and what it refers to is stored and earlier. */
  ghost predicate Closed(db: Db, o: Options) {
    forall id :: id in db ==>
      if db[id].deps.None? then db[id].golden
      else forall ref :: ref in Followed(db[id].deps.value, o) ==> ref in db && db[ref].epoch < db[id].epoch
  }

  lemma {:induction false} ArrivalStaysClosed(db: Db, o: Options, a: Arrival)
    requires Closed(db, o)
    ensures Closed(Arrive(db, o, a), o)
  {
    var db' := Arrive(db, o, a);
    forall id | id in db' && db'[id].deps.Some?
      ensures forall ref :: ref in Followed(db'[id].deps.value, o) ==> ref in db' && db'[ref].epoch < db'[id].epoch
    {
      forall ref | ref in Followed(db'[id].deps.value, o)
        ensures ref in db' && db'[ref].epoch < db'[id].epoch
      {
        FollowedIs(db'[id].deps.value, o, ref);
      }
    }
  }

  /** Whatever arrives, references stay stored and go to strictly earlier epochs, so a chain
      check ends. */
  lemma {:induction false} ArrivalsStayClosed(start: Db, o: Options, arrivals: seq<Arrival>)
    requires Closed(start, o)
    ensures Closed(ArriveAll(start, o, arrivals), o) && WellFounded(ArriveAll(start, o, arrivals), o)
  {
    if arrivals != [] {
      var front, a := arrivals[..|arrivals| - 1], arrivals[|arrivals| - 1];
      ArrivalsStayClosed(start, o, front);
      ArrivalStaysClosed(ArriveAll(start, o, front), o, a);
    }
  }

  lemma FollowedIs(d: Deps, o: Options, ref: ATXID)
    ensures ref in Followed(d, o) <==>
      || ref in d.previous
      || (ref == d.positioning && ref != o.golden)
      || (d.previous == [] && ref == d.commitment && ref != o.golden)
  {
  }

  lemma {:induction false} ClosedNeverFails(db: Db, o: Options, id: ATXID)
    requires WellFounded(db, o) && Closed(db, o) && id in db
    ensures Check(db, o, id) != Failed
    decreases Rank(db, id), 1, 0
  {
    if !Exempt(db[id], o) {
      NoneFails(db, o, id, Followed(db[id].deps.value, o));
    }
  }

  lemma {:induction false} NoneFails(db: Db, o: Options, id: ATXID, refs: seq<ATXID>)
    requires WellFounded(db, o) && Closed(db, o) && id in db && db[id].deps.Some?
    requires forall ref :: ref in refs ==> ref in Followed(db[id].deps.value, o)
    ensures CheckAll(db, o, id, refs) != Failed
    decreases Rank(db, id), 0, |refs|
  {
    if refs != [] {
      assert refs[0] in refs;
      ClosedNeverFails(db, o, refs[0]);
      NoneFails(db, o, id, refs[1..]);
    }
  }

  /** In every database that arrivals build up, a check of a stored ATX ends with a definite
      answer: valid exactly when its chain is sound, and an invalid chain otherwise. */
  lemma {:induction false} ReachableVerdicts(start: Db, o: Options, arrivals: seq<Arrival>, id: ATXID)
    requires IsCheckpoint(start) && id in ArriveAll(start, o, arrivals)
    ensures var db := ArriveAll(start, o, arrivals);
      WellFounded(db, o) && Check(db, o, id) == if SoundChain(db, o, id) then Valid else InvalidChain
  {
    ArrivalsStayClosed(start, o, arrivals);
    ClosedNeverFails(ArriveAll(start, o, arrivals), o, id);
    ValidIffSoundChain(ArriveAll(start, o, arrivals), o, id);
  }

  // ---- What an arrival leaves as it is ----

  /** An arrival changes no verdict on an ATX that is already stored. */
  lemma {:induction false} ArrivalKeepsChecks(db: Db, o: Options, a: Arrival, id: ATXID)
    requires Closed(db, o) && WellFounded(db, o) && WellFounded(Arrive(db, o, a), o) && id in db
    ensures Check(Arrive(db, o, a), o, id) == Check(db, o, id)
    decreases Rank(db, id), 1, 0
  {
    if !Exempt(db[id], o) && db[id].deps.Some? && false !in db[id].posts {
      ArrivalKeepsAll(db, o, a, id, Followed(db[id].deps.value, o));
    }
  }

  lemma {:induction false} ArrivalKeepsAll(db: Db, o: Options, a: Arrival, id: ATXID, refs: seq<ATXID>)
    requires Closed(db, o) && WellFounded(db, o) && WellFounded(Arrive(db, o, a), o)
    requires id in db && db[id].deps.Some?
    requires forall ref :: ref in refs ==> ref in Followed(db[id].deps.value, o)
    ensures CheckAll(Arrive(db, o, a), o, id, refs) == CheckAll(db, o, id, refs)
    decreases Rank(db, id), 0, |refs|
  {
    if refs != [] {
      assert refs[0] in refs;
      ArrivalKeepsChecks(db, o, a, refs[0]);
      ArrivalKeepsAll(db, o, a, id, refs[1..]);
    }
  }

  /** The verdict on a list is valid exactly when that on each entry is. */
  lemma {:induction false} AllValidIff(db: Db, o: Options, id: ATXID, refs: seq<ATXID>)
    requires WellFounded(db, o) && forall ref :: ref in refs ==> Earlier(db, id, ref)
    ensures CheckAll(db, o, id, refs) == Valid <==> forall ref :: ref in refs ==> Check(db, o, ref) == Valid
    decreases |refs|
  {
    if refs != [] {
      assert refs[0] in refs;
      AllValidIff(db, o, id, refs[1..]);
      assert forall ref :: ref in refs ==> ref == refs[0] || ref in refs[1..];
    }
  }

  /** The newly stored ATX is in order: exempt, or with good PoSTs and references in order. */
  ghost predicate InOrder(db: Db, o: Options, a: Arrival) {
    || Exempt(Incoming(a), o)
    || (false !in a.posts && forall ref :: ref in Followed(a.deps, o) ==> SoundChain(db, o, ref))
  }

  lemma {:induction false} ArrivalValidIff(db: Db, o: Options, a: Arrival)
    requires Closed(db, o) && IsStored(db, o, a)
    ensures WellFounded(Arrive(db, o, a), o)
    ensures Check(Arrive(db, o, a), o, a.id) == Valid <==> InOrder(db, o, a)
  {
    ArrivalStaysClosed(db, o, a);
    var db', refs := Arrive(db, o, a), Followed(a.deps, o);
    forall ref | ref in refs
      ensures Earlier(db', a.id, ref) && (Check(db', o, ref) == Valid <==> SoundChain(db, o, ref))
    {
      FollowedIs(a.deps, o, ref);
      ArrivalKeepsChecks(db, o, a, ref);
      ValidIffSoundChain(db, o, ref);
    }
    AllValidIff(db', o, a.id, refs);
  }

  // ---- Memoised check ----

  /** Every stored mark is the verdict that the plain definition gives. */
  ghost predicate MarksAgree(db: Db, o: Options, marks: map<ATXID, bool>)
    requires WellFounded(db, o)
  {
    forall id :: id in marks ==> Check(db, o, id) == if marks[id] then Valid else InvalidChain
  }

  ghost predicate Extends(marks: map<ATXID, bool>, old': map<ATXID, bool>) {
    forall id :: id in old' ==> id in marks && marks[id] == old'[id]
  }

  /** Every positive mark is right.  Negative marks need not be: a PoST check that is cut short, by
      a cancelled context or a closed verifier, marks its ATX invalid like any other error. */
  ghost predicate PositiveMarksAgree(db: Db, o: Options, marks: map<ATXID, bool>)
    requires WellFounded(db, o)
  {
    forall id :: id in marks && marks[id] ==> Check(db, o, id) == Valid
  }

  lemma AgreeingIsPositive(db: Db, o: Options, marks: map<ATXID, bool>)
    requires WellFounded(db, o) && MarksAgree(db, o, marks)
    ensures PositiveMarksAgree(db, o, marks)
  {
  }

  /** A node in full mode marks an ATX valid as it stores it, without looking at its chain. */
  function MarksAfter(db: Db, o: Options, marks: map<ATXID, bool>, a: Arrival): map<ATXID, bool> {
    if !IsStored(db, o, a) then marks else if a.full then marks[a.id := true] else marks - {a.id}
  }

  /** An arrival that leaves no wrong mark. */
  ghost predicate MarksWell(db: Db, o: Options, a: Arrival) {
    IsStored(db, o, a) && a.full ==> InOrder(db, o, a)
  }

  lemma {:induction false} ArrivalKeepsMarks(db: Db, o: Options, marks: map<ATXID, bool>, a: Arrival)
    requires Closed(db, o) && WellFounded(db, o) && marks.Keys <= db.Keys && MarksWell(db, o, a)
    ensures var db', marks' := Arrive(db, o, a), MarksAfter(db, o, marks, a);
      && Closed(db', o) && WellFounded(db', o) && marks'.Keys <= db'.Keys && Extends(marks', marks)
      && (PositiveMarksAgree(db, o, marks) ==> PositiveMarksAgree(db', o, marks'))
      && (MarksAgree(db, o, marks) ==> MarksAgree(db', o, marks'))
  {
    ArrivalStaysClosed(db, o, a);
    if IsStored(db, o, a) {
      ArrivalValidIff(db, o, a);
      forall id | id in marks
        ensures Check(Arrive(db, o, a), o, id) == Check(db, o, id)
      {
        ArrivalKeepsChecks(db, o, a, id);
      }
    }
  }

  /** The mark that full mode writes is right exactly when the ATX is exempt, or its PoSTs are good
      and every ATX it refers to has a valid chain. */
  lemma {:induction false} ArrivalMarkAgreesIff(db: Db, o: Options, marks: map<ATXID, bool>, a: Arrival)
    requires Closed(db, o) && WellFounded(db, o) && MarksAgree(db, o, marks) && IsStored(db, o, a)
    ensures WellFounded(Arrive(db, o, a), o)
    ensures MarksAgree(Arrive(db, o, a), o, marks[a.id := true]) <==>
      || Exempt(Incoming(a), o)
      || (false !in a.posts && forall ref :: ref in Followed(a.deps, o) ==> Check(db, o, ref) == Valid)
  {
    ArrivalValidIff(db, o, a);
    forall ref | ref in Followed(a.deps, o)
      ensures Check(db, o, ref) == Valid <==> SoundChain(db, o, ref)
    {
      ValidIffSoundChain(db, o, ref);
    }
    forall id | id in marks
      ensures id != a.id && Check(Arrive(db, o, a), o, id) == Check(db, o, id)
    {
      ArrivalKeepsChecks(db, o, a, id);
    }
    assert a.id in marks[a.id := true];
  }

  /** A node that was always in full mode has only valid chains, so its marks are right. */
  lemma {:induction false} AlwaysFullMarksWell(start: Db, o: Options, arrivals: seq<Arrival>, i: nat, id: ATXID)
    requires IsCheckpoint(start) && i <= |arrivals|
    requires forall a :: a in arrivals ==> a.full && false !in a.posts
    ensures id in ArriveAll(start, o, arrivals[..i]) ==> SoundChain(ArriveAll(start, o, arrivals[..i]), o, id)
    ensures i < |arrivals| ==> MarksWell(ArriveAll(start, o, arrivals[..i]), o, arrivals[i])
  {
    AlwaysFullValid(start, o, arrivals[..i]);
    var db := ArriveAll(start, o, arrivals[..i]);
    ArrivalsStayClosed(start, o, arrivals[..i]);
    ValidIffSoundChain(db, o, id);
    if i < |arrivals| && IsStored(db, o, arrivals[i]) {
      forall ref | ref in Followed(arrivals[i].deps, o)
        ensures SoundChain(db, o, ref)
      {
        FollowedIs(arrivals[i].deps, o, ref);
        ValidIffSoundChain(db, o, ref);
      }
    }
  }

  lemma {:induction false} AlwaysFullValid(start: Db, o: Options, arrivals: seq<Arrival>)
    requires IsCheckpoint(start) && forall a :: a in arrivals ==> false !in a.posts
    ensures WellFounded(ArriveAll(start, o, arrivals), o)
    ensures forall id :: id in ArriveAll(start, o, arrivals) ==> Check(ArriveAll(start, o, arrivals), o, id) == Valid
  {
    ArrivalsStayClosed(start, o, arrivals);
    if arrivals != [] {
      var front, a := arrivals[..|arrivals| - 1], arrivals[|arrivals| - 1];
      AlwaysFullValid(start, o, front);
      ArrivalsStayClosed(start, o, front);
      var db := ArriveAll(start, o, front);
      forall id | id in db
        ensures Check(Arrive(db, o, a), o, id) == Valid
      {
        ArrivalKeepsChecks(db, o, a, id);
      }
      if IsStored(db, o, a) {
        forall ref | ref in Followed(a.deps, o)
          ensures SoundChain(db, o, ref)
        {
          FollowedIs(a.deps, o, ref);
          ValidIffSoundChain(db, o, ref);
        }
        ArrivalValidIff(db, o, a);
      }
    }
  }

  ghost predicate PassesAt(posts: seq<bool>, cut: nat -> bool, checks: nat, k: nat)
    requires k < |posts|
  {
    posts[k] && !cut(checks + k)
  }

  ghost predicate PassesTo(posts: seq<bool>, cut: nat -> bool, checks: nat, n: nat) {
    n <= |posts| && forall k :: 0 <= k < n ==> PassesAt(posts, cut, checks, k)
  }

  /** The first checks of `posts` pass and the one at `i` is cut short, when `checks` were made
      before. */
  ghost predicate CutAt(posts: seq<bool>, cut: nat -> bool, checks: nat, i: nat) {
    i < |posts| && cut(checks + i) && PassesTo(posts, cut, checks, i)
  }

  lemma NeverCut(posts: seq<bool>, cut: nat -> bool, checks: nat, i: nat)
    requires PassesTo(posts, cut, checks, i) && (i < |posts| ==> !posts[i] && !cut(checks + i))
    ensures forall j: nat :: !CutAt(posts, cut, checks, j)
  {
    forall j: nat
      ensures !CutAt(posts, cut, checks, j)
    {
      assert j < i ==> PassesAt(posts, cut, checks, j);
      assert i < j && PassesTo(posts, cut, checks, j) ==> PassesAt(posts, cut, checks, i);
    }
  }

  /** An ATX that a call verifies itself: neither golden nor marked nor otherwise exempt. */
  ghost predicate Examined(db: Db, o: Options, marks: map<ATXID, bool>, id: ATXID) {
    id in db && !Exempt(db[id], o) && id !in marks && db[id].deps.Some?
  }

  /** An ATX whose stored mark is all that a call looks at. */
  ghost predicate Settled(db: Db, marks: map<ATXID, bool>, id: ATXID) {
    id in db && !db[id].golden && id in marks
  }

  /** Some check from number `from` on and before number `to` is cut short. */
  ghost predicate CutBetween(cut: nat -> bool, from: nat, to: nat) {
    exists k: nat :: from <= k < to && cut(k)
  }

  lemma CutSplit(cut: nat -> bool, a: nat, b: nat, c: nat)
    requires a <= b <= c
    ensures CutBetween(cut, a, c) <==> CutBetween(cut, a, b) || CutBetween(cut, b, c)
  {
  }

  lemma NoneBetween(cut: nat -> bool, k: nat)
    ensures !CutBetween(cut, k, k)
  {
  }

  datatype Event = Arrives(atx: Arrival) | Asked(id: ATXID)

  ghost function ArrivalsIn(events: seq<Event>): seq<Arrival> {
    if events == [] then []
    else
      var last := events[|events| - 1];
      ArrivalsIn(events[..|events| - 1]) + if last.Arrives? then [last.atx] else []
  }

  /** The database before event number `i`. */
  ghost function DbAt(start: Db, o: Options, events: seq<Event>, i: nat): Db
    requires i <= |events|
  {
    ArriveAll(start, o, ArrivalsIn(events[..i]))
  }

  /** No arrival before event number `i` left a wrong mark. */
  ghost predicate ArrivalsMarkWell(start: Db, o: Options, events: seq<Event>, i: nat)
    requires i <= |events|
  {
    forall j :: 0 <= j < i && events[j].Arrives? ==> MarksWell(DbAt(start, o, events, j), o, events[j].atx)
  }

  lemma {:induction false} DbAfter(start: Db, o: Options, events: seq<Event>, i: nat)
    requires i < |events|
    ensures DbAt(start, o, events, i + 1) ==
      if events[i].Arrives? then Arrive(DbAt(start, o, events, i), o, events[i].atx) else DbAt(start, o, events, i)
  {
    var now, next := events[..i], events[..i + 1];
    assert next[..|next| - 1] == now;
    if events[i].Arrives? {
      var arrivals := ArrivalsIn(next);
      assert arrivals[..|arrivals| - 1] == ArrivalsIn(now);
    } else {
      assert ArrivalsIn(next) == ArrivalsIn(now);
    }
  }

  class Validator {
    var db: Db
    const options: Options
    /** Which PoST checks are cut short, and which writes of a mark succeed, counted from zero. */
    const cut: nat -> bool
    const written: nat -> bool
    /** The validity column: present once an ATX was found valid or invalid. */
    var marks: map<ATXID, bool>
    var checks: nat
    var writes: nat

    ghost predicate WellFormed()
      reads this
    {
      Closed(db, options) && WellFounded(db, options) && marks.Keys <= db.Keys
    }

    ghost predicate Trusted()
      reads this
    {
      WellFormed() && PositiveMarksAgree(db, options, marks)
    }

    ghost predicate Consistent()
      reads this
    {
      WellFormed() && MarksAgree(db, options, marks)
    }

    constructor (db: Db, options: Options, cut: nat -> bool, written: nat -> bool)
      requires IsCheckpoint(db)
      ensures Trusted() && Consistent() && this.db == db && this.options == options && marks == map[]
      ensures this.cut == cut && this.written == written && checks == writes == 0
    {
      this.db, this.options, this.cut, this.written := db, options, cut, written;
      this.marks, checks, writes := map[], 0, 0;
    }

    /** Stores an ATX that arrives, and in full mode marks it. */
    method Store(a: Arrival) returns (stored: bool)
      requires WellFormed()
      modifies `db, `marks
      ensures WellFormed() && db == Arrive(old(db), options, a) && marks == MarksAfter(old(db), options, old(marks), a)
      ensures stored <==> IsStored(old(db), options, a)
      ensures Extends(marks, old(marks))
    {
      ArrivalStaysClosed(db, options, a);
      stored := a.id !in db && Admissible(db, options, Incoming(a));
      if stored {
        db := db[a.id := Incoming(a)];
        marks := if a.full then marks[a.id := true] else marks - {a.id};
      }
    }

    /** Writing a mark can fail; the failure is only logged. */
    method SetValidity(id: ATXID, valid: bool)
      modifies `marks, `writes
      ensures marks == if written(old(writes)) then old(marks)[id := valid] else old(marks)
      ensures writes == old(writes) + 1
    {
      if written(writes) {
        marks := marks[id := valid];
      }
      writes := writes + 1;
    }

    /** Runs the PoST checks in order; any error ends them. */
    method CheckPosts(posts: seq<bool>) returns (ok: bool)
      modifies `checks
      ensures old(checks) <= checks
      ensures ok <==> !CutBetween(cut, old(checks), checks) && false !in posts
      ensures CutBetween(cut, old(checks), checks) <==> exists i :: CutAt(posts, cut, old(checks), i)
    {
      for i := 0 to |posts|
        invariant checks == old(checks) + i && PassesTo(posts, cut, old(checks), i)
        invariant false !in posts[..i] && !CutBetween(cut, old(checks), checks)
      {
        checks := checks + 1;
        CutSplit(cut, old(checks), checks - 1, checks);
        if cut(checks - 1) {
          assert CutAt(posts, cut, old(checks), i);
          return false;
        }
        if !posts[i] {
          NeverCut(posts, cut, old(checks), i);
          return false;
        }
        assert PassesAt(posts, cut, old(checks), i);
      }
      NeverCut(posts, cut, old(checks), |posts|);
      assert posts[..|posts|] == posts;
      return true;
    }

    /** A call makes the checks numbered from the old to the new value of `checks`.  If positive
        marks are right, so is a valid answer, whatever is cut short.  If all marks are, the answer
        is right exactly when no check of this call is cut short or the chain is invalid anyway. */
    method VerifyChain(id: ATXID) returns (v: Verdict)
      requires WellFormed()
      modifies `marks, `checks, `writes
      ensures WellFormed() && Extends(marks, old(marks)) && old(checks) <= checks
      ensures old(Trusted()) ==> Trusted() && (v == Valid ==> Check(db, options, id) == Valid)
      ensures CutBetween(cut, old(checks), checks) ==> v == InvalidChain
      ensures old(Consistent()) && !CutBetween(cut, old(checks), checks) ==>
        Consistent() && v == Check(db, options, id)
      ensures old(Consistent()) ==>
        (v == Check(db, options, id) <==>
           !CutBetween(cut, old(checks), checks) || Check(db, options, id) == InvalidChain)
      ensures Settled(db, old(marks), id) ==>
        v == (if old(marks)[id] then Valid else InvalidChain) && marks == old(marks) && checks == old(checks)
      ensures old(Examined(db, options, marks, id)) && (exists i :: CutAt(db[id].posts, cut, old(checks), i)) ==>
        && CutBetween(cut, old(checks), checks)
        && marks == if written(old(writes)) then old(marks)[id := false] else old(marks)
      decreases Rank(db, id), 1, 0
    {
      hide Closed, CutAt, CutBetween, CheckAll;
      NoneBetween(cut, checks);
      if id !in db {
        return Failed;
      }
      var atx := db[id];
      if atx.golden {
        return Valid;
      }
      if id in marks {
        return if marks[id] then Valid else InvalidChain;
      }
      if atx.received < options.assumedValidBefore || atx.smesher == options.trusted {
        return Valid;
      }
      if atx.deps.None? {
        return Failed;
      }
      var ok := CheckPosts(atx.posts);
      if !ok {
        SetValidity(id, false);
        return InvalidChain;
      }
      ghost var middle := checks;
      v := VerifyDeps(id, atx.deps.value);
      CutSplit(cut, old(checks), middle, checks);
      if v == Valid {
        SetValidity(id, true);
      } else if v == InvalidChain {
        SetValidity(id, false);
      }
    }

    method VerifyDeps(id: ATXID, deps: Deps) returns (v: Verdict)
      requires WellFormed()
      requires forall ref :: ref in Followed(deps, options) ==> Earlier(db, id, ref)
      modifies `marks, `checks, `writes
      ensures WellFormed() && Extends(marks, old(marks)) && old(checks) <= checks
      ensures old(Trusted()) ==>
        Trusted() && (v == Valid ==> CheckAll(db, options, id, Followed(deps, options)) == Valid)
      ensures CutBetween(cut, old(checks), checks) ==> v == InvalidChain
      ensures old(Consistent()) && !CutBetween(cut, old(checks), checks) ==>
        Consistent() && v == CheckAll(db, options, id, Followed(deps, options))
      decreases Rank(db, id), 0
    {
      hide Check, Examined, CutAt, Settled, PositiveMarksAgree, MarksAgree, WellFounded, CutBetween, Closed;
      ghost var refs := Followed(deps, options);
      ghost var middle := checks;
      NoneBetween(cut, checks);
      for i := 0 to |deps.previous|
        invariant WellFormed() && Extends(marks, old(marks)) && old(checks) <= checks
        invariant !CutBetween(cut, old(checks), checks)
        invariant old(Trusted()) ==>
          Trusted() && CheckAll(db, options, id, refs) == CheckAll(db, options, id, refs[i..])
        invariant old(Consistent()) ==>
          Consistent() && CheckAll(db, options, id, refs) == CheckAll(db, options, id, refs[i..])
      {
        assert refs[i] == deps.previous[i] && refs[i..][1..] == refs[i + 1..];
        assert deps.previous[i] in refs;
        middle := checks;
        v := VerifyChain(deps.previous[i]);
        CutSplit(cut, old(checks), middle, checks);
        if v != Valid {
          return;
        }
      }
      ghost var rest := refs[|deps.previous|..];
      if deps.positioning != options.golden {
        assert rest[0] == deps.positioning && deps.positioning in refs;
        middle := checks;
        v := VerifyChain(deps.positioning);
        CutSplit(cut, old(checks), middle, checks);
        if v != Valid {
          return;
        }
        rest := rest[1..];
      }
      if |deps.previous| == 0 && deps.commitment != options.golden {
        assert rest == [deps.commitment] && deps.commitment in refs;
        middle := checks;
        v := VerifyChain(deps.commitment);
        CutSplit(cut, old(checks), middle, checks);
        assert rest[1..] == [] && CheckAll(db, options, id, rest[1..]) == Valid;
        return;
      }
      assert rest == [];
      return Valid;
    }

    /** Arrivals and calls in any order.  Call number `i` makes the checks from `spans[i]` on and
        before `spans[i + 1]`.  As long as no arrival left a wrong mark, a valid answer is right; as
        long as no check was cut short either, every answer is. */
    method RunEvents(events: seq<Event>) returns (vs: seq<Option<Verdict>>, ghost spans: seq<nat>)
      requires Consistent()
      modifies `db, `marks, `checks, `writes
      ensures db == DbAt(old(db), options, events, |events|) && Extends(marks, old(marks))
      ensures |vs| == |events| && |spans| == |events| + 1 && spans[0] == old(checks) && spans[|events|] == checks
      ensures forall i :: 0 <= i < |events| ==> spans[i] <= spans[i + 1]
      ensures forall i :: 0 <= i < |events| ==>
        Answered(old(db), options, cut, events, i, vs[i], old(checks), spans[i], spans[i + 1])
    {
      hide DbAt, ArrivalsMarkWell, CutBetween, Closed, WellFounded, PositiveMarksAgree, MarksAgree, Check, SoundChain,
        MarksWell, Examined, CutAt, Settled;
      ghost var start := db;
      vs, spans := [], [checks];
      StartDb(start, options, events, cut, checks);
      AgreeingIsPositive(db, options, marks);
      for i := 0 to |events|
        invariant WellFormed() && db == DbAt(start, options, events, i) && Extends(marks, old(marks))
        invariant |vs| == i && |spans| == i + 1 && spans[0] == old(checks) && spans[i] == checks
        invariant forall j :: 0 <= j < i ==> spans[j] <= spans[j + 1]
        invariant old(checks) <= checks
        invariant ArrivalsMarkWell(start, options, events, i) ==> Trusted()
        invariant ArrivalsMarkWell(start, options, events, i) && !CutBetween(cut, old(checks), checks) ==> Consistent()
        invariant forall j :: 0 <= j < i ==>
          Answered(start, options, cut, events, j, vs[j], old(checks), spans[j], spans[j + 1])
      {
        DbAfter(start, options, events, i);
        MarkWellAfter(start, options, events, i);
        ghost var before, known := checks, marks;
        var answer: Option<Verdict> := None;
        match events[i] {
          case Arrives(a) =>
            if MarksWell(db, options, a) {
              ArrivalKeepsMarks(db, options, marks, a);
            }
            var stored := Store(a);
          case Asked(id) =>
            var v := VerifyChain(id);
            ValidIffSoundChain(db, options, id);
            answer := Some(v);
        }
        CutSplit(cut, old(checks), before, checks);
        vs, spans := vs + [answer], spans + [checks];
      }
    }
  }

  /** What event number `i` is answered: an arrival nothing, a call as reachability says. */
  ghost predicate Answered(start: Db, o: Options, cut: nat -> bool, events: seq<Event>, i: nat, v: Option<Verdict>,
      first: nat, from: nat, to: nat)
    requires i < |events|
  {
    if events[i].Arrives? then v == None
    else
      var sound := SoundChain(DbAt(start, o, events, i), o, events[i].id);
      && v.Some?
      && (CutBetween(cut, from, to) ==> v.value == InvalidChain)
      && (ArrivalsMarkWell(start, o, events, i) && v.value == Valid ==> sound)
      && (ArrivalsMarkWell(start, o, events, i) && !CutBetween(cut, first, to) ==> (v.value == Valid <==> sound))
  }

  lemma {:induction false} StartDb(start: Db, o: Options, events: seq<Event>, cut: nat -> bool, checks: nat)
    ensures DbAt(start, o, events, 0) == start && ArrivalsMarkWell(start, o, events, 0)
    ensures !CutBetween(cut, checks, checks)
  {
    assert events[..0] == [];
  }

  lemma {:induction false} MarkWellAfter(start: Db, o: Options, events: seq<Event>, i: nat)
    requires i < |events|
    ensures ArrivalsMarkWell(start, o, events, i + 1) <==>
      && ArrivalsMarkWell(start, o, events, i)
      && (events[i].Arrives? ==> MarksWell(DbAt(start, o, events, i), o, events[i].atx))
  {
    hide DbAt, MarksWell;
  }

  lemma {:induction false} ArrivalsInAre(events: seq<Event>, i: nat)
    requires i <= |events|
    ensures forall a :: a in ArrivalsIn(events[..i]) ==> exists j :: 0 <= j < i && events[j] == Arrives(a)
  {
    if i > 0 {
      ArrivalsInAre(events, i - 1);
      assert events[..i][..i - 1] == events[..i - 1];
    }
  }

  /** A node that is in full mode from its checkpoint on never leaves a wrong mark, provided that
      what passes on arrival passes the chain check; one that never is, never does. */
  lemma {:induction false} OneModeMarksWell(start: Db, o: Options, events: seq<Event>, i: nat)
    requires IsCheckpoint(start) && i <= |events|
    requires
      || (forall j :: 0 <= j < |events| && events[j].Arrives? ==> !events[j].atx.full)
      || (forall j :: 0 <= j < |events| && events[j].Arrives? ==> events[j].atx.full && false !in events[j].atx.posts)
    ensures ArrivalsMarkWell(start, o, events, i)
  {
    forall j | 0 <= j < i && events[j].Arrives? && events[j].atx.full
      ensures MarksWell(DbAt(start, o, events, j), o, events[j].atx)
    {
      var arrivals, a := ArrivalsIn(events[..j]), events[j].atx;
      ArrivalsInAre(events, j);
      var more := arrivals + [a];
      assert more[..|arrivals|] == arrivals;
      forall b | b in more
        ensures b.full && false !in b.posts
      {
        if b in arrivals {
          var k :| 0 <= k < j && events[k] == Arrives(b);
        }
      }
      AlwaysFullMarksWell(start, o, more, |arrivals|, a.id);
    }
  }

  // ---- Where the answer goes wrong ----

  const PLAIN := Options(9, 0, 7)

  /** A first ATX whose references are golden. */
  function First(post: bool, full: bool): Arrival {
    Arrival(1, 1, 1, 5, [post], Deps([], 9, 9), full)
  }

  /** Its successor, with a good PoST. */
  function Second(full: bool): Arrival {
    Arrival(2, 2, 1, 5, [true], Deps([1], 9, 9), full)
  }

  lemma FirstAlone(post: bool, full: bool)
    ensures var db := Arrive(map[], PLAIN, First(post, full));
      && IsStored(map[], PLAIN, First(post, full)) && Closed(db, PLAIN) && WellFounded(db, PLAIN)
      && Check(db, PLAIN, 1) == if post then Valid else InvalidChain
  {
    var a := First(post, full);
    var empty: Db := map[];
    assert Followed(a.deps, PLAIN) == [];
    ArrivalStaysClosed(empty, PLAIN, a);
  }

  lemma SecondOfTwo(post: bool, mode: bool, full: bool)
    ensures var db := Arrive(map[], PLAIN, First(post, mode));
      && IsStored(db, PLAIN, Second(full)) && WellFounded(Arrive(db, PLAIN, Second(full)), PLAIN)
      && Check(Arrive(db, PLAIN, Second(full)), PLAIN, 2) == if post then Valid else InvalidChain
  {
    FirstAlone(post, mode);
    var db, a := Arrive(map[], PLAIN, First(post, mode)), Second(full);
    assert Followed(a.deps, PLAIN) == [1];
    ArrivalStaysClosed(db, PLAIN, a);
    ArrivalKeepsChecks(db, PLAIN, a, 1);
    var db' := Arrive(db, PLAIN, a);
    assert CheckAll(db', PLAIN, 2, [1][1..]) == Valid;
  }

  /** One cancelled check of a sound chain, and the chain counts as invalid for good. */
  method CutShortForGood() returns (w: Validator, first: Verdict, second: Verdict)
    ensures fresh(w) && WellFounded(w.db, w.options) && SoundChain(w.db, w.options, 1)
    ensures forall k :: k > 0 ==> !w.cut(k)
    ensures first == second == InvalidChain && w.marks == map[1 := false] && !MarksAgree(w.db, w.options, w.marks)
  {
    w := new Validator(map[], PLAIN, k => k == 0, _ => true);
    FirstAlone(true, false);
    var stored := w.Store(First(true, false));
    ValidIffSoundChain(w.db, PLAIN, 1);
    assert CutAt([true], w.cut, 0, 0);
    first := w.VerifyChain(1);
    second := w.VerifyChain(1);
    assert 1 in w.marks;
  }

  /** An ATX with a bad PoST arrives while only some indices are verified; its successor arrives
      after the node was restarted in full mode, and its chain counts as valid for good. */
  method MarkedOnArrival() returns (w: Validator, answer: Verdict)
    ensures fresh(w) && WellFounded(w.db, w.options) && !SoundChain(w.db, w.options, 2)
    ensures forall k :: !w.cut(k)
    ensures answer == Valid && w.marks == map[2 := true] && !PositiveMarksAgree(w.db, w.options, w.marks)
  {
    w := new Validator(map[], PLAIN, _ => false, _ => true);
    FirstAlone(false, false);
    SecondOfTwo(false, false, true);
    var stored := w.Store(First(false, false));
    stored := w.Store(Second(true));
    ValidIffSoundChain(w.db, PLAIN, 2);
    assert 2 in w.marks;
    answer := w.VerifyChain(2);
  }
}
