/** How much space and time an accepted version 2 ATX stands for: the units of every included
    identity, the ticks of every NIPoST, and the weight made of both, in the 32- and 64-bit
    arithmetic of the source. */
module AtxUnits {
  import opened Ids
  import opened Words
  import Rational

  /** `proven` is the verdict on the space proof itself. */
  datatype Post = Post(marriageIndex: nat, prevIndex: nat, units: nat, proven: bool)

  /** `leaves` is what the PoET attests once the membership proof holds. */
  datatype Nipost = Nipost(posts: seq<Post>, member: bool, leaves: nat)

  datatype Atx = Atx(
    smesher: NodeID, epoch: nat, initial: bool, marriage: Option<ATXID>, previous: seq<ATXID>,
    niposts: seq<Nipost>, nonceValid: bool)

  datatype MarriageRow = MarriageRow(id: nat, atx: ATXID)

  /** The tables consulted.  `rows` is the order in which the marriage table is scanned. */
  datatype Env = Env(
    epochs: map<ATXID, nat>, units: map<(ATXID, NodeID), nat>, commitments: map<NodeID, ATXID>,
    marriages: map<NodeID, MarriageRow>, rows: seq<NodeID>, tickSize: nat)

  datatype IdData = IdData(previous: Option<ATXID>, previousIndex: nat, units: nat)

  datatype Size = Size(units: nat, ticks: nat)

  datatype Outcome =
    | Accepted(units: nat, weight: nat, ticks: nat, ids: map<NodeID, IdData>)
    | Rejected

  ghost predicate WellTyped(env: Env, atx: Atx) {
    && env.tickSize > 0
    && (forall i, j :: 0 <= i < j < |env.rows| ==> env.rows[i] != env.rows[j])
    && (forall n :: n in env.rows <==> n in env.marriages)
    && |atx.niposts| <= U32
    && forall i :: 0 <= i < |atx.niposts| ==> WellTypedNipost(atx.niposts[i])
  }

  ghost predicate WellTypedNipost(n: Nipost) {
    n.leaves < U64 && forall j :: 0 <= j < |n.posts| ==> n.posts[j].units < U32
  }

  // ---- Each identity once ----

  ghost function AllPosts(niposts: seq<Nipost>): seq<Post> {
    if niposts == [] then []
    else AllPosts(niposts[..|niposts| - 1]) + niposts[|niposts| - 1].posts
  }

  ghost predicate DistinctIndices(posts: seq<Post>) {
    forall i, j :: 0 <= i < j < |posts| ==> posts[i].marriageIndex != posts[j].marriageIndex
  }

  lemma {:induction false} AllPostsPrefix(niposts: seq<Nipost>, n: nat)
    requires n <= |niposts|
    ensures |AllPosts(niposts[..n])| <= |AllPosts(niposts)|
    ensures AllPosts(niposts)[..|AllPosts(niposts[..n])|] == AllPosts(niposts[..n])
  {
    if n == |niposts| {
      assert niposts[..n] == niposts;
    } else {
      assert niposts[..|niposts| - 1][..n] == niposts[..n];
      AllPostsPrefix(niposts[..|niposts| - 1], n);
    }
  }

  lemma {:induction false} AllPostsSplit(niposts: seq<Nipost>, i: nat)
    requires i < |niposts|
    ensures AllPosts(niposts[..i + 1]) == AllPosts(niposts[..i]) + niposts[i].posts
  {
    assert niposts[..i + 1][..i] == niposts[..i];
  }

  /** What the nested loops have passed is a prefix of all posts. */
  lemma PostsSoFar(niposts: seq<Nipost>, i: nat, j: nat)
    requires i < |niposts| && j <= |niposts[i].posts|
    ensures var n := |AllPosts(niposts[..i])| + j;
      n <= |AllPosts(niposts)| && AllPosts(niposts)[..n] == AllPosts(niposts[..i]) + niposts[i].posts[..j]
  {
    AllPostsPrefix(niposts, i + 1);
    AllPostsSplit(niposts, i);
  }

  lemma {:induction false} PostAt(niposts: seq<Nipost>, i: nat, j: nat)
    requires i < |niposts| && j < |niposts[i].posts|
    ensures |AllPosts(niposts[..i])| + j < |AllPosts(niposts)|
    ensures AllPosts(niposts)[|AllPosts(niposts[..i])| + j] == niposts[i].posts[j]
  {
    var n := |AllPosts(niposts[..i])| + j + 1;
    PostsSoFar(niposts, i, j + 1);
    assert AllPosts(niposts)[..n][n - 1] == niposts[i].posts[j];
  }

  ghost predicate Seen(seen: set<nat>, posts: seq<Post>) {
    forall x :: x in seen <==> exists k :: 0 <= k < |posts| && posts[k].marriageIndex == x
  }

  lemma SeeOne(seen: set<nat>, posts: seq<Post>, p: Post)
    requires Seen(seen, posts) && DistinctIndices(posts)
    ensures DistinctIndices(posts + [p]) <==> p.marriageIndex !in seen
    ensures Seen(seen + {p.marriageIndex}, posts + [p])
  {
    var more := posts + [p];
    if p.marriageIndex in seen {
      var k :| 0 <= k < |posts| && posts[k].marriageIndex == p.marriageIndex;
      assert more[k].marriageIndex == more[|posts|].marriageIndex;
    }
    forall x
      ensures x in seen + {p.marriageIndex} <==> exists k :: 0 <= k < |more| && more[k].marriageIndex == x
    {
      if x in seen {
        var k :| 0 <= k < |posts| && posts[k].marriageIndex == x;
        assert more[k].marriageIndex == x;
      } else if x == p.marriageIndex {
        assert more[|posts|].marriageIndex == x;
      }
    }
  }

  lemma DistinctPrefix(posts: seq<Post>, n: nat)
    requires n <= |posts| && !DistinctIndices(posts[..n])
    ensures !DistinctIndices(posts)
  {
  }

  /** `verifyIncludedIDsUniqueness`. */
  method VerifyUnique(niposts: seq<Nipost>) returns (ok: bool)
    ensures ok <==> DistinctIndices(AllPosts(niposts))
  {
    hide Seen, DistinctIndices;
    var seen: set<nat> := {};
    NothingSeen();
    for i := 0 to |niposts|
      invariant Seen(seen, AllPosts(niposts[..i])) && DistinctIndices(AllPosts(niposts[..i]))
    {
      var posts := niposts[i].posts;
      ghost var before := AllPosts(niposts[..i]);
      assert before + posts[..0] == before;
      for j := 0 to |posts|
        invariant Seen(seen, before + posts[..j]) && DistinctIndices(before + posts[..j])
      {
        SeeOne(seen, before + posts[..j], posts[j]);
        Regroup(before, posts, j);
        if posts[j].marriageIndex in seen {
          PostsSoFar(niposts, i, j + 1);
          DistinctPrefix(AllPosts(niposts), |before| + j + 1);
          return false;
        }
        seen := seen + {posts[j].marriageIndex};
      }
      assert posts[..|posts|] == posts;
      AllPostsSplit(niposts, i);
    }
    assert niposts[..|niposts|] == niposts;
    return true;
  }

  lemma NothingSeen()
    ensures Seen({}, []) && DistinctIndices([])
  {
  }

  lemma Regroup<T>(before: seq<T>, s: seq<T>, j: nat)
    requires j < |s|
    ensures before + s[..j] + [s[j]] == before + s[..j + 1]
  {
  }

  // ---- The equivocation set ----

  ghost function Members(env: Env, rows: seq<NodeID>, id: nat): seq<NodeID> {
    if rows == [] then []
    else
      var rest, n := Members(env, rows[..|rows| - 1], id), rows[|rows| - 1];
      if n in env.marriages && env.marriages[n].id == id then rest + [n] else rest
  }

  lemma {:induction false} MembersDistinct(env: Env, rows: seq<NodeID>, id: nat)
    requires forall i, j :: 0 <= i < j < |rows| ==> rows[i] != rows[j]
    ensures forall n :: n in Members(env, rows, id) <==> n in rows && n in env.marriages && env.marriages[n].id == id
    ensures DistinctIds(Members(env, rows, id))
  {
    if rows != [] {
      var front, last := rows[..|rows| - 1], rows[|rows| - 1];
      MembersDistinct(env, front, id);
      assert last !in front;
      forall n
        ensures n in rows <==> n in front || n == last
      {
        assert rows == front + [last];
      }
    }
  }

  ghost predicate MarriageValid(env: Env, atx: Atx) {
    atx.marriage.None? || (
      && atx.smesher in env.marriages
      && env.marriages[atx.smesher].atx == atx.marriage.value
      && atx.marriage.value in env.epochs
      && env.epochs[atx.marriage.value] + 2 <= atx.epoch)
  }

  ghost function Equivocation(env: Env, atx: Atx): seq<NodeID>
    requires MarriageValid(env, atx)
  {
    if atx.marriage.None? then [atx.smesher]
    else Members(env, env.rows, env.marriages[atx.smesher].id)
  }

  method EquivocationSet(env: Env, atx: Atx) returns (r: Option<seq<NodeID>>)
    requires WellTyped(env, atx)
    ensures r.Some? <==> MarriageValid(env, atx)
    ensures r.Some? ==> r.value == Equivocation(env, atx)
  {
    if atx.marriage.None? {
      return Some([atx.smesher]);
    }
    if atx.smesher !in env.marriages {
      return None;
    }
    var info := env.marriages[atx.smesher];
    if atx.marriage.value != info.atx || info.atx !in env.epochs {
      return None;
    }
    if env.epochs[info.atx] + 2 > atx.epoch {
      return None;
    }
    var ids: seq<NodeID> := [];
    for i := 0 to |env.rows|
      invariant ids == Members(env, env.rows[..i], info.id)
    {
      assert env.rows[..i + 1][..i] == env.rows[..i];
      var n := env.rows[i];
      if n in env.marriages && env.marriages[n].id == info.id {
        ids := ids + [n];
      }
    }
    assert env.rows[..|env.rows|] == env.rows;
    return Some(ids);
  }

  /** The signer is in its own equivocation set, whose members are distinct. */
  lemma EquivocationDistinct(env: Env, atx: Atx)
    requires WellTyped(env, atx) && MarriageValid(env, atx)
    ensures atx.smesher in Equivocation(env, atx) && DistinctIds(Equivocation(env, atx))
  {
    if atx.marriage.Some? {
      MembersDistinct(env, env.rows, env.marriages[atx.smesher].id);
    }
  }

  // ---- Units ----

  ghost predicate PostResolves(env: Env, atx: Atx, ids: seq<NodeID>, p: Post) {
    && p.marriageIndex < |ids|
    && (atx.initial || (p.prevIndex < |atx.previous| && (atx.previous[p.prevIndex], ids[p.marriageIndex]) in env.units))
  }

  /** What one identity contributes: what it declares, at most what it had before. */
  ghost function Effective(env: Env, atx: Atx, ids: seq<NodeID>, p: Post): nat {
    if !PostResolves(env, atx, ids, p) then 0
    else if atx.initial then p.units
    else Min(env.units[(atx.previous[p.prevIndex], ids[p.marriageIndex])], p.units)
  }

  function Min(a: nat, b: nat): (m: nat)
    ensures m <= a && m <= b && (m == a || m == b)
  {
    if a < b then a else b
  }

  /** At most what was there before, at most what is declared, and one of the two; a first ATX
      contributes what it declares. */
  lemma EffectiveIs(env: Env, atx: Atx, ids: seq<NodeID>, p: Post)
    requires PostResolves(env, atx, ids, p)
    ensures var e := Effective(env, atx, ids, p);
      && (atx.initial ==> e == p.units)
      && (!atx.initial ==>
            var had := env.units[(atx.previous[p.prevIndex], ids[p.marriageIndex])];
            e <= had && e <= p.units && (e == had || e == p.units))
  {
  }

  ghost function TrueUnits(env: Env, atx: Atx, ids: seq<NodeID>, posts: seq<Post>): nat {
    if posts == [] then 0
    else TrueUnits(env, atx, ids, posts[..|posts| - 1]) + Effective(env, atx, ids, posts[|posts| - 1])
  }

  /** What remains when an addition that would overflow is skipped. */
  ghost function KeptUnits(env: Env, atx: Atx, ids: seq<NodeID>, posts: seq<Post>): nat {
    if posts == [] then 0
    else AddUnits(KeptUnits(env, atx, ids, posts[..|posts| - 1]), Effective(env, atx, ids, posts[|posts| - 1])).0
  }

  /** `nipostSize.addUnits`: the new count and whether the addition was made. */
  function AddUnits(units: nat, more: nat): (r: (nat, bool))
    ensures r.1 <==> units + more < U32
    ensures r.0 == if r.1 then units + more else units
  {
    var sum := (units + more) % U32;
    var carry := (units + more) / U32;
    if carry != 0 then (units, false) else (sum, true)
  }

  /** Dropping the overflow error loses units exactly when a NIPoST's units pass 32 bits. */
  lemma {:induction false} KeptIsTrueIff(env: Env, atx: Atx, ids: seq<NodeID>, posts: seq<Post>)
    ensures KeptUnits(env, atx, ids, posts) < U32
    ensures KeptUnits(env, atx, ids, posts) <= TrueUnits(env, atx, ids, posts)
    ensures KeptUnits(env, atx, ids, posts) == TrueUnits(env, atx, ids, posts) <==>
      TrueUnits(env, atx, ids, posts) < U32
  {
    hide Effective;
    if posts != [] {
      KeptIsTrueIff(env, atx, ids, posts[..|posts| - 1]);
    }
  }

  ghost predicate AllResolve(env: Env, atx: Atx, ids: seq<NodeID>, posts: seq<Post>) {
    forall j :: 0 <= j < |posts| ==> PostResolves(env, atx, ids, posts[j])
  }

  method ValidatePreviousAtx(env: Env, atx: Atx, ids: seq<NodeID>, p: Post) returns (units: Option<nat>)
    requires !atx.initial && p.marriageIndex < |ids|
    ensures units.Some? <==>
      p.prevIndex < |atx.previous| && (atx.previous[p.prevIndex], ids[p.marriageIndex]) in env.units
    ensures units.Some? ==> units.value == Effective(env, atx, ids, p)
    ensures units.Some? ==>
      var had := env.units[(atx.previous[p.prevIndex], ids[p.marriageIndex])];
      units.value <= had && units.value <= p.units && (units.value == had || units.value == p.units)
  {
    if p.prevIndex >= |atx.previous| {
      return None;
    }
    var key := (atx.previous[p.prevIndex], ids[p.marriageIndex]);
    if key !in env.units {
      return None;
    }
    return Some(Min(env.units[key], p.units));
  }

  method SizeNipost(env: Env, atx: Atx, ids: seq<NodeID>, posts: seq<Post>) returns (units: Option<nat>)
    ensures units.Some? <==> AllResolve(env, atx, ids, posts)
    ensures units.Some? ==> units.value == KeptUnits(env, atx, ids, posts)
  {
    var sum := 0;
    for j := 0 to |posts|
      invariant AllResolve(env, atx, ids, posts[..j]) && sum == KeptUnits(env, atx, ids, posts[..j])
    {
      assert posts[..j + 1][..j] == posts[..j];
      if posts[j].marriageIndex >= |ids| {
        return None;
      }
      var effective := posts[j].units;
      if !atx.initial {
        var known := ValidatePreviousAtx(env, atx, ids, posts[j]);
        if known.None? {
          return None;
        }
        effective := known.value;
      }
      sum := AddUnits(sum, effective).0;
    }
    assert posts[..|posts|] == posts;
    return Some(sum);
  }

  ghost function SizeOf(env: Env, atx: Atx, ids: seq<NodeID>, n: Nipost): Size
    requires env.tickSize > 0
  {
    Size(KeptUnits(env, atx, ids, n.posts), n.leaves / env.tickSize)
  }

  ghost function SizesOf(env: Env, atx: Atx, ids: seq<NodeID>, niposts: seq<Nipost>): seq<Size>
    requires env.tickSize > 0
  {
    if niposts == [] then []
    else SizesOf(env, atx, ids, niposts[..|niposts| - 1]) + [SizeOf(env, atx, ids, niposts[|niposts| - 1])]
  }

  ghost predicate NipostsResolve(env: Env, atx: Atx, ids: seq<NodeID>) {
    forall i :: 0 <= i < |atx.niposts| ==> NipostResolves(env, atx, ids, atx.niposts[i])
  }

  ghost predicate NipostResolves(env: Env, atx: Atx, ids: seq<NodeID>, n: Nipost) {
    AllResolve(env, atx, ids, n.posts) && n.member
  }

  method SizeNiposts(env: Env, atx: Atx, ids: seq<NodeID>) returns (r: Option<seq<Size>>)
    requires env.tickSize > 0
    ensures r.Some? <==> NipostsResolve(env, atx, ids)
    ensures r.Some? ==> r.value == SizesOf(env, atx, ids, atx.niposts)
  {
    hide KeptUnits, AllResolve;
    var units: seq<nat> := [];
    for i := 0 to |atx.niposts|
      invariant |units| == i
      invariant forall k :: 0 <= k < i ==> AllResolve(env, atx, ids, atx.niposts[k].posts)
      invariant forall k :: 0 <= k < i ==> units[k] == KeptUnits(env, atx, ids, atx.niposts[k].posts)
    {
      var u := SizeNipost(env, atx, ids, atx.niposts[i].posts);
      if u.None? {
        return None;
      }
      units := units + [u.value];
    }
    var sizes: seq<Size> := [];
    for i := 0 to |atx.niposts|
      invariant forall k :: 0 <= k < i ==> atx.niposts[k].member
      invariant sizes == SizesOf(env, atx, ids, atx.niposts[..i])
    {
      assert atx.niposts[..i + 1][..i] == atx.niposts[..i];
      if !atx.niposts[i].member {
        return None;
      }
      sizes := sizes + [Size(units[i], atx.niposts[i].leaves / env.tickSize)];
    }
    assert atx.niposts[..|atx.niposts|] == atx.niposts;
    return Some(sizes);
  }

  // ---- Summing up ----

  ghost function TotalUnits(sizes: seq<Size>): nat {
    if sizes == [] then 0 else TotalUnits(sizes[..|sizes| - 1]) + sizes[|sizes| - 1].units
  }

  ghost function TotalWeight(sizes: seq<Size>): nat {
    if sizes == [] then 0
    else TotalWeight(sizes[..|sizes| - 1]) + Rational.Product(sizes[|sizes| - 1].units, sizes[|sizes| - 1].ticks)
  }

  ghost predicate UnitsFit(sizes: seq<Size>) {
    forall i :: 0 <= i < |sizes| ==> sizes[i].units < U32
  }

  ghost predicate ProductsFit(sizes: seq<Size>) {
    forall i :: 0 <= i < |sizes| ==> Rational.Product(sizes[i].units, sizes[i].ticks) < U64
  }

  lemma {:induction false} UnitsBound(sizes: seq<Size>)
    requires UnitsFit(sizes)
    ensures TotalUnits(sizes) <= |sizes| * (U32 - 1)
  {
    if sizes != [] {
      UnitsBound(sizes[..|sizes| - 1]);
    }
  }

  method SumUp(sizes: seq<Size>) returns (ok: bool, units: nat, weight: nat)
    requires UnitsFit(sizes) && |sizes| <= U32
    ensures ok <==> ProductsFit(sizes) && TotalUnits(sizes) < U32
    ensures ok ==> units == TotalUnits(sizes) && weight == TotalWeight(sizes) % U64
  {
    units, weight := 0, 0;
    for i := 0 to |sizes|
      invariant ProductsFit(sizes[..i])
      invariant units == TotalUnits(sizes[..i]) && weight == TotalWeight(sizes[..i]) % U64
    {
      assert sizes[..i + 1][..i] == sizes[..i];
      UnitsBound(sizes[..i + 1]);
      units := (units + sizes[i].units) % U64;
      var product := Rational.Product(sizes[i].units, sizes[i].ticks);
      if product / U64 != 0 {
        return false, 0, 0;
      }
      AddWraps(TotalWeight(sizes[..i]), product);
      weight := (weight + product) % U64;
    }
    assert sizes[..|sizes|] == sizes;
    ok := units <= U32 - 1;
  }

  ghost predicate IsMinTicks(sizes: seq<Size>, m: nat) {
    && (forall i :: 0 <= i < |sizes| ==> m <= sizes[i].ticks)
    && (exists i :: 0 <= i < |sizes| && m == sizes[i].ticks)
  }

  method MinTicks(sizes: seq<Size>) returns (m: nat)
    requires sizes != []
    ensures IsMinTicks(sizes, m)
  {
    m := sizes[0].ticks;
    for i := 1 to |sizes|
      invariant IsMinTicks(sizes[..i], m)
    {
      ghost var before := m;
      ghost var k :| 0 <= k < |sizes[..i]| && before == sizes[..i][k].ticks;
      if sizes[i].ticks < m {
        m := sizes[i].ticks;
      }
      assert sizes[..i + 1][k] == sizes[..i][k] && sizes[..i + 1][i] == sizes[i];
    }
    assert sizes[..|sizes|] == sizes;
  }

  lemma Scale(a: nat, b: nat, c: nat)
    requires a <= b
    ensures Rational.Product(c, a) <= Rational.Product(c, b)
  {
  }

  lemma AddUnder(a: nat, b: nat, m: nat)
    ensures Rational.Product(a + b, m) == Rational.Product(a, m) + Rational.Product(b, m)
  {
  }

  /** The weight lies between total units times the smallest and the largest ticks. */
  lemma {:induction false} WeightBetween(sizes: seq<Size>, low: nat, high: nat)
    requires forall i :: 0 <= i < |sizes| ==> low <= sizes[i].ticks <= high
    ensures Rational.Product(TotalUnits(sizes), low) <= TotalWeight(sizes) <= Rational.Product(TotalUnits(sizes), high)
  {
    if sizes != [] {
      var front, last := sizes[..|sizes| - 1], sizes[|sizes| - 1];
      WeightBetween(front, low, high);
      Scale(low, last.ticks, last.units);
      Scale(last.ticks, high, last.units);
      AddUnder(TotalUnits(front), last.units, low);
      AddUnder(TotalUnits(front), last.units, high);
    }
  }

  /** Ticks of at most two to the 32 never wrap the weight. */
  lemma SmallTicksExact(sizes: seq<Size>)
    requires TotalUnits(sizes) < U32 && forall i :: 0 <= i < |sizes| ==> sizes[i].ticks <= U32
    ensures TotalWeight(sizes) < U64
  {
    WeightBetween(sizes, 0, U32);
  }

  // ---- Who is included ----

  ghost function Identities(ids: seq<NodeID>, posts: seq<Post>): seq<NodeID>
    requires forall j :: 0 <= j < |posts| ==> posts[j].marriageIndex < |ids|
  {
    seq(|posts|, j requires 0 <= j < |posts| => ids[posts[j].marriageIndex])
  }

  ghost predicate Proven(env: Env, ids: seq<NodeID>, posts: seq<Post>) {
    forall j :: 0 <= j < |posts| ==>
      posts[j].marriageIndex < |ids| && ids[posts[j].marriageIndex] in env.commitments && posts[j].proven
  }

  ghost predicate RecordedAs(data: map<NodeID, IdData>, n: NodeID, d: IdData) {
    n in data && data[n] == d
  }

  function DataOf(atx: Atx, p: Post): IdData
    requires p.prevIndex < |atx.previous|
  {
    IdData(Some(atx.previous[p.prevIndex]), p.prevIndex, p.units)
  }

  ghost predicate Recorded(atx: Atx, ids: seq<NodeID>, posts: seq<Post>, data: map<NodeID, IdData>) {
    && (forall j :: 0 <= j < |posts| ==> posts[j].marriageIndex < |ids| && posts[j].prevIndex < |atx.previous|)
    && (forall n :: n in data ==> exists j :: 0 <= j < |posts| && n == ids[posts[j].marriageIndex])
    && (forall j :: 0 <= j < |posts| ==> RecordedAs(data, ids[posts[j].marriageIndex], DataOf(atx, posts[j])))
  }

  ghost predicate DistinctIds(ids: seq<NodeID>) {
    forall i, j :: 0 <= i < j < |ids| ==> ids[i] != ids[j]
  }

  lemma RecordOne(atx: Atx, ids: seq<NodeID>, posts: seq<Post>, data: map<NodeID, IdData>, p: Post)
    requires Recorded(atx, ids, posts, data) && p.marriageIndex < |ids| && p.prevIndex < |atx.previous|
    requires DistinctIds(ids) && DistinctIndices(posts + [p])
    ensures Recorded(atx, ids, posts + [p], data[ids[p.marriageIndex] := DataOf(atx, p)])
  {
    var more := posts + [p];
    var id := ids[p.marriageIndex];
    var data' := data[id := DataOf(atx, p)];
    forall j | 0 <= j < |posts|
      ensures ids[posts[j].marriageIndex] != id
    {
      assert more[j].marriageIndex != more[|posts|].marriageIndex;
    }
    forall n | n in data'
      ensures exists j :: 0 <= j < |more| && n == ids[more[j].marriageIndex]
    {
      if n == id {
        assert more[|posts|] == p;
      } else {
        var j :| 0 <= j < |posts| && n == ids[posts[j].marriageIndex];
        assert more[j] == posts[j];
      }
    }
  }

  method CollectNipost(env: Env, atx: Atx, ids: seq<NodeID>, ghost before: seq<Post>, posts: seq<Post>,
      data: map<NodeID, IdData>)
    returns (r: Option<map<NodeID, IdData>>)
    requires AllResolve(env, atx, ids, posts) && !atx.initial
    requires DistinctIds(ids) && DistinctIndices(before + posts) && Recorded(atx, ids, before, data)
    ensures r.Some? <==> Proven(env, ids, posts)
    ensures r.Some? ==> Recorded(atx, ids, before + posts, r.value)
  {
    hide Recorded, DistinctIds, DistinctIndices;
    var done := data;
    assert before + posts[..0] == before;
    for j := 0 to |posts|
      invariant Proven(env, ids, posts[..j]) && Recorded(atx, ids, before + posts[..j], done)
    {
      var p := posts[j];
      var id := ids[p.marriageIndex];
      if id !in env.commitments || !p.proven {
        return None;
      }
      Regroup(before, posts, j);
      DistinctShorter(before, posts, j + 1);
      RecordOne(atx, ids, before + posts[..j], done, p);
      done := done[id := DataOf(atx, p)];
    }
    assert posts[..|posts|] == posts;
    return Some(done);
  }

  lemma DistinctShorter(before: seq<Post>, posts: seq<Post>, j: nat)
    requires DistinctIndices(before + posts) && j <= |posts|
    ensures DistinctIndices(before + posts[..j])
  {
    var all, some := before + posts, before + posts[..j];
    forall a, b | 0 <= a < b < |some|
      ensures some[a].marriageIndex != some[b].marriageIndex
    {
      assert some[a] == all[a] && some[b] == all[b];
    }
  }

  lemma DistinctWithin(niposts: seq<Nipost>, i: nat)
    requires i < |niposts| && DistinctIndices(AllPosts(niposts))
    ensures DistinctIndices(AllPosts(niposts[..i]) + niposts[i].posts)
  {
    var all, some := AllPosts(niposts), AllPosts(niposts[..i]) + niposts[i].posts;
    PostsSoFar(niposts, i, |niposts[i].posts|);
    assert niposts[i].posts[..|niposts[i].posts|] == niposts[i].posts;
    assert all[..|some|] == some;
    forall a, b | 0 <= a < b < |some|
      ensures some[a].marriageIndex != some[b].marriageIndex
    {
      assert some[a] == all[a] && some[b] == all[b];
    }
  }

  lemma {:induction false} ProvenPrefix(env: Env, ids: seq<NodeID>, niposts: seq<Nipost>, i: nat)
    requires i < |niposts| && !Proven(env, ids, niposts[i].posts)
    ensures !Proven(env, ids, AllPosts(niposts))
  {
    var j :| 0 <= j < |niposts[i].posts| &&
      !(var p := niposts[i].posts[j]; p.marriageIndex < |ids| && ids[p.marriageIndex] in env.commitments && p.proven);
    PostAt(niposts, i, j);
  }

  lemma ProvenConcat(env: Env, ids: seq<NodeID>, a: seq<Post>, b: seq<Post>)
    requires Proven(env, ids, a) && Proven(env, ids, b)
    ensures Proven(env, ids, a + b)
  {
  }

  lemma NothingRecorded(env: Env, atx: Atx, ids: seq<NodeID>)
    ensures Recorded(atx, ids, [], map[]) && Proven(env, ids, [])
  {
  }

  method CollectIds(env: Env, atx: Atx, ids: seq<NodeID>) returns (r: Option<map<NodeID, IdData>>)
    requires NipostsResolve(env, atx, ids) && !atx.initial
    requires DistinctIds(ids) && DistinctIndices(AllPosts(atx.niposts))
    ensures r.Some? <==> Proven(env, ids, AllPosts(atx.niposts))
    ensures r.Some? ==> Recorded(atx, ids, AllPosts(atx.niposts), r.value)
  {
    hide Recorded, DistinctIds, DistinctIndices, Proven, PostResolves;
    var niposts := atx.niposts;
    var data: map<NodeID, IdData> := map[];
    NothingRecorded(env, atx, ids);
    for i := 0 to |niposts|
      invariant Proven(env, ids, AllPosts(niposts[..i])) && Recorded(atx, ids, AllPosts(niposts[..i]), data)
    {
      DistinctWithin(niposts, i);
      assert NipostResolves(env, atx, ids, atx.niposts[i]);
      var more := CollectNipost(env, atx, ids, AllPosts(niposts[..i]), niposts[i].posts, data);
      if more.None? {
        ProvenPrefix(env, ids, niposts, i);
        return None;
      }
      data := more.value;
      AllPostsSplit(niposts, i);
      ProvenConcat(env, ids, AllPosts(niposts[..i]), niposts[i].posts);
    }
    assert niposts[..|niposts|] == niposts;
    return Some(data);
  }

  // ---- Acceptance ----

  ghost predicate Shape(atx: Atx) {
    && (atx.marriage.None? ==>
          |atx.niposts| == 1 && |atx.niposts[0].posts| == 1 && atx.niposts[0].posts[0].prevIndex == 0)
    && (atx.initial ==> atx.marriage.None? && atx.previous == [])
    && (!atx.initial && atx.marriage.Some? ==> DistinctIndices(AllPosts(atx.niposts)))
    && (!atx.initial && atx.marriage.None? ==> |atx.previous| == 1)
  }

  ghost predicate PreviousOlder(env: Env, atx: Atx) {
    forall k :: 0 <= k < |atx.previous| ==> atx.previous[k] in env.epochs && env.epochs[atx.previous[k]] < atx.epoch
  }

  ghost predicate Includes(ids: seq<NodeID>, posts: seq<Post>, n: NodeID) {
    exists j :: 0 <= j < |posts| && posts[j].marriageIndex < |ids| && ids[posts[j].marriageIndex] == n
  }

  ghost predicate ProofsHold(env: Env, atx: Atx, ids: seq<NodeID>)
    requires Shape(atx)
  {
    if atx.initial then atx.niposts[0].posts[0].proven
    else Proven(env, ids, AllPosts(atx.niposts)) && Includes(ids, AllPosts(atx.niposts), atx.smesher)
  }

  ghost predicate Acceptable(env: Env, atx: Atx)
    requires WellTyped(env, atx)
  {
    && Shape(atx) && PreviousOlder(env, atx) && MarriageValid(env, atx) && atx.nonceValid
    && var ids := Equivocation(env, atx);
       && NipostsResolve(env, atx, ids) && ProofsHold(env, atx, ids)
       && ProductsFit(SizesOf(env, atx, ids, atx.niposts)) && TotalUnits(SizesOf(env, atx, ids, atx.niposts)) < U32
  }

  ghost predicate IsResult(env: Env, atx: Atx, o: Outcome)
    requires WellTyped(env, atx) && MarriageValid(env, atx) && Shape(atx)
  {
    var ids := Equivocation(env, atx);
    var sizes := SizesOf(env, atx, ids, atx.niposts);
    && o.Accepted?
    && o.units == TotalUnits(sizes) && o.weight == TotalWeight(sizes) % U64 && IsMinTicks(sizes, o.ticks)
    && if atx.initial then o.ids == map[atx.smesher := IdData(None, 0, atx.niposts[0].posts[0].units)]
       else Recorded(atx, ids, AllPosts(atx.niposts), o.ids)
  }

  lemma {:induction false} SizesFit(env: Env, atx: Atx, ids: seq<NodeID>, niposts: seq<Nipost>)
    requires env.tickSize > 0
    ensures var sizes := SizesOf(env, atx, ids, niposts); UnitsFit(sizes) && |sizes| == |niposts|
    ensures forall i :: 0 <= i < |niposts| ==> SizesOf(env, atx, ids, niposts)[i] == SizeOf(env, atx, ids, niposts[i])
  {
    if niposts != [] {
      SizesFit(env, atx, ids, niposts[..|niposts| - 1]);
      KeptIsTrueIff(env, atx, ids, niposts[|niposts| - 1].posts);
    }
  }

  lemma SoloPosts(atx: Atx)
    requires |atx.niposts| == 1 && |atx.niposts[0].posts| == 1
    ensures AllPosts(atx.niposts) == atx.niposts[0].posts && DistinctIndices(AllPosts(atx.niposts))
  {
  }

  method CheckShape(atx: Atx) returns (ok: bool)
    ensures ok <==> Shape(atx)
  {
    hide DistinctIndices;
    if atx.marriage.None? {
      if |atx.niposts| != 1 || |atx.niposts[0].posts| != 1 || atx.niposts[0].posts[0].prevIndex != 0 {
        return false;
      }
    }
    if atx.initial {
      return atx.marriage.None? && atx.previous == [];
    }
    if atx.marriage.Some? {
      ok := VerifyUnique(atx.niposts);
    } else {
      ok := |atx.previous| == 1;
    }
  }

  method CheckPrevious(env: Env, atx: Atx) returns (ok: bool)
    ensures ok <==> PreviousOlder(env, atx)
  {
    for k := 0 to |atx.previous|
      invariant forall m :: 0 <= m < k ==> atx.previous[m] in env.epochs && env.epochs[atx.previous[m]] < atx.epoch
    {
      if atx.previous[k] !in env.epochs || env.epochs[atx.previous[k]] >= atx.epoch {
        return false;
      }
    }
    return true;
  }

  lemma RecordedIncludes(env: Env, atx: Atx, ids: seq<NodeID>, posts: seq<Post>, data: map<NodeID, IdData>)
    requires Recorded(atx, ids, posts, data)
    ensures atx.smesher in data <==> Includes(ids, posts, atx.smesher)
  {
  }

  /** The syntactic checks and `syntacticallyValidateDeps`, as far as identities, units and
      weight go. */
  method Validate(env: Env, atx: Atx) returns (o: Outcome)
    requires WellTyped(env, atx)
    ensures o.Accepted? <==> Acceptable(env, atx)
    ensures o.Accepted? ==> IsResult(env, atx, o)
  {
    hide PreviousOlder, NipostsResolve, SizesOf, TotalUnits, TotalWeight, ProductsFit, UnitsFit, IsMinTicks, Proven,
      Includes, Recorded, DistinctIndices, DistinctIds, Members;
    var shaped := CheckShape(atx);
    if !shaped {
      return Rejected;
    }
    var older := CheckPrevious(env, atx);
    if !older {
      return Rejected;
    }
    var set' := EquivocationSet(env, atx);
    if set'.None? {
      return Rejected;
    }
    var ids := set'.value;
    var sizes := SizeNiposts(env, atx, ids);
    if sizes.None? {
      return Rejected;
    }
    SizesFit(env, atx, ids, atx.niposts);
    var fits, units, weight := SumUp(sizes.value);
    if !fits {
      return Rejected;
    }
    o := Conclude(env, atx, ids, sizes.value, units, weight);
  }

  method Conclude(env: Env, atx: Atx, ids: seq<NodeID>, sizes: seq<Size>, units: nat, weight: nat) returns (o: Outcome)
    requires WellTyped(env, atx) && Shape(atx) && MarriageValid(env, atx) && ids == Equivocation(env, atx)
    requires NipostsResolve(env, atx, ids) && sizes == SizesOf(env, atx, ids, atx.niposts)
    requires units == TotalUnits(sizes) && weight == TotalWeight(sizes) % U64
    ensures o.Accepted? <==> ProofsHold(env, atx, ids) && atx.nonceValid
    ensures o.Accepted? ==> IsResult(env, atx, o)
  {
    hide NipostsResolve, SizesOf, TotalUnits, TotalWeight, IsMinTicks, Proven, Includes, Recorded, DistinctIndices,
      Members, Equivocation, MarriageValid;
    SizesFit(env, atx, ids, atx.niposts);
    var data: map<NodeID, IdData>;
    if atx.initial {
      var post := atx.niposts[0].posts[0];
      if !post.proven {
        return Rejected;
      }
      data := map[atx.smesher := IdData(None, 0, post.units)];
    } else {
      var collected := CheckPosts(env, atx, ids);
      if collected.None? {
        return Rejected;
      }
      data := collected.value;
    }
    if !atx.nonceValid {
      return Rejected;
    }
    var ticks := MinTicks(sizes);
    return Accepted(units, weight, ticks, data);
  }

  method CheckPosts(env: Env, atx: Atx, ids: seq<NodeID>) returns (r: Option<map<NodeID, IdData>>)
    requires WellTyped(env, atx) && Shape(atx) && MarriageValid(env, atx) && ids == Equivocation(env, atx)
    requires NipostsResolve(env, atx, ids) && !atx.initial
    ensures r.Some? <==> ProofsHold(env, atx, ids)
    ensures r.Some? ==> Recorded(atx, ids, AllPosts(atx.niposts), r.value) && atx.niposts != []
  {
    hide WellTyped, NipostsResolve, Proven, Includes, Recorded, DistinctIndices, DistinctIds, Equivocation,
      MarriageValid, AllPosts;
    EquivocationDistinct(env, atx);
    if atx.marriage.None? {
      SoloPosts(atx);
    }
    r := CollectIds(env, atx, ids);
    if r.None? {
      return;
    }
    RecordedIncludes(env, atx, ids, AllPosts(atx.niposts), r.value);
    if atx.smesher !in r.value {
      return None;
    }
    IncludedHasNipost(ids, atx.niposts, atx.smesher);
  }

  lemma IncludedHasNipost(ids: seq<NodeID>, niposts: seq<Nipost>, n: NodeID)
    requires Includes(ids, AllPosts(niposts), n)
    ensures niposts != []
  {
  }

  // ---- What acceptance means ----

  /** The rules on one post, in terms of the tables. */
  ghost predicate PostFine(env: Env, atx: Atx, ids: seq<NodeID>, p: Post) {
    && p.marriageIndex < |ids| && p.proven
    && (!atx.initial ==>
          && p.prevIndex < |atx.previous|
          && (atx.previous[p.prevIndex], ids[p.marriageIndex]) in env.units
          && ids[p.marriageIndex] in env.commitments)
  }

  /** The rules on the parts of an ATX: alone or merged, first or not. */
  ghost predicate PartsFine(env: Env, atx: Atx) {
    var posts := AllPosts(atx.niposts);
    && (atx.initial ==> atx.marriage.None? && |atx.previous| == 0)
    && (atx.marriage.None? ==> |atx.niposts| == |posts| == 1 && posts[0].prevIndex == 0)
    && (atx.marriage.None? && !atx.initial ==> |atx.previous| == 1)
    && (atx.marriage.Some? ==>
          && (forall i, j :: 0 <= i < j < |posts| ==> posts[i].marriageIndex != posts[j].marriageIndex)
          && atx.smesher in env.marriages && env.marriages[atx.smesher].atx == atx.marriage.value
          && atx.marriage.value in env.epochs && env.epochs[atx.marriage.value] + 2 <= atx.epoch)
    && (forall k :: 0 <= k < |atx.previous| ==>
          atx.previous[k] in env.epochs && env.epochs[atx.previous[k]] < atx.epoch)
    && (forall i :: 0 <= i < |atx.niposts| ==> atx.niposts[i].member)
    && atx.nonceValid
  }

  /** The arithmetic rules: every product fits 64 bits and all units together 32. */
  ghost predicate NumbersFine(env: Env, atx: Atx, ids: seq<NodeID>)
    requires env.tickSize > 0
  {
    && (forall i :: 0 <= i < |atx.niposts| ==>
          KeptUnits(env, atx, ids, atx.niposts[i].posts) * (atx.niposts[i].leaves / env.tickSize) < U64)
    && AllKept(env, atx, ids, atx.niposts) < U32
  }

  ghost function AllKept(env: Env, atx: Atx, ids: seq<NodeID>, niposts: seq<Nipost>): nat {
    if niposts == [] then 0
    else AllKept(env, atx, ids, niposts[..|niposts| - 1]) + KeptUnits(env, atx, ids, niposts[|niposts| - 1].posts)
  }

  lemma {:induction false} AllKeptIs(env: Env, atx: Atx, ids: seq<NodeID>, niposts: seq<Nipost>)
    requires env.tickSize > 0
    ensures TotalUnits(SizesOf(env, atx, ids, niposts)) == AllKept(env, atx, ids, niposts)
  {
    if niposts != [] {
      AllKeptIs(env, atx, ids, niposts[..|niposts| - 1]);
      SizesLast(env, atx, ids, niposts);
    }
  }

  lemma {:induction false} NumbersIff(env: Env, atx: Atx, ids: seq<NodeID>)
    requires env.tickSize > 0
    ensures var sizes := SizesOf(env, atx, ids, atx.niposts);
      NumbersFine(env, atx, ids) <==> ProductsFit(sizes) && TotalUnits(sizes) < U32
  {
    AllKeptIs(env, atx, ids, atx.niposts);
    SizesFit(env, atx, ids, atx.niposts);
    hide KeptUnits, SizesOf, TotalUnits, AllKept;
  }

  lemma {:induction false} ShapeIff(env: Env, atx: Atx)
    ensures PartsFine(env, atx) <==>
      && Shape(atx) && PreviousOlder(env, atx) && MarriageValid(env, atx) && atx.nonceValid
      && forall i :: 0 <= i < |atx.niposts| ==> atx.niposts[i].member
  {
    if |atx.niposts| == 1 {
      OnePosts(atx);
    }
  }

  lemma OnePosts(atx: Atx)
    requires |atx.niposts| == 1
    ensures AllPosts(atx.niposts) == atx.niposts[0].posts
  {
    assert AllPosts(atx.niposts[..0]) == [];
  }

  /** Resolving and proving, per NIPoST or over all posts, is the same. */
  lemma {:induction false} PostsFineIff(env: Env, atx: Atx, ids: seq<NodeID>)
    requires PartsFine(env, atx) && Shape(atx)
    ensures AllFine(env, atx, ids, AllPosts(atx.niposts)) <==>
      && AllResolve(env, atx, ids, AllPosts(atx.niposts))
      && (if atx.initial then atx.niposts[0].posts[0].proven else Proven(env, ids, AllPosts(atx.niposts)))
  {
    var posts := AllPosts(atx.niposts);
    if atx.initial {
      SoloPosts(atx);
    }
    hide AllPosts, PartsFine;
    if AllFine(env, atx, ids, posts) {
      assert forall j :: 0 <= j < |posts| ==> PostFine(env, atx, ids, posts[j]);
    }
  }

  lemma {:induction false} NipostsResolveIff(env: Env, atx: Atx, ids: seq<NodeID>, niposts: seq<Nipost>)
    ensures AllResolve(env, atx, ids, AllPosts(niposts)) <==>
      forall i :: 0 <= i < |niposts| ==> AllResolve(env, atx, ids, niposts[i].posts)
  {
    hide PostResolves;
    if niposts != [] {
      var front, last := niposts[..|niposts| - 1], niposts[|niposts| - 1];
      NipostsResolveIff(env, atx, ids, front);
      ResolveConcat(env, atx, ids, AllPosts(front), last.posts);
      assert forall i :: 0 <= i < |front| ==> front[i] == niposts[i];
    }
  }

  lemma ResolveConcat(env: Env, atx: Atx, ids: seq<NodeID>, a: seq<Post>, b: seq<Post>)
    ensures AllResolve(env, atx, ids, a + b) <==> AllResolve(env, atx, ids, a) && AllResolve(env, atx, ids, b)
  {
    hide PostResolves;
    var all := a + b;
    assert forall j :: 0 <= j < |b| ==> all[|a| + j] == b[j];
    assert forall j :: 0 <= j < |a| ==> all[j] == a[j];
  }

  ghost predicate AllFine(env: Env, atx: Atx, ids: seq<NodeID>, posts: seq<Post>) {
    forall p :: p in posts ==> PostFine(env, atx, ids, p)
  }

  ghost predicate HasSigner(ids: seq<NodeID>, posts: seq<Post>, n: NodeID) {
    exists p :: p in posts && p.marriageIndex < |ids| && ids[p.marriageIndex] == n
  }

  lemma IncludesIff(ids: seq<NodeID>, posts: seq<Post>, n: NodeID)
    ensures Includes(ids, posts, n) <==> HasSigner(ids, posts, n)
  {
    if Includes(ids, posts, n) {
      var j :| 0 <= j < |posts| && posts[j].marriageIndex < |ids| && ids[posts[j].marriageIndex] == n;
      assert posts[j] in posts;
    }
  }

  lemma {:induction false} PostsPart(env: Env, atx: Atx, ids: seq<NodeID>)
    requires PartsFine(env, atx) && Shape(atx)
    requires forall i :: 0 <= i < |atx.niposts| ==> atx.niposts[i].member
    ensures NipostsResolve(env, atx, ids) && ProofsHold(env, atx, ids) <==>
      && AllFine(env, atx, ids, AllPosts(atx.niposts))
      && (!atx.initial ==> HasSigner(ids, AllPosts(atx.niposts), atx.smesher))
  {
    hide PartsFine, Shape, AllPosts, AllResolve, Proven, Includes, PostFine, HasSigner;
    PostsFineIff(env, atx, ids);
    NipostsResolveIff(env, atx, ids, atx.niposts);
    IncludesIff(ids, AllPosts(atx.niposts), atx.smesher);
    assert NipostsResolve(env, atx, ids) <==> forall i :: 0 <= i < |atx.niposts| ==>
      AllResolve(env, atx, ids, atx.niposts[i].posts);
  }

  /** An ATX is accepted exactly when its parts, its posts and its numbers are fine and, unless it is
      a first one, its signer is among the identities. */
  lemma {:induction false} AcceptableIff(env: Env, atx: Atx)
    requires WellTyped(env, atx)
    ensures Acceptable(env, atx) <==>
      && PartsFine(env, atx)
      && var ids := Counted(env, atx);
         && AllFine(env, atx, ids, AllPosts(atx.niposts))
         && (!atx.initial ==> HasSigner(ids, AllPosts(atx.niposts), atx.smesher))
         && NumbersFine(env, atx, ids)
  {
    ShapeIff(env, atx);
    if PartsFine(env, atx) {
      var ids := Equivocation(env, atx);
      CountedIs(env, atx);
      PostsPart(env, atx, ids);
      NumbersIff(env, atx, ids);
      hide PartsFine, Shape, PreviousOlder, MarriageValid, NumbersFine, Equivocation, Counted, AllPosts, SizesOf,
        TotalUnits, ProductsFit, NipostsResolve, ProofsHold, AllFine, HasSigner, WellTyped;
    }
  }

  /** The identities an ATX may count: its signer, or the rows with the signer's marriage ID. */
  ghost function Counted(env: Env, atx: Atx): seq<NodeID> {
    if atx.marriage.None? || atx.smesher !in env.marriages then [atx.smesher]
    else Members(env, env.rows, env.marriages[atx.smesher].id)
  }

  lemma CountedIs(env: Env, atx: Atx)
    requires MarriageValid(env, atx)
    ensures Equivocation(env, atx) == Counted(env, atx)
  {
  }

  /** No identity is counted twice, and the recorded identities are exactly those of the
      posts. */
  lemma {:induction false} CountedOnce(env: Env, atx: Atx, o: Outcome)
    requires WellTyped(env, atx) && Acceptable(env, atx) && IsResult(env, atx, o)
    ensures var ids, posts := Equivocation(env, atx), AllPosts(atx.niposts);
      && (forall j :: 0 <= j < |posts| ==> posts[j].marriageIndex < |ids|)
      && DistinctIds(Identities(ids, posts))
      && forall n :: n in o.ids <==> n in Identities(ids, posts)
  {
    hide SizesOf, TotalUnits, TotalWeight, ProductsFit, IsMinTicks, PreviousOlder, Members, AllPosts, Recorded,
      ProofsHold, PostResolves, DistinctIndices;
    var ids, posts := Equivocation(env, atx), AllPosts(atx.niposts);
    PostsResolve(env, atx, ids, atx.niposts);
    ResolvedIndices(env, atx, ids, posts);
    EquivocationDistinct(env, atx);
    if atx.marriage.None? {
      SoloPosts(atx);
    }
    IdentitiesDistinct(ids, posts);
    if atx.initial {
      assert Identities(ids, posts)[0] == atx.smesher;
    } else {
      RecordedIdentities(atx, ids, posts, o.ids);
    }
  }

  lemma ResolvedIndices(env: Env, atx: Atx, ids: seq<NodeID>, posts: seq<Post>)
    requires AllResolve(env, atx, ids, posts)
    ensures forall j :: 0 <= j < |posts| ==> posts[j].marriageIndex < |ids|
  {
  }

  lemma IdentitiesDistinct(ids: seq<NodeID>, posts: seq<Post>)
    requires DistinctIds(ids) && DistinctIndices(posts)
    requires forall j :: 0 <= j < |posts| ==> posts[j].marriageIndex < |ids|
    ensures DistinctIds(Identities(ids, posts))
  {
    forall i, j | 0 <= i < j < |posts|
      ensures Identities(ids, posts)[i] != Identities(ids, posts)[j]
    {
      assert posts[i].marriageIndex != posts[j].marriageIndex;
    }
  }

  /** Identity data made of a post. */
  ghost predicate MadeOf(atx: Atx, data: IdData, p: Post) {
    && data.units == p.units && data.previousIndex == p.prevIndex
    && (atx.initial ==> data.previous == None)
    && (!atx.initial ==> p.prevIndex < |atx.previous| && data.previous == Some(atx.previous[p.prevIndex]))
  }

  /** What is kept of each identity: the previous ATX and the units that its post names. */
  lemma {:induction false} RecordsPosts(env: Env, atx: Atx, o: Outcome, p: Post)
    requires WellTyped(env, atx) && Acceptable(env, atx) && IsResult(env, atx, o) && p in AllPosts(atx.niposts)
    ensures var ids := Equivocation(env, atx);
      p.marriageIndex < |ids| && ids[p.marriageIndex] in o.ids && MadeOf(atx, o.ids[ids[p.marriageIndex]], p)
  {
    hide SizesOf, TotalUnits, TotalWeight, ProductsFit, IsMinTicks, PreviousOlder, Members, AllPosts, Recorded,
      ProofsHold, WellTyped, MarriageValid, DistinctIndices;
    if atx.initial {
      FirstRecorded(env, atx, p);
    } else {
      RecordedMadeOf(atx, Equivocation(env, atx), AllPosts(atx.niposts), o.ids, p);
    }
  }

  lemma FirstRecorded(env: Env, atx: Atx, p: Post)
    requires atx.initial && Shape(atx) && MarriageValid(env, atx) && p in AllPosts(atx.niposts)
    requires NipostsResolve(env, atx, Equivocation(env, atx))
    ensures Equivocation(env, atx) == [atx.smesher] && p == atx.niposts[0].posts[0]
    ensures p.marriageIndex == 0 && p.prevIndex == 0
  {
    OnePosts(atx);
    hide AllPosts;
    assert NipostResolves(env, atx, [atx.smesher], atx.niposts[0]);
    assert PostResolves(env, atx, [atx.smesher], atx.niposts[0].posts[0]);
  }

  lemma RecordedMadeOf(atx: Atx, ids: seq<NodeID>, posts: seq<Post>, data: map<NodeID, IdData>, p: Post)
    requires !atx.initial && Recorded(atx, ids, posts, data) && p in posts
    ensures p.marriageIndex < |ids| && ids[p.marriageIndex] in data && MadeOf(atx, data[ids[p.marriageIndex]], p)
  {
    var j :| 0 <= j < |posts| && posts[j] == p;
    assert RecordedAs(data, ids[posts[j].marriageIndex], DataOf(atx, posts[j]));
  }

  lemma RecordedIdentities(atx: Atx, ids: seq<NodeID>, posts: seq<Post>, data: map<NodeID, IdData>)
    requires Recorded(atx, ids, posts, data)
    ensures forall n :: n in data <==> n in Identities(ids, posts)
  {
    forall n
      ensures n in data <==> n in Identities(ids, posts)
    {
      if n in data {
        var j :| 0 <= j < |posts| && n == ids[posts[j].marriageIndex];
        assert Identities(ids, posts)[j] == n;
      }
      if n in Identities(ids, posts) {
        var j :| 0 <= j < |posts| && Identities(ids, posts)[j] == n;
        assert RecordedAs(data, ids[posts[j].marriageIndex], DataOf(atx, posts[j]));
      }
    }
  }

  lemma {:induction false} PostsResolve(env: Env, atx: Atx, ids: seq<NodeID>, niposts: seq<Nipost>)
    requires forall i :: 0 <= i < |niposts| ==> NipostResolves(env, atx, ids, niposts[i])
    ensures AllResolve(env, atx, ids, AllPosts(niposts))
  {
    hide PostResolves;
    if niposts != [] {
      PostsResolve(env, atx, ids, niposts[..|niposts| - 1]);
      assert NipostResolves(env, atx, ids, niposts[|niposts| - 1]);
    }
  }

  lemma {:induction false} TrueUnitsConcat(env: Env, atx: Atx, ids: seq<NodeID>, a: seq<Post>, b: seq<Post>)
    ensures TrueUnits(env, atx, ids, a + b) == TrueUnits(env, atx, ids, a) + TrueUnits(env, atx, ids, b)
  {
    hide Effective;
    if b == [] {
      assert a + b == a;
    } else {
      assert (a + b)[..|a + b| - 1] == a + b[..|b| - 1];
      TrueUnitsConcat(env, atx, ids, a, b[..|b| - 1]);
    }
  }

  ghost predicate NoneOverflows(env: Env, atx: Atx, ids: seq<NodeID>, niposts: seq<Nipost>) {
    forall i :: 0 <= i < |niposts| ==> TrueUnits(env, atx, ids, niposts[i].posts) < U32
  }

  lemma {:induction false} UnitsTrueIff(env: Env, atx: Atx, ids: seq<NodeID>, niposts: seq<Nipost>)
    requires env.tickSize > 0
    ensures TotalUnits(SizesOf(env, atx, ids, niposts)) <= TrueUnits(env, atx, ids, AllPosts(niposts))
    ensures TotalUnits(SizesOf(env, atx, ids, niposts)) == TrueUnits(env, atx, ids, AllPosts(niposts))
      <==> NoneOverflows(env, atx, ids, niposts)
  {
    hide KeptUnits;
    if niposts != [] {
      var front, last := niposts[..|niposts| - 1], niposts[|niposts| - 1];
      UnitsTrueIff(env, atx, ids, front);
      KeptIsTrueIff(env, atx, ids, last.posts);
      TrueUnitsConcat(env, atx, ids, AllPosts(front), last.posts);
      SizesLast(env, atx, ids, niposts);
      NoneOverflowsLast(env, atx, ids, niposts);
    }
  }

  lemma SizesLast(env: Env, atx: Atx, ids: seq<NodeID>, niposts: seq<Nipost>)
    requires env.tickSize > 0 && niposts != []
    ensures TotalUnits(SizesOf(env, atx, ids, niposts)) ==
      TotalUnits(SizesOf(env, atx, ids, niposts[..|niposts| - 1])) +
        KeptUnits(env, atx, ids, niposts[|niposts| - 1].posts)
  {
  }

  lemma NoneOverflowsLast(env: Env, atx: Atx, ids: seq<NodeID>, niposts: seq<Nipost>)
    requires niposts != []
    ensures NoneOverflows(env, atx, ids, niposts) <==>
      && NoneOverflows(env, atx, ids, niposts[..|niposts| - 1])
      && TrueUnits(env, atx, ids, niposts[|niposts| - 1].posts) < U32
  {
  }

  /** The effective units of an accepted ATX are the sum over its identities exactly when no
      NIPoST's own sum passes 32 bits; otherwise they are less. */
  lemma {:induction false} AcceptedUnits(env: Env, atx: Atx, o: Outcome)
    requires WellTyped(env, atx) && Acceptable(env, atx) && IsResult(env, atx, o)
    ensures var ids := Equivocation(env, atx);
      && o.units <= TrueUnits(env, atx, ids, AllPosts(atx.niposts))
      && (o.units == TrueUnits(env, atx, ids, AllPosts(atx.niposts)) <==> NoneOverflows(env, atx, ids, atx.niposts))
  {
    hide TotalUnits, SizesOf, TrueUnits, NoneOverflows, AllPosts;
    UnitsTrueIff(env, atx, Equivocation(env, atx), atx.niposts);
  }

  /** The weight of an accepted ATX is the exact sum of units times ticks, and at least all
      units times the fewest ticks, exactly as long as that sum fits 64 bits; ticks of at most
      two to the 32 are enough for that. */
  lemma AcceptedWeight(env: Env, atx: Atx, o: Outcome)
    requires WellTyped(env, atx) && Acceptable(env, atx) && IsResult(env, atx, o)
    ensures var sizes := SizesOf(env, atx, Equivocation(env, atx), atx.niposts);
      && (o.weight == TotalWeight(sizes) <==> TotalWeight(sizes) < U64)
      && (TotalWeight(sizes) < U64 ==> Rational.Product(o.units, o.ticks) <= o.weight)
      && ((forall i :: 0 <= i < |sizes| ==> sizes[i].ticks <= U32) ==> TotalWeight(sizes) < U64)
  {
    var sizes := SizesOf(env, atx, Equivocation(env, atx), atx.niposts);
    WeightsOf(sizes, o.ticks, o.weight);
    hide SizesOf, TotalWeight, TotalUnits, Equivocation;
  }

  /** A NIPoST's size: the units kept of its identities, and its PoET's leaves in ticks. */
  lemma {:induction false} SizesAre(env: Env, atx: Atx, ids: seq<NodeID>, i: nat)
    requires env.tickSize > 0 && i < |atx.niposts|
    ensures var sizes := SizesOf(env, atx, ids, atx.niposts);
      && |sizes| == |atx.niposts|
      && sizes[i].units == KeptUnits(env, atx, ids, atx.niposts[i].posts)
      && sizes[i].ticks == atx.niposts[i].leaves / env.tickSize
  {
    SizesFit(env, atx, ids, atx.niposts);
    hide SizesOf, KeptUnits;
  }

  lemma WeightsOf(sizes: seq<Size>, ticks: nat, weight: nat)
    requires TotalUnits(sizes) < U32 && IsMinTicks(sizes, ticks) && weight == TotalWeight(sizes) % U64
    ensures weight == TotalWeight(sizes) <==> TotalWeight(sizes) < U64
    ensures TotalWeight(sizes) < U64 ==> Rational.Product(TotalUnits(sizes), ticks) <= weight
    ensures (forall i :: 0 <= i < |sizes| ==> sizes[i].ticks <= U32) ==> TotalWeight(sizes) < U64
  {
    var high := MostTicks(sizes);
    WeightBetween(sizes, ticks, high);
    if forall i :: 0 <= i < |sizes| ==> sizes[i].ticks <= U32 {
      SmallTicksExact(sizes);
    }
  }

  ghost function MostTicks(sizes: seq<Size>): (m: nat)
    ensures forall i :: 0 <= i < |sizes| ==> sizes[i].ticks <= m
  {
    if sizes == [] then 0
    else
      var m, last := MostTicks(sizes[..|sizes| - 1]), sizes[|sizes| - 1].ticks;
      if last > m then last else m
  }

  // ---- Where the arithmetic gives way ----

  function Couple(tickSize: nat): Env {
    Env(map[10 := 0, 11 := 1], map[(11, 1) := U32 - 1, (11, 2) := U32 - 1], map[1 := 3, 2 := 3],
      map[1 := MarriageRow(0, 10), 2 := MarriageRow(0, 10)], [1, 2], tickSize)
  }

  lemma CoupleMembers(tickSize: nat)
    ensures Members(Couple(tickSize), [1, 2], 0) == [1, 2]
  {
    var e := Couple(tickSize);
    assert [1, 2][..1] == [1] && [1][..0] == [];
    assert Members(e, [1], 0) == [1];
  }

  lemma TwoPosts(a: Nipost, b: Nipost)
    ensures AllPosts([a]) == a.posts && AllPosts([a, b]) == a.posts + b.posts
  {
  }

  lemma UnitsOfTwo(env: Env, atx: Atx, ids: seq<NodeID>, p: Post, q: Post)
    ensures TrueUnits(env, atx, ids, [p, q]) == Effective(env, atx, ids, p) + Effective(env, atx, ids, q)
    ensures KeptUnits(env, atx, ids, [p, q]) ==
      AddUnits(AddUnits(0, Effective(env, atx, ids, p)).0, Effective(env, atx, ids, q)).0
    ensures KeptUnits(env, atx, ids, [p]) == AddUnits(0, Effective(env, atx, ids, p)).0
  {
    hide Effective;
    assert [p, q][..1] == [p] && [p][..0] == [];
    assert TrueUnits(env, atx, ids, [p]) == Effective(env, atx, ids, p);
    assert KeptUnits(env, atx, ids, [p]) == AddUnits(0, Effective(env, atx, ids, p)).0;
  }

  lemma OneSize(env: Env, atx: Atx, ids: seq<NodeID>, n: Nipost)
    requires env.tickSize > 0
    ensures SizesOf(env, atx, ids, [n]) == [SizeOf(env, atx, ids, n)]
    ensures TotalUnits([SizeOf(env, atx, ids, n)]) == SizeOf(env, atx, ids, n).units
  {
  }

  lemma TwoSizes(env: Env, atx: Atx, ids: seq<NodeID>, m: Nipost, n: Nipost)
    requires env.tickSize > 0
    ensures SizesOf(env, atx, ids, [m, n]) == [SizeOf(env, atx, ids, m), SizeOf(env, atx, ids, n)]
  {
    hide SizeOf;
    assert [m, n][..1] == [m];
    OneSize(env, atx, ids, m);
  }

  lemma SumOfTwo(y: Size, z: Size)
    ensures TotalUnits([y, z]) == y.units + z.units
    ensures TotalWeight([y, z]) == Rational.Product(y.units, y.ticks) + Rational.Product(z.units, z.ticks)
  {
    assert [y, z][..1] == [y] && [y][..0] == [];
    assert TotalUnits([y]) == y.units && TotalWeight([y]) == Rational.Product(y.units, y.ticks);
  }

  /** A merged ATX of both identities, published by the first. */
  function Merged(niposts: seq<Nipost>): Atx {
    Atx(1, 2, false, Some(10), [11], niposts, true)
  }

  lemma MergedSetting(niposts: seq<Nipost>)
    ensures var env, atx := Couple(1), Merged(niposts);
      && env.tickSize == 1 && PreviousOlder(env, atx) && MarriageValid(env, atx)
      && Equivocation(env, atx) == [1, 2]
      && (|niposts| <= U32 && (forall i :: 0 <= i < |niposts| ==> WellTypedNipost(niposts[i])) ==> WellTyped(env, atx))
  {
    hide Members;
    CoupleMembers(1);
  }

  /** Two posts by the two identities, within what they had before. */
  lemma MergedPosts(niposts: seq<Nipost>, p: Post, q: Post)
    requires p.marriageIndex == p.prevIndex == q.prevIndex == 0 && q.marriageIndex == 1
    requires p.proven && q.proven && p.units < U32 && q.units < U32
    ensures var env, atx, ids := Couple(1), Merged(niposts), [1, 2];
      && Proven(env, ids, [p, q]) && Includes(ids, [p, q], 1) && DistinctIndices([p, q])
      && PostResolves(env, atx, ids, p) && PostResolves(env, atx, ids, q)
      && Effective(env, atx, ids, p) == p.units && Effective(env, atx, ids, q) == q.units
  {
    var ids: seq<NodeID> := [1, 2];
    assert [p, q][0] == p && ids[p.marriageIndex] == 1;
  }

  /** Two identities in one NIPoST: the second's unit is dropped and the ATX is accepted. */
  lemma {:induction false} UnitsCanBeDropped() returns (env: Env, atx: Atx)
    ensures WellTyped(env, atx) && Acceptable(env, atx)
    ensures TotalUnits(SizesOf(env, atx, Equivocation(env, atx), atx.niposts)) <
      TrueUnits(env, atx, Equivocation(env, atx), AllPosts(atx.niposts))
  {
    hide Couple, Members, Equivocation, PreviousOlder, MarriageValid, PostResolves, Effective, Proven, Includes,
      DistinctIndices, TrueUnits, KeptUnits, AllPosts, SizesOf, TotalUnits;
    var p, q := Post(0, 0, U32 - 1, true), Post(1, 0, 1, true);
    var n := Nipost([p, q], true, 5);
    env, atx := Couple(1), Merged([n]);
    MergedSetting([n]);
    MergedPosts([n], p, q);
    TwoPosts(n, n);
    UnitsOfTwo(env, atx, [1, 2], p, q);
    OneSize(env, atx, [1, 2], n);
  }

  /** Two NIPoSTs whose products each fit: their sum wraps to zero and the ATX is accepted. */
  lemma WeightCanWrap() returns (env: Env, atx: Atx)
    ensures WellTyped(env, atx) && Acceptable(env, atx)
    ensures var sizes := SizesOf(env, atx, Equivocation(env, atx), atx.niposts);
      && TotalWeight(sizes) % U64 == 0 && TotalUnits(sizes) == 2
      && forall i :: 0 <= i < |sizes| ==> sizes[i].ticks == U64 / 2
  {
    hide Couple, Members, Equivocation, PreviousOlder, MarriageValid, PostResolves, Effective, Proven, Includes,
      DistinctIndices, TrueUnits, KeptUnits, AllPosts, SizesOf, TotalUnits, TotalWeight;
    var p, q := Post(0, 0, 1, true), Post(1, 0, 1, true);
    var m, n := Nipost([p], true, U64 / 2), Nipost([q], true, U64 / 2);
    env, atx := Couple(1), Merged([m, n]);
    MergedSetting([m, n]);
    MergedPosts([m, n], p, q);
    TwoPosts(m, n);
    assert [p] + [q] == [p, q];
    UnitsOfTwo(env, atx, [1, 2], p, q);
    UnitsOfTwo(env, atx, [1, 2], q, p);
    TwoSizes(env, atx, [1, 2], m, n);
    var z := Size(1, U64 / 2);
    assert SizesOf(env, atx, [1, 2], [m, n]) == [z, z];
    SumOfTwo(z, z);
  }
}
