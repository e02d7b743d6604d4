/** The streamed response to a batch of hash requests: the blobs that the server has, each with
    its hash. */
module FetchBlobs {
  import opened Ids
  import opened Sorting
  import opened Scale
  import opened FetchStream
  import opened Words

  type Hint = nat

  datatype Entry = Entry(hash: Id, blob: seq<Byte>)

  /** Stored blobs; a missing one has size 0. */
  type Store = map<(Hint, Id), seq<Byte>>

  ghost predicate Storable(store: Store) {
    forall k :: k in store ==> |store[k]| < U32
  }

  // ---- What is sent ----

  ghost function EntryBytes(e: Entry): seq<Byte> {
    e.hash + EncodeLen(|e.blob|) + e.blob
  }

  ghost function EntriesBytes(es: seq<Entry>): seq<Byte> {
    if es == [] then [] else EntryBytes(es[0]) + EntriesBytes(es[1..])
  }

  function EntrySize(e: Entry): nat {
    HASH_LENGTH + LenSize(|e.blob|) + |e.blob|
  }

  function EntriesSize(es: seq<Entry>): nat {
    if es == [] then 0 else EntrySize(es[0]) + EntriesSize(es[1..])
  }

  ghost function Body(id: Id, es: seq<Entry>): seq<Byte> {
    id + EncodeLen(|es| % U32) + EntriesBytes(es)
  }

  function BodySize(es: seq<Entry>): nat {
    HASH_LENGTH + LenSize(|es| % U32) + EntriesSize(es)
  }

  /** The response: declared size in 32-bit arithmetic, body, empty error string. */
  ghost function BlobsResponse(id: Id, es: seq<Entry>): seq<Byte> {
    EncodeLen(BodySize(es) % U32) + Body(id, es) + EncodeLen(0)
  }

  lemma EntryBytesSize(e: Entry)
    requires |e.blob| < U32
    ensures |EntryBytes(e)| == EntrySize(e)
  {
  }

  lemma {:induction false} EntriesBytesSize(es: seq<Entry>)
    requires forall e :: e in es ==> |e.blob| < U32
    ensures |EntriesBytes(es)| == EntriesSize(es)
  {
    hide EncodeLen, DecodeLen, EntryBytes, EntrySize;
    if es != [] {
      EntryBytesSize(es[0]);
      EntriesBytesSize(es[1..]);
    }
  }

  lemma {:induction false} EntriesConcat(a: seq<Entry>, b: seq<Entry>)
    ensures EntriesBytes(a + b) == EntriesBytes(a) + EntriesBytes(b)
    ensures EntriesSize(a + b) == EntriesSize(a) + EntriesSize(b)
  {
    hide EncodeLen, DecodeLen, EntryBytes, EntrySize;
    if a == [] {
      assert a + b == b;
    } else {
      EntriesConcat(a[1..], b);
      assert (a + b)[1..] == a[1..] + b && (a + b)[0] == a[0];
    }
  }

  // ---- Choosing what to send ----

  /** The stored, non-empty blobs of one hint, in the order asked for. */
  ghost function Found(store: Store, hint: Hint, ids: seq<Id>): seq<Entry> {
    if ids == [] then []
    else
      var last := ids[|ids| - 1];
      Found(store, hint, ids[..|ids| - 1])
      + if (hint, last) in store && store[(hint, last)] != [] then [Entry(last, store[(hint, last)])] else []
  }

  ghost predicate Covered(order: seq<Hint>, groups: map<Hint, seq<Id>>) {
    forall i :: 0 <= i < |order| ==> order[i] in groups
  }

  /** The entries hint by hint, in the order the hints are visited. */
  ghost function FoundAll(store: Store, groups: map<Hint, seq<Id>>, order: seq<Hint>): seq<Entry>
    requires Covered(order, groups)
  {
    if order == [] then []
    else
      Found(store, order[0], groups[order[0]]) + FoundAll(store, groups, order[1..])
  }

  lemma {:induction false} FoundStorable(store: Store, hint: Hint, ids: seq<Id>)
    requires Storable(store)
    ensures forall e :: e in Found(store, hint, ids) ==> |e.blob| < U32
  {
    if ids != [] {
      FoundStorable(store, hint, ids[..|ids| - 1]);
    }
  }

  lemma {:induction false} FoundAllStorable(store: Store, groups: map<Hint, seq<Id>>, order: seq<Hint>)
    requires Storable(store) && Covered(order, groups)
    ensures forall e :: e in FoundAll(store, groups, order) ==> |e.blob| < U32
  {
    if order != [] {
      FoundStorable(store, order[0], groups[order[0]]);
      FoundAllStorable(store, groups, order[1..]);
    }
  }

  /** The two passes over the hints may visit them in different orders: the number of entries
      and their size do not depend on it. */
  lemma {:induction false} OrderDoesNotMatter(store: Store, groups: map<Hint, seq<Id>>, a: seq<Hint>, b: seq<Hint>)
    requires Covered(a, groups) && Covered(b, groups)
    requires multiset(a) == multiset(b)
    ensures |FoundAll(store, groups, a)| == |FoundAll(store, groups, b)|
    ensures EntriesSize(FoundAll(store, groups, a)) == EntriesSize(FoundAll(store, groups, b))
  {
    hide EntrySize, Found;
    if a == [] {
      assert |multiset(b)| == 0;
    } else {
      var i := FindHead(a, b);
      MoveToFront(store, groups, b, i);
      OrderDoesNotMatter(store, groups, a[1..], Without(b, i));
      FoundHead(store, groups, a);
    }
  }

  lemma {:induction false} MoveToFront(store: Store, groups: map<Hint, seq<Id>>, b: seq<Hint>, i: nat)
    requires Covered(b, groups)
    requires i < |b|
    ensures var b' := Without(b, i);
      && Covered(b', groups)
      && |FoundAll(store, groups, b)| == |Found(store, b[i], groups[b[i]])| + |FoundAll(store, groups, b')|
      && EntriesSize(FoundAll(store, groups, b)) ==
         EntriesSize(Found(store, b[i], groups[b[i]])) + EntriesSize(FoundAll(store, groups, b'))
  {
    hide EntrySize, Found, EntriesSize;
    var b' := Without(b, i);
    FoundHead(store, groups, b);
    if i == 0 {
      assert b' == b[1..];
    } else {
      MoveToFront(store, groups, b[1..], i - 1);
      assert Without(b[1..], i - 1) == b'[1..] && b'[0] == b[0];
      FoundHead(store, groups, b');
    }
  }

  lemma FoundHead(store: Store, groups: map<Hint, seq<Id>>, order: seq<Hint>)
    requires Covered(order, groups) && order != []
    ensures FoundAll(store, groups, order) ==
      Found(store, order[0], groups[order[0]]) + FoundAll(store, groups, order[1..])
    ensures EntriesSize(FoundAll(store, groups, order)) ==
      EntriesSize(Found(store, order[0], groups[order[0]])) + EntriesSize(FoundAll(store, groups, order[1..]))
  {
    hide EntrySize, Found;
    EntriesConcat(Found(store, order[0], groups[order[0]]), FoundAll(store, groups, order[1..]));
  }

  // ---- The server ----

  function HashesIn(es: seq<Entry>): seq<Id> {
    seq(|es|, i requires 0 <= i < |es| => es[i].hash)
  }

  lemma OneMore(es: seq<Entry>, e: Entry)
    ensures HashesIn(es + [e]) == HashesIn(es) + [e.hash]
    ensures EntriesSize(es + [e]) == EntriesSize(es) + EntrySize(e)
  {
    hide EntrySize;
    EntriesConcat(es, [e]);
    assert [e][1..] == [];
  }

  /** First pass over one hint: keeps the IDs that are stored, and their size.  The sums are
      32-bit; they wrap where they are written. */
  method MeasureHint(store: Store, hint: Hint, ids: seq<Id>) returns (good: seq<Id>, size: nat)
    ensures good == HashesIn(Found(store, hint, ids))
    ensures size == EntriesSize(Found(store, hint, ids))
  {
    good, size := [], 0;
    for i := 0 to |ids|
      invariant good == HashesIn(Found(store, hint, ids[..i]))
      invariant size == EntriesSize(Found(store, hint, ids[..i]))
    {
      assert ids[..i + 1][..i] == ids[..i];
      var blobSize := if (hint, ids[i]) in store then |store[(hint, ids[i])]| else 0;
      if blobSize > 0 {
        ghost var e := Entry(ids[i], store[(hint, ids[i])]);
        OneMore(Found(store, hint, ids[..i]), e);
        assert Found(store, hint, ids[..i + 1]) == Found(store, hint, ids[..i]) + [e];
        good := good + [ids[i]];
        size := size + HASH_LENGTH + LenSize(blobSize) + blobSize;
      } else {
        assert Found(store, hint, ids[..i + 1]) == Found(store, hint, ids[..i]);
      }
    }
    assert ids[..|ids|] == ids;
  }

  /** What the first pass keeps for each hint. */
  ghost predicate Kept(store: Store, groups: map<Hint, seq<Id>>, good: map<Hint, seq<Id>>) {
    forall h :: h in good ==> h in groups && good[h] == HashesIn(Found(store, h, groups[h]))
  }

  /** First pass: the hints in any order. */
  method Measure(store: Store, groups: map<Hint, seq<Id>>)
    returns (good: map<Hint, seq<Id>>, count: nat, size: nat, ghost order: seq<Hint>)
    ensures good.Keys == groups.Keys && Kept(store, groups, good)
    ensures Visits(order, groups, groups.Keys)
    ensures count == |FoundAll(store, groups, order)|
    ensures size == EntriesSize(FoundAll(store, groups, order))
  {
    hide Found, EntrySize, Enumerates, Covered;
    VisitNone(store, groups);
    good, count, size, order := map[], 0, 0, [];
    var left := groups.Keys;
    assert groups.Keys - left == {};
    while left != {}
      invariant left <= groups.Keys && good.Keys == groups.Keys - left && Kept(store, groups, good)
      invariant Visits(order, groups, groups.Keys - left)
      invariant count == |FoundAll(store, groups, order)|
      invariant size == EntriesSize(FoundAll(store, groups, order))
    {
      var hint :| hint in left;
      VisitOne(store, groups, order, groups.Keys - left, hint);
      EntriesConcat(FoundAll(store, groups, order), Found(store, hint, groups[hint]));
      var ids, n := MeasureHint(store, hint, groups[hint]);
      good, count, size := good[hint := ids], count + |ids|, size + n;
      assert groups.Keys - left + {hint} == groups.Keys - (left - {hint});
      order := order + [hint];
      left := left - {hint};
    }
    assert groups.Keys - left == groups.Keys;
  }

  /** `order` lists the visited hints, each once. */
  ghost predicate Visits(order: seq<Hint>, groups: map<Hint, seq<Id>>, visited: set<Hint>) {
    Enumerates(order, visited) && Covered(order, groups)
  }

  lemma VisitNone(store: Store, groups: map<Hint, seq<Id>>)
    ensures Visits([], groups, {}) && FoundAll(store, groups, []) == [] && EntriesBytes([]) == []
  {
  }

  /** Visiting one more hint appends its entries. */
  lemma VisitOne(store: Store, groups: map<Hint, seq<Id>>, order: seq<Hint>, visited: set<Hint>, hint: Hint)
    requires Visits(order, groups, visited) && hint in groups && hint !in visited
    ensures Visits(order + [hint], groups, visited + {hint})
    ensures FoundAll(store, groups, order + [hint]) == FoundAll(store, groups, order) + Found(store, hint, groups[hint])
  {
    assert multiset(visited + {hint}) == multiset(visited) + multiset{hint};
    FoundLast(store, groups, order, hint);
  }

  lemma {:induction false} FoundLast(store: Store, groups: map<Hint, seq<Id>>, order: seq<Hint>, hint: Hint)
    requires Covered(order, groups) && hint in groups
    ensures Covered(order + [hint], groups)
    ensures FoundAll(store, groups, order + [hint]) == FoundAll(store, groups, order) + Found(store, hint, groups[hint])
  {
    hide Found;
    if order == [] {
      assert order + [hint] == [hint] && [hint][1..] == [];
      assert FoundAll(store, groups, [hint]) == Found(store, hint, groups[hint]) + FoundAll(store, groups, []);
    } else {
      FoundLast(store, groups, order[1..], hint);
      assert (order + [hint])[1..] == order[1..] + [hint];
    }
  }

  /** Second pass over one hint: hash, length and blob of each kept ID. */
  method WriteHint(s: Stream, store: Store, hint: Hint, good: seq<Id>, ghost ids: seq<Id>)
    requires Storable(store) && good == HashesIn(Found(store, hint, ids))
    modifies s
    ensures s.bytes == old(s.bytes) + EntriesBytes(Found(store, hint, ids))
  {
    hide EncodeLen, DecodeLen;
    ghost var before, es := s.bytes, Found(store, hint, ids);
    FoundStored(store, hint, ids);
    for i := 0 to |good|
      invariant s.bytes == before + EntriesBytes(es[..i])
    {
      assert es[i] in es && good[i] == es[i].hash;
      var blob := store[(hint, good[i])];
      s.Write(good[i]);
      s.WriteLen(|blob|);
      s.Write(blob);
      WriteOne(before, es, i);
    }
    assert es[..|es|] == es;
  }

  lemma WriteOne(before: seq<Byte>, es: seq<Entry>, i: nat)
    requires i < |es|
    ensures before + EntriesBytes(es[..i]) + es[i].hash + EncodeLen(|es[i].blob|) + es[i].blob ==
      before + EntriesBytes(es[..i + 1])
  {
    hide EncodeLen, DecodeLen;
    assert es[..i + 1] == es[..i] + [es[i]];
    EntriesConcat(es[..i], [es[i]]);
    assert [es[i]][1..] == [];
    assert EntriesBytes([es[i]]) == EntryBytes(es[i]) + [];
    RegroupEntry(before, EntriesBytes(es[..i]), es[i].hash, EncodeLen(|es[i].blob|), es[i].blob);
  }

  lemma RegroupEntry(a: seq<Byte>, b: seq<Byte>, c: seq<Byte>, d: seq<Byte>, e: seq<Byte>)
    ensures a + b + c + d + e == a + (b + (c + d + e))
  {
  }

  /** Whether an entry is due for an ID: a blob is stored under it and is not empty. */
  ghost predicate Due(store: Store, hint: Hint, id: Id) {
    (hint, id) in store && |store[(hint, id)]| > 0
  }

  /** How many of the IDs asked for have an entry due. */
  ghost function DueCount(store: Store, hint: Hint, ids: seq<Id>): nat {
    if ids == [] then 0
    else DueCount(store, hint, ids[..|ids| - 1]) + if Due(store, hint, ids[|ids| - 1]) then 1 else 0
  }

  /** There is an entry for every ID asked for under which a non-empty blob is stored, once for each
      time it is asked for, in the order of the request, and no other entry. */
  lemma {:induction false} FoundIs(store: Store, hint: Hint, ids: seq<Id>)
    ensures |Found(store, hint, ids)| == DueCount(store, hint, ids)
    ensures forall i :: 0 <= i < |ids| && Due(store, hint, ids[i]) ==>
      var k := DueCount(store, hint, ids[..i]);
      k < |Found(store, hint, ids)| && Found(store, hint, ids)[k] == Entry(ids[i], store[(hint, ids[i])])
  {
    if ids != [] {
      var front, last := ids[..|ids| - 1], ids[|ids| - 1];
      FoundIs(store, hint, front);
      forall i | 0 <= i < |ids| && Due(store, hint, ids[i])
        ensures var k := DueCount(store, hint, ids[..i]);
          k < |Found(store, hint, ids)| && Found(store, hint, ids)[k] == Entry(ids[i], store[(hint, ids[i])])
      {
        if i < |front| {
          assert front[i] == ids[i] && front[..i] == ids[..i];
        }
      }
    }
  }

  lemma {:induction false} FoundStored(store: Store, hint: Hint, ids: seq<Id>)
    ensures forall e :: e in Found(store, hint, ids) ==> (hint, e.hash) in store && store[(hint, e.hash)] == e.blob
  {
    if ids != [] {
      FoundStored(store, hint, ids[..|ids| - 1]);
    }
  }

  lemma WrittenMore(before: seq<Byte>, done: seq<Entry>, found: seq<Entry>)
    ensures before + EntriesBytes(done) + EntriesBytes(found) == before + EntriesBytes(done + found)
  {
    hide EntryBytes;
    EntriesConcat(done, found);
  }

  /** Second pass: the hints in any order, not necessarily that of the first. */
  method WriteGroups(s: Stream, store: Store, groups: map<Hint, seq<Id>>, good: map<Hint, seq<Id>>)
    returns (ghost order: seq<Hint>)
    requires Storable(store) && good.Keys == groups.Keys && Kept(store, groups, good)
    modifies s
    ensures Visits(order, groups, groups.Keys)
    ensures s.bytes == old(s.bytes) + EntriesBytes(FoundAll(store, groups, order))
  {
    hide Found, EntriesBytes, FoundAll, Enumerates, Covered;
    VisitNone(store, groups);
    order := [];
    ghost var before := s.bytes;
    var left := good.Keys;
    assert groups.Keys - left == {};
    while left != {}
      invariant left <= groups.Keys && Visits(order, groups, groups.Keys - left)
      invariant s.bytes == before + EntriesBytes(FoundAll(store, groups, order))
    {
      var hint :| hint in left;
      ghost var done, found := FoundAll(store, groups, order), Found(store, hint, groups[hint]);
      WriteHint(s, store, hint, good[hint], groups[hint]);
      VisitOne(store, groups, order, groups.Keys - left, hint);
      WrittenMore(before, done, found);
      assert groups.Keys - left + {hint} == groups.Keys - (left - {hint});
      order := order + [hint];
      left := left - {hint};
    }
    assert groups.Keys - left == groups.Keys;
  }

  /** `doHandleHashReqStream`: what is written is the response for the order of the second pass,
      although the sizes come from the first. */
  method WriteBlobs(s: Stream, id: Id, store: Store, groups: map<Hint, seq<Id>>) returns (ghost order: seq<Hint>)
    requires Storable(store)
    modifies s
    ensures Visits(order, groups, groups.Keys)
    ensures s.bytes == old(s.bytes) + BlobsResponse(id, FoundAll(store, groups, order))
  {
    hide EncodeLen, DecodeLen, FoundAll, EntriesBytes, EntriesSize, BlobsResponse, Covered;
    ghost var before := s.bytes;
    var good, count, size;
    ghost var first;
    good, count, size, first := Measure(store, groups);
    size := HASH_LENGTH + size + LenSize(count % U32);
    s.WriteLen(size % U32);
    s.Write(id);
    s.WriteLen(count % U32);
    order := WriteGroups(s, store, groups, good);
    OrderDoesNotMatter(store, groups, first, order);
    s.WriteLen(0);
    Written(before, id, FoundAll(store, groups, order), size, count);
  }

  lemma Written(before: seq<Byte>, id: Id, es: seq<Entry>, size: nat, count: nat)
    requires count == |es| && size == BodySize(es)
    ensures before + EncodeLen(size % U32) + id + EncodeLen(count % U32) + EntriesBytes(es) + EncodeLen(0) ==
      before + BlobsResponse(id, es)
  {
  }

  // ---- The client ----

  /** `n` entries from the front of the bytes, with the number of bytes they take. */
  function ReadEntries(b: seq<Byte>, n: nat): (r: Option<(seq<Entry>, nat)>)
    ensures r.Some? ==> r.value.1 <= |b|
    decreases n
  {
    if n == 0 then Some(([], 0))
    else
      var e := ReadEntry(b);
      if e.None? then None
      else
        var rest := ReadEntries(b[e.value.1..], n - 1);
        if rest.None? then None else Some(([e.value.0] + rest.value.0, e.value.1 + rest.value.1))
  }

  function ReadEntry(b: seq<Byte>): (r: Option<(Entry, nat)>)
    ensures r.Some? ==> r.value.1 <= |b|
  {
    if |b| < HASH_LENGTH then None
    else
      match DecodeLen(b[HASH_LENGTH..])
      case None => None
      case Some((len, k)) =>
        if |b| < HASH_LENGTH + k + len then None
        else Some((Entry(b[..HASH_LENGTH], b[HASH_LENGTH + k..HASH_LENGTH + k + len]), HASH_LENGTH + k + len))
  }

  /** The body: the batch ID, the number of entries, the entries. */
  function ReadBody(b: seq<Byte>, id: Id): (r: Option<(seq<Entry>, nat)>)
    ensures r.Some? ==> r.value.1 <= |b|
  {
    if |b| < HASH_LENGTH || b[..HASH_LENGTH] != id then None
    else
      match DecodeLen(b[HASH_LENGTH..])
      case None => None
      case Some((count, k)) =>
        var es := ReadEntries(b[HASH_LENGTH + k..], count);
        if es.None? then None else Some((es.value.0, HASH_LENGTH + k + es.value.1))
  }

  function ReadBlobsResponse(b: seq<Byte>, id: Id): ReadResult<seq<Entry>> {
    match DecodeLen(b)
    case None => Malformed
    case Some((respLen, n)) =>
      if respLen == 0 then ReadEnd(b[n..], n, None)
      else
        var body := ReadBody(b[n..], id);
        if body.None? || body.value.1 != respLen then Malformed
        else ReadEnd(b[n + respLen..], n + respLen, Some(body.value.0))
  }

  method ReadEntryFrom(s: Stream) returns (r: Option<(Entry, nat)>)
    modifies s
    ensures r == ReadEntry(old(s.bytes))
    ensures r.Some? ==> s.bytes == old(s.bytes)[r.value.1..]
  {
    hide DecodeLen;
    ghost var b := s.bytes;
    var hash := s.ReadFull(HASH_LENGTH);
    if hash.None? {
      return None;
    }
    var len := s.ReadLen();
    if len.None? {
      return None;
    }
    var blob := s.ReadFull(len.value.0);
    if blob.None? {
      return None;
    }
    ghost var k := len.value.1;
    assert b[HASH_LENGTH..][k..] == b[HASH_LENGTH + k..];
    assert b[HASH_LENGTH + k..][..len.value.0] == b[HASH_LENGTH + k..HASH_LENGTH + k + len.value.0];
    assert b[HASH_LENGTH + k..][len.value.0..] == b[HASH_LENGTH + k + len.value.0..];
    return Some((Entry(hash.value, blob.value), HASH_LENGTH + len.value.1 + |blob.value|));
  }

  /** Entries already read, before those still to come. */
  ghost function Continue(done: seq<Entry>, k: nat, rest: Option<(seq<Entry>, nat)>): Option<(seq<Entry>, nat)> {
    if rest.None? then None else Some((done + rest.value.0, k + rest.value.1))
  }

  lemma ContinueStep(done: seq<Entry>, k: nat, b: seq<Byte>, n: nat)
    requires n > 0
    ensures ReadEntry(b).None? ==> Continue(done, k, ReadEntries(b, n)).None?
    ensures ReadEntry(b).Some? ==>
      var (e, m) := ReadEntry(b).value;
      Continue(done, k, ReadEntries(b, n)) == Continue(done + [e], k + m, ReadEntries(b[m..], n - 1))
  {
    hide ReadEntry;
    if ReadEntry(b).Some? {
      var (e, m) := ReadEntry(b).value;
      var rest := ReadEntries(b[m..], n - 1);
      if rest.Some? {
        assert done + ([e] + rest.value.0) == done + [e] + rest.value.0;
      }
    }
  }

  method ReadEntriesFrom(s: Stream, count: nat) returns (r: Option<(seq<Entry>, nat)>)
    modifies s
    ensures r == ReadEntries(old(s.bytes), count)
    ensures r.Some? ==> s.bytes == old(s.bytes)[r.value.1..]
  {
    hide ReadEntry;
    ghost var b := s.bytes;
    var es, n: nat := [], 0;
    for i := 0 to count
      invariant n <= |b| && s.bytes == b[n..]
      invariant Continue([], 0, ReadEntries(b, count)) == Continue(es, n, ReadEntries(s.bytes, count - i))
    {
      ContinueStep(es, n, s.bytes, count - i);
      var e := ReadEntryFrom(s);
      if e.None? {
        return None;
      }
      assert b[n..][e.value.1..] == b[n + e.value.1..];
      es, n := es + [e.value.0], n + e.value.1;
    }
    assert es + [] == es && [] + ReadEntries(b, count).value.0 == ReadEntries(b, count).value.0;
    return Some((es, n));
  }

  method ReadBodyFrom(s: Stream, id: Id) returns (r: Option<(seq<Entry>, nat)>)
    modifies s
    ensures r == ReadBody(old(s.bytes), id)
    ensures r.Some? ==> s.bytes == old(s.bytes)[r.value.1..]
  {
    hide DecodeLen, ReadEntries;
    ghost var b := s.bytes;
    var first := s.ReadFull(HASH_LENGTH);
    if first.None? || first.value != id {
      return None;
    }
    var header := s.ReadLen();
    if header.None? {
      return None;
    }
    var (count, k) := header.value;
    assert b[HASH_LENGTH..][k..] == b[HASH_LENGTH + k..];
    var es := ReadEntriesFrom(s, count);
    if es.None? {
      return None;
    }
    assert b[HASH_LENGTH + k..][es.value.1..] == b[HASH_LENGTH + k + es.value.1..];
    return Some((es.value.0, HASH_LENGTH + k + es.value.1));
  }

  /** `receiveStreamedBatch` inside `server.ReadResponse`. */
  method ReceiveBatch(s: Stream, id: Id) returns (r: ReadResult<seq<Entry>>)
    modifies s
    ensures r == ReadBlobsResponse(old(s.bytes), id)
  {
    hide DecodeLen, ReadBody, ReadEnd;
    ghost var b := s.bytes;
    var header := s.ReadLen();
    if header.None? {
      return Malformed;
    }
    var (respLen, n) := header.value;
    if respLen == 0 {
      r := ReadEndOf(s, n, None);
      return;
    }
    var body := ReadBodyFrom(s, id);
    if body.None? || body.value.1 != respLen {
      return Malformed;
    }
    assert b[n..][respLen..] == b[n + respLen..];
    r := ReadEndOf(s, n + respLen, Some(body.value.0));
  }

  // ---- The client gets what the server sent ----

  lemma EntryRoundTrip(e: Entry, tail: seq<Byte>)
    requires |e.blob| < U32
    ensures ReadEntry(EntryBytes(e) + tail) == Some((e, EntrySize(e)))
    ensures (EntryBytes(e) + tail)[EntrySize(e)..] == tail
  {
    hide EncodeLen, DecodeLen;
    var len := EncodeLen(|e.blob|);
    LenRoundTrip(|e.blob|, e.blob + tail);
    var b := EntryBytes(e) + tail;
    assert b == e.hash + (len + (e.blob + tail));
    DropPrefix(e.hash, len + (e.blob + tail));
    assert b[..HASH_LENGTH] == e.hash;
    var k := HASH_LENGTH + |len|;
    assert b[k..k + |e.blob|] == e.blob;
    EntryBytesSize(e);
    DropPrefix(EntryBytes(e), tail);
  }

  lemma {:induction false} EntriesRoundTrip(es: seq<Entry>, tail: seq<Byte>)
    requires forall i :: 0 <= i < |es| ==> |es[i].blob| < U32
    ensures ReadEntries(EntriesBytes(es) + tail, |es|) == Some((es, EntriesSize(es)))
  {
    hide ReadEntry, EntryBytes, EntrySize;
    if es != [] {
      var e, rest := es[0], EntriesBytes(es[1..]) + tail;
      assert EntriesBytes(es) + tail == EntryBytes(e) + rest;
      EntryRoundTrip(e, rest);
      EntriesRoundTrip(es[1..], tail);
      assert es == [e] + es[1..];
    }
  }

  lemma BodyRoundTrip(id: Id, es: seq<Entry>, tail: seq<Byte>)
    requires |es| < U32 && forall i :: 0 <= i < |es| ==> |es[i].blob| < U32
    ensures ReadBody(Body(id, es) + tail, id) == Some((es, BodySize(es)))
    ensures |Body(id, es)| == BodySize(es) > 0
  {
    hide EncodeLen, DecodeLen, ReadEntries, EntriesBytes, EntriesSize;
    var count, rest := EncodeLen(|es|), EntriesBytes(es) + tail;
    LenRoundTrip(|es|, rest);
    EntriesRoundTrip(es, tail);
    EntriesBytesSize(es);
    var b := Body(id, es) + tail;
    assert b == id + (count + rest);
    DropPrefix(id, count + rest);
    assert b[..HASH_LENGTH] == id;
    assert b == (id + count) + rest;
    DropPrefix(id + count, rest);
  }

  /** Whatever follows on the stream, the client that asked for the batch gets the hashes and
      blobs back in the order written, and reads the response and no more. */
  lemma {:induction false} BlobsRoundTrip(id: Id, es: seq<Entry>, tail: seq<Byte>)
    requires BodySize(es) < U32 && |es| < U32
    requires forall i :: 0 <= i < |es| ==> |es[i].blob| < U32
    ensures ReadBlobsResponse(BlobsResponse(id, es) + tail, id) == Ok(es, |BlobsResponse(id, es)|)
  {
    hide EncodeLen, DecodeLen, ReadBody, ReadEnd, Body, BodySize;
    BodyRoundTrip(id, es, EncodeLen(0) + tail);
    assert BlobsResponse(id, es) == Framed(Body(id, es));
    Frame(Body(id, es), tail, es);
  }

  /** A body of 2^32 bytes or more is declared too short, and then the client reports an error
      rather than wrong data: reading succeeds exactly when the body fits. */
  lemma {:induction false} BlobsReadIffFits(id: Id, es: seq<Entry>, tail: seq<Byte>)
    requires |es| < U32 && forall i :: 0 <= i < |es| ==> |es[i].blob| < U32
    ensures ReadBlobsResponse(BlobsResponse(id, es) + tail, id).Ok? <==> BodySize(es) < U32
  {
    hide EncodeLen, DecodeLen, ReadBody, Body, BodySize;
    if BodySize(es) < U32 {
      BlobsRoundTrip(id, es, tail);
    } else {
      var d, rest := BodySize(es) % U32, Body(id, es) + (EncodeLen(0) + tail);
      LenRoundTrip(d, rest);
      BodyRoundTrip(id, es, EncodeLen(0) + tail);
      assert BlobsResponse(id, es) + tail == EncodeLen(d) + rest;
      DropPrefix(EncodeLen(d), rest);
    }
  }

  /** The response to another batch is never accepted. */
  lemma {:induction false} OtherBatchRefused(id: Id, other: Id, es: seq<Entry>, tail: seq<Byte>)
    requires id != other
    ensures !ReadBlobsResponse(BlobsResponse(id, es) + tail, other).Ok?
  {
    hide EncodeLen, DecodeLen, BodySize, EntriesBytes, ReadEntries;
    var d, rest := BodySize(es) % U32, Body(id, es) + (EncodeLen(0) + tail);
    LenRoundTrip(d, rest);
    assert BlobsResponse(id, es) + tail == EncodeLen(d) + rest;
    DropPrefix(EncodeLen(d), rest);
    assert rest[..HASH_LENGTH] == id;
  }
}
