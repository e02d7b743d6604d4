/** Streamed responses: a list of IDs, and the blobs of a batch of hashes.  For each the bytes
    the server writes, the reader that takes them apart, and that the reader gets back what
    was sent. */
module FetchStream {
  import opened Ids
  import opened Scale
  import opened Words

  const HASH_LENGTH := 32
  const MAX_ERROR := 1024

  type Id = b: seq<Byte> | |b| == HASH_LENGTH witness seq(HASH_LENGTH, _ => 0)

  /** `Malformed` is every error of the reader itself; `ServerError` is one the server sent. */
  datatype ReadResult<+T> = Ok(value: T, consumed: nat) | ServerError(message: seq<Byte>) | Malformed

  // ---- The frame every response has ----

  /** The end of a response, after `n` bytes: the error string, which is empty on success. */
  function ReadEnd<T>(b: seq<Byte>, n: nat, value: Option<T>): ReadResult<T> {
    match DecodeLen(b)
    case None => Malformed
    case Some((len, k)) =>
      if len > MAX_ERROR || |b| < k + len then Malformed
      else if len > 0 then ServerError(b[k..k + len])
      else if value.None? then Malformed
      else Ok(value.value, n + k)
  }

  method ReadEndOf<T>(s: Stream, n: nat, value: Option<T>) returns (r: ReadResult<T>)
    modifies s
    ensures r == ReadEnd(old(s.bytes), n, value)
  {
    var len := s.ReadLen();
    if len.None? || len.value.0 > MAX_ERROR {
      return Malformed;
    }
    var message := s.ReadFull(len.value.0);
    if message.None? {
      return Malformed;
    }
    if |message.value| > 0 {
      return ServerError(message.value);
    }
    return if value.None? then Malformed else Ok(value.value, n + len.value.1);
  }

  ghost function ErrorResponse(message: seq<Byte>): seq<Byte> {
    EncodeLen(0) + EncodeLen(|message|) + message
  }

  /** A body with its declared size before it and an empty error string after it. */
  ghost function Framed(body: seq<Byte>): seq<Byte> {
    EncodeLen(|body|) + body + EncodeLen(0)
  }

  lemma Regroup(a: seq<Byte>, b: seq<Byte>, c: seq<Byte>, d: seq<Byte>)
    ensures (a + b) + c + d == a + (b + c) + d
  {
  }

  lemma DropPrefix(a: seq<Byte>, b: seq<Byte>)
    ensures (a + b)[|a|..] == b
  {
  }

  /** Reading a frame: the size, the body from where it starts, and the end after it. */
  lemma {:induction false} Frame<T>(body: seq<Byte>, tail: seq<Byte>, value: T)
    requires 0 < |body| < U32
    ensures var b, n := Framed(body) + tail, LenSize(|body|);
      && DecodeLen(b) == Some((|body|, n))
      && n + |body| <= |b| && b[n..] == body + (EncodeLen(0) + tail)
      && ReadEnd(b[n + |body|..], n + |body|, Some(value)) == Ok(value, |Framed(body)|)
  {
    var end := EncodeLen(0) + tail;
    var size := EncodeLen(|body|);
    var b := Framed(body) + tail;
    LenRoundTrip(0, tail);
    LenRoundTrip(|body|, body + end);
    assert b == size + (body + end);
    DropPrefix(size, body + end);
    assert b == (size + body) + end;
    DropPrefix(size + body, end);
  }

  // ---- IDs ----

  ghost function Flat(ids: seq<Id>): seq<Byte> {
    if ids == [] then [] else Flat(ids[..|ids| - 1]) + ids[|ids| - 1]
  }

  /** The declared size of a list of `n` IDs, in 32-bit arithmetic. */
  function DeclaredSize(n: nat): nat {
    (LenSize(n % U32) + n * HASH_LENGTH % U32) % U32
  }

  ghost function IdsHeader(n: nat): seq<Byte> {
    EncodeLen(DeclaredSize(n)) + EncodeLen(n % U32)
  }

  /** An empty list is a body of one zero byte. */
  ghost function IdsResponse(ids: seq<Id>): seq<Byte> {
    if ids == [] then EncodeLen(1) + EncodeLen(0) + EncodeLen(0)
    else IdsHeader(|ids|) + Flat(ids) + EncodeLen(0)
  }

  lemma StartWritten(before: seq<Byte>, total: nat, none: seq<Id>)
    requires none == []
    ensures before + EncodeLen(DeclaredSize(total)) + EncodeLen(total % U32) == before + (IdsHeader(total) + Flat(none))
  {
  }

  lemma NextWritten(before: seq<Byte>, total: nat, ids: seq<Id>, i: nat)
    requires i < |ids|
    ensures before + (IdsHeader(total) + Flat(ids[..i])) + ids[i] == before + (IdsHeader(total) + Flat(ids[..i + 1]))
  {
    assert ids[..i + 1][..i] == ids[..i];
  }

  /** The callback's part: the header goes out with the first ID. */
  method WriteIds(s: Stream, ids: seq<Id>, total: nat) returns (started: bool)
    modifies s
    ensures started <==> ids != []
    ensures s.bytes == if started then old(s.bytes) + (IdsHeader(total) + Flat(ids)) else old(s.bytes)
  {
    started := false;
    ghost var before := s.bytes;
    for i := 0 to |ids|
      invariant started <==> i > 0
      invariant s.bytes == if started then before + (IdsHeader(total) + Flat(ids[..i])) else before
    {
      if !started {
        started := true;
        s.WriteLen(DeclaredSize(total));
        s.WriteLen(total % U32);
        StartWritten(before, total, ids[..i]);
      }
      NextWritten(before, total, ids, i);
      s.Write(ids[i]);
    }
    assert ids[..|ids|] == ids;
  }

  /** Streams the IDs that `retrieve` delivers out of `total`, until it ends or fails; an error
      response is possible only before the first ID. */
  method StreamIds(s: Stream, ids: seq<Id>, total: nat, failure: Option<seq<Byte>>)
    requires failure.None? ==> total == |ids|
    requires failure.Some? ==> |failure.value| < U32
    modifies s
    ensures failure.None? ==> s.bytes == old(s.bytes) + IdsResponse(ids)
    ensures failure.Some? ==>
      s.bytes == old(s.bytes) + (if ids == [] then ErrorResponse(failure.value) else IdsHeader(total) + Flat(ids))
  {
    hide EncodeLen, Flat, IdsHeader;
    ghost var before := s.bytes;
    var started := WriteIds(s, ids, total);
    if failure.Some? {
      if !started {
        s.WriteLen(0);
        s.WriteLen(|failure.value|);
        s.Write(failure.value);
        Regroup3(before, EncodeLen(0), EncodeLen(|failure.value|), failure.value);
      }
      return;
    }
    if !started {
      s.WriteLen(1);
      s.WriteLen(0);
    }
    s.WriteLen(0);
    Regroup3(before, EncodeLen(1), EncodeLen(0), EncodeLen(0));
    Regroup3(before, IdsHeader(total), Flat(ids), EncodeLen(0));
  }

  lemma Regroup3(a: seq<Byte>, b: seq<Byte>, c: seq<Byte>, d: seq<Byte>)
    ensures a + b + c + d == a + (b + c + d)
    ensures a + (b + c) + d == a + (b + c + d)
  {
  }

  /** The first `n` IDs of the bytes. */
  function Split(b: seq<Byte>, n: nat): (r: seq<Id>)
    requires n * HASH_LENGTH <= |b|
  {
    seq(n, i requires 0 <= i < n => b[i * HASH_LENGTH..(i + 1) * HASH_LENGTH])
  }

  /** The body of an ID list: the IDs and the number of bytes read. */
  function ReadIds(b: seq<Byte>, respLen: nat, limit: nat): Option<(seq<Id>, nat)> {
    match DecodeLen(b)
    case None => None
    case Some((length, k)) =>
      if length > limit || length * HASH_LENGTH % U32 + k != respLen || |b| < k + length * HASH_LENGTH then None
      else Some((Split(b[k..], length), k + length * HASH_LENGTH))
  }

  function ReadIdsResponse(b: seq<Byte>, limit: nat): ReadResult<seq<Id>> {
    match DecodeLen(b)
    case None => Malformed
    case Some((respLen, n)) =>
      if respLen == 0 then ReadEnd(b[n..], n, None)
      else
        match ReadIds(b[n..], respLen, limit)
        case None => Malformed
        case Some((ids, k)) =>
          if k != respLen || n + k > |b| then Malformed else ReadEnd(b[n + k..], n + k, Some(ids))
  }

  method ReadIdsFrom(s: Stream, respLen: nat, limit: nat) returns (r: Option<(seq<Id>, nat)>)
    modifies s
    ensures r == ReadIds(old(s.bytes), respLen, limit)
    ensures r.Some? ==> r.value.1 <= |old(s.bytes)| && s.bytes == old(s.bytes)[r.value.1..]
  {
    ghost var b := s.bytes;
    var header := s.ReadLen();
    if header.None? || header.value.0 > limit {
      return None;
    }
    var (length, total) := header.value;
    ghost var k := total;
    if length * HASH_LENGTH % U32 + total != respLen {
      return None;
    }
    var ids: seq<Id> := [];
    for i := 0 to length
      invariant k + i * HASH_LENGTH <= |b| && s.bytes == b[k + i * HASH_LENGTH..]
      invariant ids == Split(b[k..], i)
      invariant total == k + i * HASH_LENGTH
    {
      var id := s.ReadFull(HASH_LENGTH);
      if id.None? {
        return None;
      }
      NextId(b[k..], i);
      ids := ids + [id.value];
      total := total + HASH_LENGTH;
    }
    return Some((ids, total));
  }

  lemma NextId(b: seq<Byte>, i: nat)
    requires (i + 1) * HASH_LENGTH <= |b|
    ensures Split(b, i + 1) == Split(b, i) + [b[i * HASH_LENGTH..][..HASH_LENGTH]]
  {
    assert b[i * HASH_LENGTH..][..HASH_LENGTH] == b[i * HASH_LENGTH..(i + 1) * HASH_LENGTH];
  }

  /** `readIDSlice` inside `server.ReadResponse`. */
  method ReadIdSlice(s: Stream, limit: nat) returns (r: ReadResult<seq<Id>>)
    modifies s
    ensures r == ReadIdsResponse(old(s.bytes), limit)
  {
    ghost var b := s.bytes;
    var header := s.ReadLen();
    if header.None? {
      return Malformed;
    }
    var (respLen, n) := header.value;
    if respLen == 0 {
      r := ReadEndOf(s, n, None);
      return;
    }
    var body := ReadIdsFrom(s, respLen, limit);
    if body.None? || body.value.1 != respLen {
      return Malformed;
    }
    assert b[n..][respLen..] == b[n + respLen..];
    r := ReadEndOf(s, n + body.value.1, Some(body.value.0));
  }

  lemma {:induction false} FlatSplit(ids: seq<Id>, tail: seq<Byte>)
    ensures |Flat(ids)| == |ids| * HASH_LENGTH
    ensures Split(Flat(ids) + tail, |ids|) == ids
  {
    if ids != [] {
      var n, front, last := |ids| - 1, ids[..|ids| - 1], ids[|ids| - 1];
      FlatSplit(front, last + tail);
      var b := Flat(ids) + tail;
      assert b == Flat(front) + (last + tail);
      NextId(b, n);
      assert b[n * HASH_LENGTH..] == last + tail;
    }
  }

  /** The declared size is the size of the body exactly when the body is below 2^32 bytes. */
  lemma DeclaredSizeIsExact(n: nat)
    requires n < U32
    ensures DeclaredSize(n) == LenSize(n) + n * HASH_LENGTH <==> LenSize(n) + n * HASH_LENGTH < U32
  {
  }

  /** Whatever follows on the stream, the reader gets the streamed IDs back in order and reads
      the response and no more; this includes the empty list. */
  lemma {:induction false} IdsRoundTrip(ids: seq<Id>, tail: seq<Byte>, limit: nat)
    requires |ids| <= limit && LenSize(|ids|) + |ids| * HASH_LENGTH < U32
    ensures ReadIdsResponse(IdsResponse(ids) + tail, limit) == Ok(ids, |IdsResponse(ids)|)
  {
    var end := EncodeLen(0) + tail;
    LenRoundTrip(0, tail);
    assert end[1..] == tail;
    var b := IdsResponse(ids) + tail;
    if ids == [] {
      LenRoundTrip(1, EncodeLen(0) + end);
      LenRoundTrip(0, end);
      assert b == EncodeLen(1) + (EncodeLen(0) + end);
      assert b[1..] == EncodeLen(0) + end && b[1 + 1..] == end;
      assert Split(b[1..][1..], 0) == [];
    } else {
      IdsRoundTripSome(ids, tail, limit);
    }
  }

  lemma IdsBodyRoundTrip(ids: seq<Id>, tail: seq<Byte>, limit: nat)
    requires |ids| <= limit && LenSize(|ids|) + |ids| * HASH_LENGTH < U32
    ensures var k := LenSize(|ids|) + |ids| * HASH_LENGTH;
      && ReadIds(EncodeLen(|ids|) + (Flat(ids) + tail), k, limit) == Some((ids, k))
      && |EncodeLen(|ids|)| == LenSize(|ids|) && |Flat(ids)| == |ids| * HASH_LENGTH
  {
    hide EncodeLen, DecodeLen;
    var rest := Flat(ids) + tail;
    LenRoundTrip(|ids|, rest);
    FlatSplit(ids, tail);
    assert (EncodeLen(|ids|) + rest)[LenSize(|ids|)..] == rest;
  }

  lemma IdsAreFramed(ids: seq<Id>)
    requires ids != [] && LenSize(|ids|) + |ids| * HASH_LENGTH < U32
    ensures IdsResponse(ids) == Framed(EncodeLen(|ids|) + Flat(ids))
    ensures |EncodeLen(|ids|) + Flat(ids)| == LenSize(|ids|) + |ids| * HASH_LENGTH
  {
    hide EncodeLen, DecodeLen, Flat;
    DeclaredSizeIsExact(|ids|);
    LenRoundTrip(|ids|, []);
    FlatSplit(ids, []);
    Regroup(EncodeLen(DeclaredSize(|ids|)), EncodeLen(|ids|), Flat(ids), EncodeLen(0));
  }

  lemma IdsRoundTripSome(ids: seq<Id>, tail: seq<Byte>, limit: nat)
    requires ids != [] && |ids| <= limit && LenSize(|ids|) + |ids| * HASH_LENGTH < U32
    ensures ReadIdsResponse(IdsResponse(ids) + tail, limit) == Ok(ids, |IdsResponse(ids)|)
  {
    hide EncodeLen, DecodeLen, ReadEnd, ReadIds, Framed;
    var body, end := EncodeLen(|ids|) + Flat(ids), EncodeLen(0) + tail;
    IdsAreFramed(ids);
    IdsBodyRoundTrip(ids, end, limit);
    assert body + end == EncodeLen(|ids|) + (Flat(ids) + end);
    Frame(body, tail, ids);
  }

  /** A list of 2^32 bytes or more is declared too short, and then the reader reports an error:
      reading succeeds exactly when the body fits and the list is within the reader's limit. */
  lemma {:induction false} IdsReadIffFits(ids: seq<Id>, tail: seq<Byte>, limit: nat)
    requires |ids| < U32
    ensures ReadIdsResponse(IdsResponse(ids) + tail, limit).Ok? <==>
      LenSize(|ids|) + |ids| * HASH_LENGTH < U32 && |ids| <= limit
  {
    if LenSize(|ids|) + |ids| * HASH_LENGTH < U32 && |ids| <= limit {
      IdsRoundTrip(ids, tail, limit);
    } else {
      IdsTooLong(ids, tail, limit);
    }
  }

  lemma IdsTooLong(ids: seq<Id>, tail: seq<Byte>, limit: nat)
    requires |ids| < U32 && (LenSize(|ids|) + |ids| * HASH_LENGTH >= U32 || |ids| > limit)
    ensures !ReadIdsResponse(IdsResponse(ids) + tail, limit).Ok?
  {
    hide EncodeLen, DecodeLen, Flat, Split;
    var d, rest := DeclaredSize(|ids|), Flat(ids) + (EncodeLen(0) + tail);
    LenRoundTrip(d, EncodeLen(|ids|) + rest);
    LenRoundTrip(|ids|, rest);
    var b := IdsResponse(ids) + tail;
    Regroup2(EncodeLen(d), EncodeLen(|ids|), Flat(ids), EncodeLen(0), tail);
    assert b == EncodeLen(d) + (EncodeLen(|ids|) + rest);
    DropPrefix(EncodeLen(d), EncodeLen(|ids|) + rest);
  }

  lemma Regroup2(a: seq<Byte>, b: seq<Byte>, c: seq<Byte>, d: seq<Byte>, e: seq<Byte>)
    ensures (a + b) + c + d + e == a + (b + (c + (d + e)))
  {
  }

  /** An error that the server reports before the first ID reaches the reader as it was sent. */
  lemma ErrorRoundTrip(message: seq<Byte>, tail: seq<Byte>, limit: nat)
    requires 0 < |message| <= MAX_ERROR
    ensures ReadIdsResponse(ErrorResponse(message) + tail, limit) == ServerError(message)
  {
    var m := |message|;
    var rest := EncodeLen(m) + (message + tail);
    var b := ErrorResponse(message) + tail;
    assert b == EncodeLen(0) + rest;
    LenRoundTrip(0, rest);
    LenRoundTrip(m, message + tail);
    assert b[1..] == rest;
    assert rest[LenSize(m)..LenSize(m) + m] == message;
  }

  /** A longer error is not taken for anything else. */
  lemma ErrorTooLong(message: seq<Byte>, tail: seq<Byte>, limit: nat)
    requires MAX_ERROR < |message| < U32
    ensures ReadIdsResponse(ErrorResponse(message) + tail, limit) == Malformed
  {
    var rest := EncodeLen(|message|) + (message + tail);
    assert ErrorResponse(message) + tail == EncodeLen(0) + rest;
    LenRoundTrip(0, rest);
    LenRoundTrip(|message|, message + tail);
    assert (EncodeLen(0) + rest)[1..] == rest;
    hide EncodeLen, DecodeLen;
  }
}
