/** Length prefixes as "Length and Compact Encoding" in the SCALE codec appendix of the
    Polkadot Protocol Specification defines them, for 32-bit lengths, and byte streams that
    carry them. */
module Scale {
  import opened Ids
  import opened Words

  function Low(v: nat): Byte {
    (v % 256) as Byte
  }

  /** Little-endian bytes. */
  function Le(v: nat, n: nat): (b: seq<Byte>)
    ensures |b| == n
    decreases n
  {
    if n == 0 then [] else [Low(v)] + Le(v / 256, n - 1)
  }

  function FromLe(b: seq<Byte>): nat {
    if b == [] then 0 else b[0] as int + 256 * FromLe(b[1..])
  }

  /** The encoding of a length below 2^32; the two low bits of the first byte say how long it is. */
  function EncodeLen(v: nat): (b: seq<Byte>)
    ensures b != []
  {
    if v < 0x40 then Le(v * 4, 1)
    else if v < 0x4000 then Le(v * 4 + 1, 2)
    else if v < 0x4000_0000 then Le(v * 4 + 2, 4)
    else [3] + Le(v, 4)
  }

  /** The value and the number of bytes read, or none when the stream is too short or the mode
      is not one for 32-bit lengths. */
  function DecodeLen(b: seq<Byte>): (r: Option<(nat, nat)>)
    ensures r.Some? ==> r.value.0 < U32 && r.value.1 <= |b|
  {
    if b == [] then None
    else
      var mode := b[0] as int % 4;
      if mode == 0 then Some((b[0] as int / 4, 1))
      else if mode == 1 then (if |b| < 2 then None else LeBound(b[..2]); Some((FromLe(b[..2]) / 4, 2)))
      else if mode == 2 then (if |b| < 4 then None else LeBound(b[..4]); Some((FromLe(b[..4]) / 4, 4)))
      else if b[0] == 3 && |b| >= 5 then (LeBound(b[1..5]); Some((FromLe(b[1..5]), 5)))
      else None
  }

  lemma {:induction false} LeBound(b: seq<Byte>)
    ensures FromLe(b) < Pow256(|b|)
    ensures |b| == 2 ==> FromLe(b) < 0x1_0000
    ensures |b| == 4 ==> FromLe(b) < U32
  {
    if b != [] {
      LeBound(b[1..]);
    }
    assert Pow256(2) == 0x1_0000 && Pow256(4) == 0x10000 * Pow256(2);
  }

  lemma {:induction false} LeRoundTrip(v: nat, n: nat)
    requires v < Pow256(n)
    ensures FromLe(Le(v, n)) == v
    decreases n
  {
    if n > 0 {
      LeRoundTrip(v / 256, n - 1);
      assert Le(v, n)[1..] == Le(v / 256, n - 1);
    }
  }

  /** The size of an encoded length (`scale.LenSize`). */
  function LenSize(v: nat): (n: nat)
    ensures 1 <= n <= 5
  {
    if v < 0x40 then 1 else if v < 0x4000 then 2 else if v < 0x4000_0000 then 4 else 5
  }

  lemma ModeBits(v: nat, mode: nat)
    requires mode < 4
    ensures Low(v * 4 + mode) as int % 4 == mode
  {
  }

  lemma ByteSizes()
    ensures Pow256(1) == 256 && Pow256(2) == 0x1_0000 && Pow256(4) == U32
  {
  }

  lemma ShortModes(v: nat, tail: seq<Byte>)
    requires v < 0x4000
    ensures |EncodeLen(v)| == LenSize(v) && DecodeLen(EncodeLen(v) + tail) == Some((v, LenSize(v)))
  {
    ByteSizes();
    var b := EncodeLen(v) + tail;
    if v < 0x40 {
      ModeBits(v, 0);
    } else {
      ModeBits(v, 1);
      LeRoundTrip(v * 4 + 1, 2);
      assert b[..2] == EncodeLen(v);
    }
  }

  lemma FourByteMode(v: nat, tail: seq<Byte>)
    requires 0x4000 <= v < 0x4000_0000
    ensures DecodeLen(EncodeLen(v) + tail) == Some((v, 4))
  {
    ByteSizes();
    ModeBits(v, 2);
    LeRoundTrip(v * 4 + 2, 4);
    var e := Le(v * 4 + 2, 4);
    assert EncodeLen(v) == e && e[0] == Low(v * 4 + 2);
    var b := e + tail;
    assert b[..4] == e && b[0] == e[0];
    assert FromLe(b[..4]) / 4 == v;
  }

  lemma FiveByteMode(v: nat, tail: seq<Byte>)
    requires 0x4000_0000 <= v < U32
    ensures DecodeLen(EncodeLen(v) + tail) == Some((v, 5))
  {
    ByteSizes();
    LeRoundTrip(v, 4);
    var b := EncodeLen(v) + tail;
    assert b[1..5] == Le(v, 4) && b[0] == 3;
  }

  /** The encoding as the specification has it: the low two bits are the mode and give the length,
      and the rest is the value, least significant byte first; the longest mode has the value in four
      bytes of its own. */
  lemma EncodeLenIs(v: nat)
    requires v < U32
    ensures var b := EncodeLen(v);
      && (v < 0x40 ==> |b| == 1 && FromLe(b) == 4 * v)
      && (0x40 <= v < 0x4000 ==> |b| == 2 && FromLe(b) == 4 * v + 1)
      && (0x4000 <= v < 0x4000_0000 ==> |b| == 4 && FromLe(b) == 4 * v + 2)
      && (v >= 0x4000_0000 ==> |b| == 5 && b[0] == 3 && FromLe(b[1..]) == v)
  {
    ByteSizes();
    if v < 0x40 {
      LeRoundTrip(v * 4, 1);
    } else if v < 0x4000 {
      LeRoundTrip(v * 4 + 1, 2);
    } else if v < 0x4000_0000 {
      LeRoundTrip(v * 4 + 2, 4);
    } else {
      LeRoundTrip(v, 4);
      assert EncodeLen(v)[1..] == Le(v, 4);
    }
  }

  /** Decoding reads back exactly an encoded length, whatever follows it. */
  lemma {:induction false} LenRoundTrip(v: nat, tail: seq<Byte>)
    requires v < U32
    ensures |EncodeLen(v)| == LenSize(v)
    ensures DecodeLen(EncodeLen(v) + tail) == Some((v, LenSize(v)))
  {
    if v < 0x4000 {
      ShortModes(v, tail);
    } else if v < 0x4000_0000 {
      FourByteMode(v, tail);
    } else {
      FiveByteMode(v, tail);
    }
  }

  /** A connection: writing appends and reading takes from the front. */
  class Stream {
    var bytes: seq<Byte>

    constructor (bytes: seq<Byte>)
      ensures this.bytes == bytes
    {
      this.bytes := bytes;
    }

    method Write(b: seq<Byte>)
      modifies this
      ensures bytes == old(bytes) + b
    {
      bytes := bytes + b;
    }

    /** `codec.EncodeLen`: the value is a uint32. */
    method WriteLen(v: nat)
      requires v < U32
      modifies this
      ensures bytes == old(bytes) + EncodeLen(v)
    {
      Write(EncodeLen(v));
    }

    /** `io.ReadFull`: all of `n` bytes or an error. */
    method ReadFull(n: nat) returns (b: Option<seq<Byte>>)
      modifies this
      ensures b.Some? <==> n <= |old(bytes)|
      ensures b.Some? ==> b.value == old(bytes)[..n] && bytes == old(bytes)[n..]
    {
      if n > |bytes| {
        bytes := [];
        return None;
      }
      b := Some(bytes[..n]);
      bytes := bytes[n..];
    }

    method ReadLen() returns (r: Option<(nat, nat)>)
      modifies this
      ensures r == DecodeLen(old(bytes))
      ensures r.Some? ==> bytes == old(bytes)[r.value.1..]
    {
      r := DecodeLen(bytes);
      bytes := if r.Some? then bytes[r.value.1..] else [];
    }
  }
}
