/** The bit vector in which a following-round message carries votes on the proposals of the
    voter's first-round list. */
module VoteCodec {
  import opened Ids

  datatype Votes = Votes(support: set<Proposal>, against: set<Proposal>)

  function Pow2(n: nat): (r: nat)
    ensures r > 0
  {
    if n == 0 then 1 else 2 * Pow2(n - 1)
  }

  /** Bit `i` of the number, as `big.Int.Bit`. */
  predicate Bit(n: nat, i: nat)
    decreases i
  {
    if i == 0 then n % 2 == 1 else Bit(n / 2, i - 1)
  }

  /** A bit is a binary digit. */
  lemma {:induction false} BitIsDigit(n: nat, i: nat)
    ensures Bit(n, i) <==> (n / Pow2(i)) % 2 == 1
    decreases i
  {
    if i > 0 {
      BitIsDigit(n / 2, i - 1);
      HalveTwice(n, Pow2(i - 1));
    }
  }

  lemma HalveTwice(n: nat, p: nat)
    requires p > 0
    ensures n / 2 / p == n / (2 * p)
  {
    var q, r := n / 2 / p, n / 2 % p;
    assert n / 2 == q * p + r;
    var low := n % 2;
    assert n == q * (2 * p) + (2 * r + low);
    DivIs(n, 2 * p, q, 2 * r + low);
  }

  lemma DivIs(n: nat, d: nat, q: nat, r: nat)
    requires d > 0 && n == q * d + r && r < d
    ensures n / d == q
  {
    var k := n / d;
    assert n == k * d + n % d;
    assert k < q ==> (k + 1) * d <= q * d;
    assert k > q ==> (q + 1) * d <= k * d;
  }

  /** The bytes of a number, most significant first and without leading zeros. */
  function ToBytes(n: nat): seq<Byte> {
    if n == 0 then [] else ToBytes(n / 256) + [(n % 256) as Byte]
  }

  /** Reading back the bytes of a number gives the number. */
  lemma {:induction false} BytesRoundTrip(n: nat)
    ensures BigEndian(ToBytes(n)) == n
  {
    if n != 0 {
      BytesRoundTrip(n / 256);
      var b := ToBytes(n);
      assert b[..|b| - 1] == ToBytes(n / 256);
    }
  }

  /** A number below 2^bits takes at most bits/8 bytes, rounded up. */
  lemma {:induction false} BytesLength(n: nat, bits: nat)
    requires n < Pow2(bits)
    ensures |ToBytes(n)| <= (bits + 7) / 8
  {
    if n != 0 {
      if bits < 8 {
        PowMonotone(bits, 7);
        EightBits(7);
        assert n / 256 == 0 && ToBytes(0) == [];
      } else {
        EightBits(bits);
        BytesLength(n / 256, bits - 8);
      }
    }
  }

  lemma EightBits(bits: nat)
    ensures Pow2(7) == 128
    ensures bits >= 8 ==> Pow2(bits) == 256 * Pow2(bits - 8)
  {
    assert Pow2(3) == 8 && Pow2(7) == 2 * Pow2(6) && Pow2(6) == 2 * Pow2(5) && Pow2(5) == 2 * Pow2(4);
    if bits >= 8 {
      assert Pow2(bits - 4) == 16 * Pow2(bits - 8) by {
        assert Pow2(bits - 6) == 4 * Pow2(bits - 8);
      }
      assert Pow2(bits - 2) == 4 * Pow2(bits - 4);
    }
  }

  lemma {:induction false} PowMonotone(a: nat, b: nat)
    requires a <= b
    ensures Pow2(a) <= Pow2(b)
    decreases b
  {
    if a < b {
      PowMonotone(a, b - 1);
    }
  }

  lemma {:induction false} ZeroHasNoBits(i: nat)
    ensures !Bit(0, i)
  {
    if i > 0 {
      ZeroHasNoBits(i - 1);
    }
  }

  /** Setting a bit above all others changes that bit only. */
  lemma {:induction false} SetTopBit(n: nat, i: nat, j: nat)
    requires n < Pow2(i)
    ensures n + Pow2(i) < Pow2(i + 1)
    ensures Bit(n + Pow2(i), j) <==> Bit(n, j) || j == i
    decreases j
  {
    if i == 0 {
      if j > 0 {
        ZeroHasNoBits(j - 1);
      }
    } else if j > 0 {
      assert (n + Pow2(i)) / 2 == n / 2 + Pow2(i - 1);
      SetTopBit(n / 2, i - 1, j - 1);
    }
  }

  // ---- Encoding and decoding ----

  ghost predicate Encodes(bits: nat, support: set<Proposal>, list: seq<Proposal>) {
    && bits < Pow2(|list|)
    && forall i: nat :: Bit(bits, i) <==> i < |list| && list[i] in support
  }

  method EncodeVotes(votes: Votes, list: seq<Proposal>) returns (vector: seq<Byte>)
    ensures Encodes(BigEndian(vector), votes.support, list)
    ensures |vector| <= (|list| + 7) / 8
  {
    var bits: nat := 0;
    forall j: nat { ZeroHasNoBits(j); }
    for i := 0 to |list|
      invariant Encodes(bits, votes.support, list[..i])
    {
      ghost var before := bits;
      if list[i] in votes.support {
        bits := bits + Pow2(i);
      }
      forall j: nat
        ensures Bit(bits, j) <==> j < |list[..i + 1]| && list[..i + 1][j] in votes.support
      {
        SetTopBit(before, i, j);
        assert Bit(before, j) <==> j < |list[..i]| && list[..i][j] in votes.support;
      }
    }
    assert list[..|list|] == list;
    BytesRoundTrip(bits);
    BytesLength(bits, |list|);
    vector := ToBytes(bits);
  }

  /** The decoded votes: a proposal supported, or opposed, at some position of the list. */
  ghost function Decoded(vector: seq<Byte>, list: seq<Proposal>): Votes {
    Votes(set i | 0 <= i < |list| && Bit(BigEndian(vector), i) :: list[i],
          set i | 0 <= i < |list| && !Bit(BigEndian(vector), i) :: list[i])
  }

  method DecodeVotes(vector: seq<Byte>, list: seq<Proposal>) returns (votes: Votes)
    ensures votes == Decoded(vector, list)
  {
    votes := Votes({}, {});
    var bits := BigEndian(vector);
    for i := 0 to |list|
      invariant votes.support == set j | 0 <= j < i && Bit(bits, j) :: list[j]
      invariant votes.against == set j | 0 <= j < i && !Bit(bits, j) :: list[j]
    {
      if Bit(bits, i) {
        votes := votes.(support := votes.support + {list[i]});
      } else {
        votes := votes.(against := votes.against + {list[i]});
      }
    }
  }

  /** Decoding an encoded vector, for any list with or without repeats, gives the voter's
      support within the list, and opposition to the rest of the list. */
  lemma DecodeEncoded(vector: seq<Byte>, support: set<Proposal>, list: seq<Proposal>)
    requires Encodes(BigEndian(vector), support, list)
    ensures Decoded(vector, list) == Votes(set p | p in list && p in support, set p | p in list && p !in support)
    ensures Decoded(vector, list).support !! Decoded(vector, list).against
  {
  }

  /** A received vector that no honest voter sent can put a repeated proposal on both sides;
      on a list without repeats it cannot. */
  lemma DecodedDisjointWithoutRepeats(vector: seq<Byte>, list: seq<Proposal>)
    requires forall i, j :: 0 <= i < j < |list| ==> list[i] != list[j]
    ensures Decoded(vector, list).support !! Decoded(vector, list).against
    ensures Decoded(vector, list).support + Decoded(vector, list).against == set p | p in list
  {
  }

  /** What a voter keeps as its first-round list, and every receiver keeps for it. */
  function Truncated(valid: seq<Proposal>, potential: seq<Proposal>, limit: nat): seq<Proposal> {
    var all := valid + potential;
    if |all| > limit then all[..limit] else all
  }

  /** The longest prefix of the valid and then the potentially valid proposals within the limit. */
  lemma TruncatedIs(valid: seq<Proposal>, potential: seq<Proposal>, limit: nat)
    ensures var r, n := Truncated(valid, potential, limit), |valid| + |potential|;
      && |r| == (if n < limit then n else limit)
      && forall i :: 0 <= i < |r| ==> r[i] == if i < |valid| then valid[i] else potential[i - |valid|]
  {
  }

  /** Sends one round of votes and receives it elsewhere: both sides cut the first-round message
      to the votes limit, so the receiver reads exactly the opinion sent. */
  method SendAndReceive(own: Votes, valid: seq<Proposal>, potential: seq<Proposal>, limit: nat)
    returns (received: Votes)
    ensures var list := Truncated(valid, potential, limit);
      received == Votes(set p | p in list && p in own.support, set p | p in list && p !in own.support)
  {
    var vector := EncodeVotes(own, Truncated(valid, potential, limit));
    received := DecodeVotes(vector, Truncated(valid, potential, limit));
    DecodeEncoded(vector, own.support, Truncated(valid, potential, limit));
  }
}
