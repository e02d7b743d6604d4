/** Identifiers and small shared types.

    The node's identifiers (node, ATX, proposal and hash IDs) are byte strings of one fixed
    length per kind.  The model represents each by the number its bytes spell, most
    significant byte first; `CompareIsNumeric` shows that this keeps both equality and the
    order that `bytes.Compare` defines. */
module Ids {

  type NodeID = nat
  type ATXID = nat
  type Hash = nat
  type Proposal = nat

  datatype Option<+T> = None | Some(value: T)

  newtype Byte = x: int | 0 <= x < 256

  /** The number spelled by a big-endian byte string. */
  function BigEndian(b: seq<Byte>): nat {
    if b == [] then 0 else BigEndian(b[..|b| - 1]) * 256 + b[|b| - 1] as int
  }

  /** `bytes.Compare(a, b) == -1`. */
  predicate LexLess(a: seq<Byte>, b: seq<Byte>) {
    if a == [] || b == [] then a == [] && b != []
    else a[0] < b[0] || (a[0] == b[0] && LexLess(a[1..], b[1..]))
  }

  function Pow256(n: nat): nat {
    if n == 0 then 1 else 256 * Pow256(n - 1)
  }

  lemma ShiftByte(x: nat, p: nat, r: nat)
    ensures (x * p + r) * 256 == x * (256 * p) + r * 256
  {
  }

  lemma {:induction false} BigEndianHead(b: seq<Byte>)
    requires b != []
    ensures BigEndian(b) == b[0] as int * Pow256(|b| - 1) + BigEndian(b[1..])
  {
    if |b| > 1 {
      var front := b[..|b| - 1];
      BigEndianHead(front);
      assert b[1..][..|b[1..]| - 1] == front[1..];
      ShiftByte(b[0] as int, Pow256(|b| - 2), BigEndian(front[1..]));
    } else {
      assert b[1..] == [] && b[..0] == [];
    }
  }

  lemma {:induction false} BigEndianBound(b: seq<Byte>)
    ensures BigEndian(b) < Pow256(|b|)
  {
    if b != [] {
      BigEndianBound(b[..|b| - 1]);
    }
  }

  /** On byte strings of one length, `bytes.Compare` orders as the numbers do and equal
      numbers mean equal strings. */
  lemma {:induction false} CompareIsNumeric(a: seq<Byte>, b: seq<Byte>)
    requires |a| == |b|
    ensures LexLess(a, b) <==> BigEndian(a) < BigEndian(b)
    ensures a == b <==> BigEndian(a) == BigEndian(b)
  {
    if a != [] {
      var p := Pow256(|a| - 1);
      BigEndianHead(a);
      BigEndianHead(b);
      BigEndianBound(a[1..]);
      BigEndianBound(b[1..]);
      CompareIsNumeric(a[1..], b[1..]);
      HeadDecides(a[0] as int, b[0] as int, p, BigEndian(a[1..]), BigEndian(b[1..]));
      assert a == [a[0]] + a[1..] && b == [b[0]] + b[1..];
    }
  }

  lemma HeadDecides(x: nat, y: nat, p: nat, r: nat, s: nat)
    requires r < p && s < p
    ensures x < y ==> x * p + r < y * p + s
    ensures y < x ==> y * p + s < x * p + r
  {
    if x < y {
      assert (x + 1) * p <= y * p;
    } else if y < x {
      assert (y + 1) * p <= x * p;
    }
  }
}
