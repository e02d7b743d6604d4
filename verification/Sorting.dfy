/** Sorting by an integer key, as the library sorts that the node calls promise it: `Sort` any
    sorted permutation, `StableSort` the one that keeps equal keys in order.  Where keys tell
    the elements apart the sorted permutation is unique, so the algorithm does not matter. */
module Sorting {

  ghost predicate SortedBy<T(!new)>(s: seq<T>, key: T -> int) {
    forall i, j :: 0 <= i < j < |s| ==> key(s[i]) <= key(s[j])
  }

  /** The elements with key `k`, in order. */
  ghost function WithKey<T(!new)>(s: seq<T>, key: T -> int, k: int): seq<T> {
    if s == [] then []
    else if key(s[0]) == k then [s[0]] + WithKey(s[1..], key, k)
    else WithKey(s[1..], key, k)
  }

  /** `r` is `s` sorted by key, with elements of one key in the order they had. */
  ghost predicate StablySorted<T(!new)>(s: seq<T>, r: seq<T>, key: T -> int) {
    && multiset(r) == multiset(s)
    && SortedBy(r, key)
    && forall k :: WithKey(r, key, k) == WithKey(s, key, k)
  }

  lemma {:induction false} WithKeyConcat<T(!new)>(a: seq<T>, b: seq<T>, key: T -> int, k: int)
    ensures WithKey(a + b, key, k) == WithKey(a, key, k) + WithKey(b, key, k)
  {
    if a == [] {
      assert a + b == b;
    } else {
      assert (a + b)[1..] == a[1..] + b;
      WithKeyConcat(a[1..], b, key, k);
    }
  }

  /** Inserting `x` after every element whose key is not larger. */
  lemma InsertionIsStable<T(!new)>(r: seq<T>, i: nat, x: T, key: T -> int, k: int)
    requires i <= |r| && forall j :: i <= j < |r| ==> key(r[j]) > key(x)
    ensures WithKey(r[..i] + [x] + r[i..], key, k) == WithKey(r + [x], key, k)
  {
    var lo, hi := r[..i], r[i..];
    assert r == lo + hi && lo + [x] + hi == lo + ([x] + hi);
    WithKeyConcat(lo, [x] + hi, key, k);
    WithKeyConcat([x], hi, key, k);
    WithKeyConcat(lo + hi, [x], key, k);
    WithKeyConcat(lo, hi, key, k);
    if key(x) == k {
      NoneWithKey(hi, key, k);
    }
  }

  lemma {:induction false} NoneWithKey<T(!new)>(s: seq<T>, key: T -> int, k: int)
    requires forall j :: 0 <= j < |s| ==> key(s[j]) != k
    ensures WithKey(s, key, k) == []
  {
    if s != [] {
      NoneWithKey(s[1..], key, k);
    }
  }

  lemma InsertionPermutes<T>(r: seq<T>, i: nat, x: T)
    requires i <= |r|
    ensures multiset(r[..i] + [x] + r[i..]) == multiset(r) + multiset{x}
  {
    assert r == r[..i] + r[i..];
  }

  lemma InsertionSorts<T(!new)>(r: seq<T>, i: nat, x: T, key: T -> int)
    requires i <= |r| && SortedBy(r, key)
    requires i > 0 ==> key(r[i - 1]) <= key(x)
    requires forall j :: i <= j < |r| ==> key(r[j]) > key(x)
    ensures SortedBy(r[..i] + [x] + r[i..], key)
  {
  }

  method Insert<T(!new)>(r: seq<T>, x: T, key: T -> int) returns (r': seq<T>)
    requires SortedBy(r, key)
    ensures SortedBy(r', key) && multiset(r') == multiset(r) + multiset{x}
    ensures forall k :: WithKey(r', key, k) == WithKey(r + [x], key, k)
  {
    var i := |r|;
    while i > 0 && key(r[i - 1]) > key(x)
      invariant 0 <= i <= |r|
      invariant forall j :: i <= j < |r| ==> key(r[j]) > key(x)
    {
      i := i - 1;
    }
    r' := r[..i] + [x] + r[i..];
    InsertionPermutes(r, i, x);
    InsertionSorts(r, i, x, key);
    forall k { InsertionIsStable(r, i, x, key, k); }
  }

  method StableSort<T(!new)>(s: seq<T>, key: T -> int) returns (r: seq<T>)
    ensures StablySorted(s, r, key)
  {
    r := [];
    for n := 0 to |s|
      invariant StablySorted(s[..n], r, key)
    {
      ghost var before := r;
      r := Insert(r, s[n], key);
      assert s[..n + 1] == s[..n] + [s[n]];
      forall k
        ensures WithKey(r, key, k) == WithKey(s[..n + 1], key, k)
      {
        WithKeyConcat(before, [s[n]], key, k);
        WithKeyConcat(s[..n], [s[n]], key, k);
        assert WithKey(before, key, k) == WithKey(s[..n], key, k);
      }
    }
    assert s[..|s|] == s;
  }

  method Sort<T(!new)>(s: seq<T>, key: T -> int) returns (r: seq<T>)
    ensures multiset(r) == multiset(s) && SortedBy(r, key)
  {
    r := StableSort(s, key);
  }

  ghost predicate KeyIdentifies<T(!new)>(s: seq<T>, key: T -> int) {
    forall x, y :: x in s && y in s && key(x) == key(y) ==> x == y
  }

  lemma HeadIsLeast<T(!new)>(a: seq<T>, b: seq<T>, key: T -> int)
    requires multiset(a) == multiset(b) && a != [] && SortedBy(a, key)
    ensures b != [] && b[0] in a && key(a[0]) <= key(b[0])
  {
    assert |multiset(b)| == |b| && |multiset(a)| == |a|;
    assert b[0] in multiset(b);
    assert b[0] in a;
  }

  lemma TailMultiset<T>(s: seq<T>)
    requires s != []
    ensures multiset(s[1..]) == multiset(s) - multiset{s[0]}
  {
    assert s == [s[0]] + s[1..];
  }

  lemma SameHead<T(!new)>(a: seq<T>, b: seq<T>, key: T -> int)
    requires multiset(a) == multiset(b) && SortedBy(a, key) && SortedBy(b, key) && KeyIdentifies(a, key)
    requires a != []
    ensures b != [] && a[0] == b[0] && multiset(a[1..]) == multiset(b[1..])
  {
    HeadIsLeast(a, b, key);
    HeadIsLeast(b, a, key);
    assert a[0] in a && b[0] in a;
    TailMultiset(a);
    TailMultiset(b);
  }

  lemma TailSorted<T(!new)>(s: seq<T>, key: T -> int)
    requires s != [] && SortedBy(s, key)
    ensures SortedBy(s[1..], key)
  {
  }

  lemma TailIdentifies<T(!new)>(s: seq<T>, key: T -> int)
    requires s != [] && KeyIdentifies(s, key)
    ensures KeyIdentifies(s[1..], key)
  {
  }

  /** A sequence without its element at `i`. */
  ghost function Without<T>(s: seq<T>, i: nat): seq<T>
    requires i < |s|
  {
    s[..i] + s[i + 1..]
  }

  lemma WithoutMultiset<T>(s: seq<T>, i: nat)
    requires i < |s|
    ensures multiset(Without(s, i)) == multiset(s) - multiset{s[i]}
  {
    assert s == s[..i] + [s[i]] + s[i + 1..];
  }

  /** The head of one permutation occurs in the other. */
  lemma FindHead<T>(a: seq<T>, b: seq<T>) returns (i: nat)
    requires a != [] && multiset(a) == multiset(b)
    ensures i < |b| && b[i] == a[0] && multiset(Without(b, i)) == multiset(a[1..])
  {
    assert a[0] in multiset(b);
    i :| 0 <= i < |b| && b[i] == a[0];
    WithoutMultiset(b, i);
    TailMultiset(a);
  }

  lemma LastMultiset<T>(s: seq<T>)
    requires s != []
    ensures multiset(s) == multiset(s[..|s| - 1]) + multiset{s[|s| - 1]}
  {
    assert s == s[..|s| - 1] + [s[|s| - 1]];
  }

  /** Two sorted permutations of the same elements are equal when keys tell elements apart. */
  lemma {:induction false} SortedIsUnique<T(!new)>(a: seq<T>, b: seq<T>, key: T -> int)
    requires multiset(a) == multiset(b) && SortedBy(a, key) && SortedBy(b, key) && KeyIdentifies(a, key)
    ensures a == b
  {
    if a == [] {
      assert |multiset(b)| == 0;
    } else {
      SameHead(a, b, key);
      TailSorted(a, key);
      TailSorted(b, key);
      TailIdentifies(a, key);
      SortedIsUnique(a[1..], b[1..], key);
      assert a == [a[0]] + a[1..] && b == [b[0]] + b[1..];
    }
  }

  // ---- A stable sort after another sort ----

  lemma {:induction false} FilterKeepsOrder<T(!new)>(s: seq<T>, key: T -> int, k: int, other: T -> int)
    requires SortedBy(s, other)
    ensures SortedBy(WithKey(s, key, k), other)
    ensures forall x :: x in WithKey(s, key, k) ==> x in s
  {
    if s != [] {
      FilterKeepsOrder(s[1..], key, k, other);
      var rest, whole := WithKey(s[1..], key, k), WithKey(s, key, k);
      forall i, j | 0 <= i < j < |whole|
        ensures other(whole[i]) <= other(whole[j])
      {
        if key(s[0]) == k && i == 0 {
          assert whole[j] == rest[j - 1] && rest[j - 1] in s[1..];
        } else if key(s[0]) == k {
          assert whole[i] == rest[i - 1] && whole[j] == rest[j - 1];
        }
      }
    }
  }

  /** Elements of one key keep their relative positions in the filtered sequence. */
  lemma {:induction false} FilterPositions<T(!new)>(s: seq<T>, key: T -> int, i: nat, j: nat) returns (a: nat, b: nat)
    requires i < j < |s| && key(s[i]) == key(s[j])
    ensures a < b < |WithKey(s, key, key(s[i]))|
    ensures WithKey(s, key, key(s[i]))[a] == s[i] && WithKey(s, key, key(s[i]))[b] == s[j]
  {
    if i == 0 {
      var c := FilterPosition(s[1..], key, j - 1);
      a, b := 0, c + 1;
    } else {
      a, b := FilterPositions(s[1..], key, i - 1, j - 1);
      if key(s[0]) == key(s[i]) {
        a, b := a + 1, b + 1;
      }
    }
  }

  lemma {:induction false} FilterPosition<T(!new)>(s: seq<T>, key: T -> int, i: nat) returns (a: nat)
    requires i < |s|
    ensures a < |WithKey(s, key, key(s[i]))| && WithKey(s, key, key(s[i]))[a] == s[i]
  {
    if i == 0 {
      a := 0;
    } else {
      a := FilterPosition(s[1..], key, i - 1);
      if key(s[0]) == key(s[i]) {
        a := a + 1;
      }
    }
  }

  /** Sorting by one key and then stably by another orders by the second key, ties by the first. */
  lemma StableAfterSort<T(!new)>(s: seq<T>, r: seq<T>, first: T -> int, second: T -> int)
    requires SortedBy(s, first) && StablySorted(s, r, second)
    ensures forall i, j :: 0 <= i < j < |r| && second(r[i]) == second(r[j]) ==> first(r[i]) <= first(r[j])
  {
    forall i, j | 0 <= i < j < |r| && second(r[i]) == second(r[j])
      ensures first(r[i]) <= first(r[j])
    {
      var k := second(r[i]);
      FilterKeepsOrder(s, second, k, first);
      var a, b := FilterPositions(r, second, i, j);
      var f := WithKey(s, second, k);
      assert WithKey(r, second, k) == f;
      assert first(f[a]) <= first(f[b]);
    }
  }

  lemma {:induction false} WithKeyNonempty<T(!new)>(s: seq<T>, key: T -> int, k: int)
    requires WithKey(s, key, k) != []
    ensures exists i :: 0 <= i < |s| && s[i] == WithKey(s, key, k)[0] && key(s[i]) == k
  {
    if key(s[0]) != k {
      WithKeyNonempty(s[1..], key, k);
      var i :| 0 <= i < |s[1..]| && s[1..][i] == WithKey(s[1..], key, k)[0] && key(s[1..][i]) == k;
      assert s[i + 1] == WithKey(s, key, k)[0];
    }
  }

  lemma HeadKept<T(!new)>(s: seq<T>, key: T -> int)
    requires s != []
    ensures WithKey(s, key, key(s[0])) != []
  {
  }

  /** A stable sort has one result. */
  lemma {:induction false} StableIsUnique<T(!new)>(a: seq<T>, b: seq<T>, key: T -> int)
    requires SortedBy(a, key) && SortedBy(b, key) && forall k :: WithKey(a, key, k) == WithKey(b, key, k)
    ensures a == b
    decreases |a| + |b|
  {
    if a == [] {
      if b != [] {
        HeadKept(b, key);
      }
    } else {
      var k := key(a[0]);
      assert WithKey(a, key, k) == WithKey(b, key, k);
      WithKeyNonempty(b, key, k);
      var l := key(b[0]);
      assert WithKey(a, key, l) == WithKey(b, key, l);
      WithKeyNonempty(a, key, l);
      assert k == l && a[0] == b[0];
      forall m
        ensures WithKey(a[1..], key, m) == WithKey(b[1..], key, m)
      {
        assert WithKey(a, key, m) == WithKey(b, key, m);
        assert m == k ==> WithKey(a, key, m)[1..] == WithKey(a[1..], key, m);
        assert m == k ==> WithKey(b, key, m)[1..] == WithKey(b[1..], key, m);
      }
      StableIsUnique(a[1..], b[1..], key);
      assert a == [a[0]] + a[1..] && b == [b[0]] + b[1..];
    }
  }

  // ---- Enumerating a set ----

  ghost predicate Enumerates<T(!new)>(s: seq<T>, elements: set<T>) {
    multiset(s) == multiset(elements)
  }

  /** The keys of a map or the members of a set, in no particular order. */
  method Enumerate<T(!new, ==)>(elements: set<T>) returns (s: seq<T>)
    ensures Enumerates(s, elements)
  {
    s := [];
    var left := elements;
    while left != {}
      invariant left <= elements && multiset(s) == multiset(elements - left)
    {
      var x :| x in left;
      s := s + [x];
      left := left - {x};
      assert elements - left == (elements - left - {x}) + {x};
    }
    assert elements - left == elements;
  }

  lemma RepeatCounts<T(!new)>(s: seq<T>, i: nat, j: nat)
    requires i < j < |s| && s[i] == s[j]
    ensures multiset(s)[s[i]] >= 2
  {
    assert s == s[..i] + [s[i]] + s[i + 1..j] + [s[j]] + s[j + 1..];
  }

  lemma EnumerationMembers<T(!new)>(s: seq<T>, elements: set<T>)
    requires Enumerates(s, elements)
    ensures (set x | x in s) == elements && |s| == |elements|
  {
    forall x
      ensures x in s <==> x in elements
    {
      assert x in multiset(s) <==> x in multiset(elements);
    }
    assert |multiset(s)| == |multiset(elements)|;
  }

  lemma EnumerationContains<T(!new)>(s: seq<T>, elements: set<T>, x: T)
    requires Enumerates(s, elements)
    ensures x in s <==> x in elements
  {
    assert x in multiset(s) <==> x in multiset(elements);
  }

  lemma EnumerationDistinct<T(!new)>(s: seq<T>, elements: set<T>)
    requires Enumerates(s, elements)
    ensures forall i, j :: 0 <= i < j < |s| ==> s[i] != s[j]
  {
    forall i, j | 0 <= i < j < |s|
      ensures s[i] != s[j]
    {
      if s[i] == s[j] {
        RepeatCounts(s, i, j);
      }
    }
  }

  // ---- Least and greatest members ----

  ghost predicate IsMax(s: set<nat>, r: nat) {
    r in s && forall x :: x in s ==> x <= r
  }

  ghost predicate IsMin(s: set<nat>, r: nat) {
    r in s && forall x :: x in s ==> r <= x
  }

  ghost function Max(s: set<nat>): (r: nat)
    requires s != {}
    ensures IsMax(s, r)
  {
    var a :| a in s;
    if s == {a} then a
    else
      var b := Max(s - {a});
      assert forall x :: x in s ==> x == a || x in s - {a};
      if a < b then b else a
  }

  ghost function Min(s: set<nat>): (r: nat)
    requires s != {}
    ensures IsMin(s, r)
  {
    var a :| a in s;
    if s == {a} then a
    else
      var b := Min(s - {a});
      assert forall x :: x in s ==> x == a || x in s - {a};
      if b < a then b else a
  }
}
