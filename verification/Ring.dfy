/** The insert-only ring that keeps the most recent events for late subscribers.  `history` is
    everything ever inserted; the ring should show its last entries, oldest first. */
module Ring {

  datatype Raw<T> = Raw(data: seq<T>, first: int, last: int)

  // ---- Positions ----

  /** The slot that the `k`-th insertion uses, counting from zero. */
  ghost function Slot(k: nat, n: nat): (s: nat)
    requires n > 0
    ensures s < n
  {
    if k == 0 then 0 else Wrap(Slot(k - 1, n) + 1, n)
  }

  function Wrap(x: nat, n: nat): (w: nat)
    requires n > 0 && x <= n
    ensures w == x % n && w < n
  {
    if x == n then 0 else x
  }

  lemma {:induction false} SlotAhead(k: nat, n: nat, p: nat)
    requires n > 0 && p <= n
    ensures Slot(k + p, n) == if Slot(k, n) + p < n then Slot(k, n) + p else Slot(k, n) + p - n
  {
    if p > 0 {
      SlotAhead(k, n, p - 1);
    }
  }

  lemma SlotEarly(k: nat, n: nat)
    requires n > 0 && k <= n
    ensures Slot(k, n) == if k < n then k else 0
  {
  }

  // ---- What a ring holds ----

  function Recent<T>(history: seq<T>, n: nat): seq<T> {
    if |history| <= n then history else history[|history| - n..]
  }

  ghost predicate Represents<T>(r: Raw<T>, history: seq<T>) {
    var n, k := |r.data|, |history|;
    && n > 0
    && r.last == (if k == 0 then -1 else Slot(k - 1, n))
    && r.first == (if k < n then 0 else Slot(k, n))
    && forall i :: 0 <= i < k && i >= k - n ==> r.data[Slot(i, n)] == history[i]
  }

  function Inserted<T>(r: Raw<T>, value: T): Raw<T>
    requires r.data != [] && -1 <= r.last < |r.data| && 0 <= r.first < |r.data|
  {
    var n := |r.data|;
    var last := Wrap(r.last + 1, n);
    var data := r.data[last := value];
    if r.last != -1 && r.first == last then Raw(data, Wrap(r.first + 1, n), last) else Raw(data, r.first, last)
  }

  lemma InBounds<T>(r: Raw<T>, history: seq<T>)
    requires Represents(r, history)
    ensures -1 <= r.last < |r.data| && 0 <= r.first < |r.data|
  {
  }

  lemma InsertEnds<T>(r: Raw<T>, history: seq<T>, value: T)
    requires Represents(r, history) && -1 <= r.last < |r.data| && 0 <= r.first < |r.data|
    ensures var n, k, r' := |r.data|, |history|, Inserted(r, value);
      r'.last == Slot(k, n) && r'.first == if k + 1 < n then 0 else Slot(k + 1, n)
  {
    var n, k := |r.data|, |history|;
    if k < n {
      SlotEarly(k, n);
      SlotEarly(k + 1, n);
    }
  }

  /** Inserting keeps the ring in step with its history. */
  lemma InsertRepresents<T>(r: Raw<T>, history: seq<T>, value: T)
    requires Represents(r, history) && -1 <= r.last < |r.data| && 0 <= r.first < |r.data|
    ensures Represents(Inserted(r, value), history + [value])
  {
    var n, k, r', more := |r.data|, |history|, Inserted(r, value), history + [value];
    InsertEnds(r, history, value);
    forall i | 0 <= i < k + 1 && i >= k + 1 - n
      ensures r'.data[Slot(i, n)] == more[i]
    {
      if i < k {
        SlotAhead(i, n, k - i);
      }
    }
  }

  function Length<T>(r: Raw<T>): int {
    if r.last == -1 then 0 else if r.first > r.last then |r.data| else r.last - r.first + 1
  }

  lemma LengthIsRecent<T>(r: Raw<T>, history: seq<T>)
    requires Represents(r, history)
    ensures Length(r) == |Recent(history, |r.data|)|
  {
    var n, k := |r.data|, |history|;
    if k > 0 {
      if k < n {
        SlotEarly(k - 1, n);
      } else {
        SlotAhead(k - 1, n, 1);
      }
    }
  }

  // ---- Iterating ----

  /** The order in which an iteration reads the slots. */
  function Order<T>(r: Raw<T>): (s: seq<T>)
    requires -1 <= r.last < |r.data| && 0 <= r.first <= |r.data|
  {
    if r.last == -1 then []
    else if r.last > r.first then r.data[r.first..r.last + 1]
    else r.data[r.first..] + r.data[..r.first]
  }

  /** A full ring is read from its first slot around. */
  lemma FullRotates<T>(r: Raw<T>, history: seq<T>)
    requires Represents(r, history) && |history| >= |r.data|
    requires -1 <= r.last < |r.data| && 0 <= r.first < |r.data|
    ensures Order(r) == r.data[r.first..] + r.data[..r.first]
    ensures r.first == Slot(|history| - |r.data|, |r.data|)
  {
    hide Slot, Wrap;
    var n, k := |r.data|, |history|;
    SlotAhead(k - 1, n, 1);
    SlotAhead(k - n, n, n);
    Whole(r.data);
  }

  lemma Whole<T>(s: seq<T>)
    ensures s[0..|s|] == s[0..] + s[..0]
  {
  }

  lemma FullOrder<T>(r: Raw<T>, history: seq<T>)
    requires Represents(r, history) && |history| >= |r.data|
    requires -1 <= r.last < |r.data| && 0 <= r.first < |r.data|
    ensures Order(r) == Recent(history, |r.data|)
  {
    hide Slot, Order;
    var n, k := |r.data|, |history|;
    var shown := Recent(history, n);
    FullRotates(r, history);
    forall p | 0 <= p < n
      ensures Order(r)[p] == shown[p]
    {
      SlotAhead(k - n, n, p);
      assert r.data[Slot(k - n + p, n)] == history[k - n + p];
    }
  }

  lemma PartOrder<T>(r: Raw<T>, history: seq<T>)
    requires Represents(r, history) && 1 < |history| < |r.data|
    requires -1 <= r.last < |r.data| && 0 <= r.first < |r.data|
    ensures Order(r) == Recent(history, |r.data|)
  {
    var n, k := |r.data|, |history|;
    SlotEarly(k - 1, n);
    forall p | 0 <= p < k
      ensures Order(r)[p] == history[p]
    {
      SlotEarly(p, n);
    }
  }

  /** Iterating a ring shows its recent history unless it holds exactly one of several
      possible entries; then it reads every slot. */
  lemma OrderIsRecentIff<T>(r: Raw<T>, history: seq<T>)
    requires Represents(r, history)
    ensures -1 <= r.last < |r.data| && 0 <= r.first < |r.data|
    ensures Order(r) == Recent(history, |r.data|) <==> !(|history| == 1 && |r.data| > 1)
  {
    InBounds(r, history);
    var n, k := |r.data|, |history|;
    if k >= n {
      FullOrder(r, history);
    } else if k > 1 {
      PartOrder(r, history);
    } else if k == 1 {
      assert |Order(r)| == n;
    }
  }

  // ---- Copies ----

  function Copied<T>(r: Raw<T>): Raw<T>
    requires 0 <= Length(r) <= |r.data|
  {
    Raw(r.data[..Length(r)], r.first, r.last)
  }

  lemma CopyShorter<T>(r: Raw<T>, history: seq<T>)
    requires Represents(r, history) && 0 < |history| < |r.data| && Length(r) == |history|
    ensures Represents(Copied(r), history)
  {
    var n, k := |r.data|, |history|;
    SlotEarly(k - 1, n);
    SlotEarly(k - 1, k);
    SlotEarly(k, k);
    forall i | 0 <= i < k
      ensures Copied(r).data[Slot(i, k)] == history[i]
    {
      SlotEarly(i, n);
      SlotEarly(i, k);
    }
  }

  /** A copy is as long as what it shows, and iterating it shows the recent history, always. */
  lemma CopyShowsRecent<T>(r: Raw<T>, history: seq<T>)
    requires Represents(r, history)
    ensures 0 <= Length(r) <= |r.data|
    ensures var c := Copied(r);
      && -1 <= c.last < |c.data| && 0 <= c.first <= |c.data|
      && Order(c) == Recent(history, |r.data|)
      && |c.data| == Length(c) == |Recent(history, |r.data|)|
  {
    LengthIsRecent(r, history);
    var c := Copied(r);
    if |history| > 0 {
      if |history| < |r.data| {
        CopyShorter(r, history);
      } else {
        assert c == r;
      }
      OrderIsRecentIff(c, history);
      LengthIsRecent(c, history);
    }
  }

  function InsertAll<T>(r: Raw<T>, values: seq<T>): (r': Raw<T>)
    requires r.data != [] && -1 <= r.last < |r.data| && 0 <= r.first < |r.data|
    ensures |r'.data| == |r.data| && -1 <= r'.last < |r.data| && 0 <= r'.first < |r.data|
  {
    if values == [] then r else Inserted(InsertAll(r, values[..|values| - 1]), values[|values| - 1])
  }

  lemma {:induction false} RunRepresents<T>(slots: seq<T>, values: seq<T>)
    requires slots != []
    ensures Represents(InsertAll(Raw(slots, 0, -1), values), values)
  {
    var empty := Raw(slots, 0, -1);
    if values != [] {
      var front, v := values[..|values| - 1], values[|values| - 1];
      RunRepresents(slots, front);
      InsertRepresents(InsertAll(empty, front), front, v);
      assert front + [v] == values;
    }
  }

  /** After any insertions into a ring of any size, a copy shows exactly the last ones. */
  lemma RunShowsRecent<T>(slots: seq<T>, values: seq<T>)
    requires slots != []
    ensures var r := InsertAll(Raw(slots, 0, -1), values);
      && 0 <= Length(r) <= |r.data|
      && -1 <= Copied(r).last < |Copied(r).data| && 0 <= Copied(r).first <= |Copied(r).data|
      && Order(Copied(r)) == Recent(values, |slots|)
      && Length(r) == |Recent(values, |slots|)|
  {
    var r := InsertAll(Raw(slots, 0, -1), values);
    RunRepresents(slots, values);
    CopyShowsRecent(r, values);
    LengthIsRecent(r, values);
  }

  /** What a callback is given: entries up to and including the first one it refuses. */
  ghost function Visited<T>(s: seq<T>, accept: T -> bool): seq<T> {
    if s == [] then [] else if accept(s[0]) then [s[0]] + Visited(s[1..], accept) else [s[0]]
  }

  ghost predicate AllAccepted<T>(s: seq<T>, accept: T -> bool) {
    forall i :: 0 <= i < |s| ==> accept(s[i])
  }

  lemma AcceptedHead<T>(s: seq<T>, accept: T -> bool)
    requires s != []
    ensures AllAccepted(s, accept) <==> accept(s[0]) && AllAccepted(s[1..], accept)
  {
    assert forall i :: 0 < i < |s| ==> s[i] == s[1..][i - 1];
  }

  lemma Push<T>(x: T, s: seq<T>, t: seq<T>)
    ensures [x] + (s + t) == ([x] + s) + t
    ensures ([x] + s)[1..] == s && (([x] + s) + t)[1..] == s + t
  {
  }

  lemma {:induction false} VisitedConcat<T>(a: seq<T>, b: seq<T>, accept: T -> bool)
    ensures Visited(a + b, accept) == if AllAccepted(a, accept) then a + Visited(b, accept) else Visited(a, accept)
  {
    if a == [] {
      assert a + b == b;
    } else {
      hide AllAccepted;
      assert a == [a[0]] + a[1..];
      Push(a[0], a[1..], b);
      Push(a[0], a[1..], Visited(b, accept));
      VisitedConcat(a[1..], b, accept);
      AcceptedHead(a, accept);
    }
  }

  lemma NothingVisited<T>(accept: T -> bool)
    ensures Visited([], accept) == []
  {
  }

  // ---- The object ----

  class Buffer<T(0)> {
    var data: array<T>
    var first: int
    var last: int

    ghost function View(): Raw<T>
      reads this, data
    {
      Raw(data[..], first, last)
    }

    constructor (size: nat)
      requires size > 0
      ensures fresh(data) && data.Length == size && Represents(View(), [])
    {
      data := new T[size];
      first, last := 0, -1;
    }

    method Insert(value: T, ghost history: seq<T>)
      requires Represents(View(), history)
      modifies this, data
      ensures data == old(data) && Represents(View(), history + [value])
    {
      InBounds(View(), history);
      InsertRepresents(View(), history, value);
      ghost var before := View();
      var previous := last;
      last := Wrap(last + 1, data.Length);
      data[last] := value;
      if previous != -1 && first == last {
        first := Wrap(first + 1, data.Length);
      }
      assert View() == Inserted(before, value);
    }

    method Len() returns (n: int)
      ensures n == Length(View())
    {
      if last == -1 {
        return 0;
      }
      if first > last {
        return data.Length;
      }
      return last - first + 1;
    }

    constructor CopyOf(r: Buffer<T>, ghost history: seq<T>)
      requires Represents(r.View(), history)
      ensures fresh(data) && 0 <= Length(r.View()) <= r.data.Length && View() == Copied(r.View())
    {
      var n := r.Len();
      LengthIsRecent(r.View(), history);
      var slots := new T[n];
      for i := 0 to n
        invariant slots[..i] == r.data[..i]
      {
        slots[i] := r.data[i];
      }
      data, first, last := slots, r.first, r.last;
    }

    /** `Iterate`, with the values handed to the callback as result. */
    method Iterate(accept: T -> bool) returns (visited: seq<T>)
      requires -1 <= last < data.Length && 0 <= first <= data.Length
      ensures visited == Visited(Order(View()), accept)
    {
      hide Visited;
      if last == -1 {
        NothingVisited(accept);
        return [];
      }
      ghost var d := data[..];
      var done: bool;
      if last > first {
        assert d[first..last + 1] == data[first..last + 1];
        visited, done := Walk(first, last + 1, accept);
        return;
      }
      assert d[first..] == data[first..data.Length] && d[..first] == data[0..first];
      VisitedConcat(d[first..], d[..first], accept);
      visited, done := Walk(first, data.Length, accept);
      if done {
        return;
      }
      var rest;
      rest, done := Walk(0, first, accept);
      visited := visited + rest;
    }

    method Walk(from: nat, to: nat, accept: T -> bool) returns (visited: seq<T>, done: bool)
      requires from <= to <= data.Length
      ensures visited == Visited(data[from..to], accept)
      ensures done <==> !AllAccepted(data[from..to], accept)
      ensures !done ==> visited == data[from..to]
    {
      visited := [];
      for i := from to to
        invariant visited == data[from..i] && AllAccepted(data[from..i], accept)
      {
        visited := visited + [data[i]];
        assert data[from..to] == data[from..i] + data[i..to];
        if !accept(data[i]) {
          VisitedConcat(data[from..i], data[i..to], accept);
          return visited, true;
        }
      }
      VisitedConcat(data[from..to], [], accept);
      assert data[from..to] + [] == data[from..to];
      return visited, false;
    }
  }
}
