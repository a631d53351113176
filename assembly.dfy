/**
 * Fan-in and reassembly: the receive loop that stores each arriving
 * `partial{index, data}` in a map until `parts` results have arrived, and
 * `sortParts`, which concatenates the map's values in key order.
 */
module Assembly {

  type byte = x: int | 0 <= x < 256

  /** One task's result: its index and the body it read. */
  datatype Partial = Partial(index: int, data: seq<byte>)

  // ---------------------------------------------------------------------------
  // Collection

  /** The map after storing `s` in arrival order; a later result for the same
      index overwrites an earlier one. */
  function MapOf(s: seq<Partial>): (m: map<int, seq<byte>>)
    ensures m.Keys == set j | 0 <= j < |s| :: s[j].index
    ensures forall j :: 0 <= j < |s| && LastArrival(s, j) ==> m[s[j].index] == s[j].data
  {
    if s == [] then map[]
    else
      var m := MapOf(s[..|s| - 1]);
      assert forall j :: 0 <= j < |s| - 1 ==> s[..|s| - 1][j] == s[j];
      m[s[|s| - 1].index := s[|s| - 1].data]
  }

  /** No later arrival carries the same index as arrival `j`. */
  predicate LastArrival(s: seq<Partial>, j: int)
    requires 0 <= j < |s|
  {
    forall k :: j < k < |s| ==> s[k].index != s[j].index
  }

  /** The receive loop: `parts` receives from the channel, each stored in `m`.
      The channel is the sequence `arrivals`, in arrival order. */
  method Collect(arrivals: seq<Partial>, parts: int) returns (m: map<int, seq<byte>>, received: nat)
    requires 1 <= parts <= |arrivals|
    ensures received == parts
    ensures m == MapOf(arrivals[..parts])
  {
    m := map[];
    var i := 0;
    while true
      invariant 0 <= i < parts
      invariant m == MapOf(arrivals[..i])
      decreases parts - i
    {
      var valor := arrivals[i];
      MapOfStep(arrivals, i);
      m := m[valor.index := valor.data];
      i := i + 1;
      if i == parts {
        break;
      }
    }
    received := i;
  }

  /** Storing one more arrival updates the map at its index. */
  lemma MapOfStep(s: seq<Partial>, i: nat)
    requires i < |s|
    ensures MapOf(s[..i + 1]) == MapOf(s[..i])[s[i].index := s[i].data]
  {
    assert s[..i + 1][..i] == s[..i];
  }

  /** Each task index `0..n-1` arrives exactly once, in the order given. */
  predicate IsArrivalOrder(order: seq<int>, n: int) {
    && |order| == n
    && (forall j :: 0 <= j < n ==> 0 <= order[j] < n)
    && (forall j, k :: 0 <= j < k < n ==> order[j] != order[k])
    && (forall i :: 0 <= i < n ==> i in order)
  }

  /** What the channel delivers when task `i` sends `payloads[i]` and the tasks
      finish in the order `order`. */
  function Deliver(order: seq<int>, payloads: seq<seq<byte>>): (s: seq<Partial>)
    requires forall j :: 0 <= j < |order| ==> 0 <= order[j] < |payloads|
    ensures |s| == |order|
    ensures forall j :: 0 <= j < |order| ==> s[j] == Partial(order[j], payloads[order[j]])
  {
    seq(|order|, j requires 0 <= j < |order| => Partial(order[j], payloads[order[j]]))
  }

  /** The map from each task index to the body that task sent. */
  function Indexed(payloads: seq<seq<byte>>): map<int, seq<byte>> {
    map i | 0 <= i < |payloads| :: payloads[i]
  }

  /** Whatever the arrival order, the collected map has domain `0..n-1` and
      holds what task `i` sent at key `i`. */
  lemma CollectedMap(order: seq<int>, payloads: seq<seq<byte>>)
    requires IsArrivalOrder(order, |payloads|)
    ensures MapOf(Deliver(order, payloads)) == Indexed(payloads)
  {
    forall i | 0 <= i < |payloads|
      ensures i in MapOf(Deliver(order, payloads))
      ensures MapOf(Deliver(order, payloads))[i] == payloads[i]
    {
      CollectedValue(order, payloads, i);
    }
    CollectedKeys(order, payloads);
    IndexedExtensional(MapOf(Deliver(order, payloads)), payloads);
  }

  lemma CollectedValue(order: seq<int>, payloads: seq<seq<byte>>, i: int)
    requires IsArrivalOrder(order, |payloads|) && 0 <= i < |payloads|
    ensures i in MapOf(Deliver(order, payloads))
    ensures MapOf(Deliver(order, payloads))[i] == payloads[i]
  {
    var s := Deliver(order, payloads);
    assert i in order;
    var j :| 0 <= j < |order| && order[j] == i;
    assert s[j] == Partial(i, payloads[i]);
    assert LastArrival(s, j) by {
      forall k | j < k < |s|
        ensures s[k].index != i
      {
        assert s[k].index == order[k];
      }
    }
  }

  lemma CollectedKeys(order: seq<int>, payloads: seq<seq<byte>>)
    requires IsArrivalOrder(order, |payloads|)
    ensures forall x :: x in MapOf(Deliver(order, payloads)) ==> 0 <= x < |payloads|
  {
    var s := Deliver(order, payloads);
    forall x | x in MapOf(s)
      ensures 0 <= x < |payloads|
    {
      var j :| 0 <= j < |s| && s[j].index == x;
      assert s[j].index == order[j];
    }
  }

  lemma IndexedExtensional(m: map<int, seq<byte>>, payloads: seq<seq<byte>>)
    requires forall i :: 0 <= i < |payloads| ==> i in m && m[i] == payloads[i]
    requires forall x :: x in m ==> 0 <= x < |payloads|
    ensures m == Indexed(payloads)
  {
  }

  /** The collected map does not depend on the arrival order. */
  lemma ArrivalOrderIrrelevant(order1: seq<int>, order2: seq<int>, payloads: seq<seq<byte>>)
    requires IsArrivalOrder(order1, |payloads|) && IsArrivalOrder(order2, |payloads|)
    ensures MapOf(Deliver(order1, payloads)) == MapOf(Deliver(order2, payloads))
  {
    CollectedMap(order1, payloads);
    CollectedMap(order2, payloads);
  }

  // ---------------------------------------------------------------------------
  // Sorting the keys

  predicate Sorted(s: seq<int>) {
    forall i, j :: 0 <= i < j < |s| ==> s[i] <= s[j]
  }

  predicate Increasing(s: seq<int>) {
    forall i, j :: 0 <= i < j < |s| ==> s[i] < s[j]
  }

  predicate Distinct(s: seq<int>) {
    forall i, j :: 0 <= i < j < |s| ==> s[i] != s[j]
  }

  function Insert(x: int, s: seq<int>): (r: seq<int>)
    ensures |r| == |s| + 1
    ensures multiset(r) == multiset(s) + multiset{x}
  {
    if s == [] || x <= s[0] then [x] + s
    else
      assert s == [s[0]] + s[1..];
      [s[0]] + Insert(x, s[1..])
  }

  lemma {:induction false} InsertSorted(x: int, s: seq<int>)
    requires Sorted(s)
    ensures Sorted(Insert(x, s))
  {
    if s != [] && x > s[0] {
      InsertSorted(x, s[1..]);
      var t := Insert(x, s[1..]);
      forall i | 0 <= i < |t|
        ensures s[0] <= t[i]
      {
        assert t[i] in multiset(s[1..]) + multiset{x};
        if t[i] != x {
          var j :| 0 <= j < |s| - 1 && s[1..][j] == t[i];
          assert s[j + 1] == t[i];
        }
      }
    }
  }

  function InsertionSort(s: seq<int>): (r: seq<int>)
    ensures |r| == |s|
    ensures Sorted(r) && multiset(r) == multiset(s)
  {
    if s == [] then []
    else
      assert s == [s[0]] + s[1..];
      InsertSorted(s[0], InsertionSort(s[1..]));
      Insert(s[0], InsertionSort(s[1..]))
  }

  /** `sort.Ints`, a library routine, by its contract: the keys in
      non-decreasing order, as a permutation of the input. */
  method SortInts(s: seq<int>) returns (r: seq<int>)
    ensures |r| == |s|
    ensures Sorted(r) && multiset(r) == multiset(s)
  {
    r := InsertionSort(s);
  }

  lemma {:induction false} DistinctCount(s: seq<int>, x: int)
    requires Distinct(s)
    ensures multiset(s)[x] <= 1
  {
    if s != [] {
      var n := |s| - 1;
      assert s == s[..n] + [s[n]];
      assert Distinct(s[..n]);
      DistinctCount(s[..n], x);
      if x == s[n] {
        assert x !in s[..n];
      }
    }
  }

  lemma RepeatCount(r: seq<int>, i: int, j: int)
    requires 0 <= i < j < |r| && r[i] == r[j]
    ensures multiset(r)[r[i]] >= 2
  {
    assert r == r[..j] + r[j..];
    assert r[i] in r[..j];
    assert r[j] in r[j..];
  }

  /** A sorted permutation of keys without repetitions is strictly increasing. */
  lemma SortedDistinct(r: seq<int>, s: seq<int>)
    requires Sorted(r) && multiset(r) == multiset(s) && Distinct(s)
    ensures Increasing(r)
  {
    forall i, j | 0 <= i < j < |r|
      ensures r[i] < r[j]
    {
      if r[i] == r[j] {
        RepeatCount(r, i, j);
        DistinctCount(s, r[i]);
      }
    }
  }

  /** Two increasing sequences with the same elements are equal. */
  lemma {:induction false} IncreasingUnique(a: seq<int>, b: seq<int>)
    requires Increasing(a) && Increasing(b)
    requires forall x :: x in a <==> x in b
    ensures a == b
  {
    if a == [] {
      FirstIn(b);
    } else {
      assert a[0] in a;
      assert a[0] in b;
      assert b != [];
      assert b[0] in a;
      var k :| 0 <= k < |b| && b[k] == a[0];
      var l :| 0 <= l < |a| && a[l] == b[0];
      assert a[0] == b[0];
      forall x
        ensures x in a[1..] <==> x in b[1..]
      {
        if x in a[1..] {
          var p :| 1 <= p < |a| && a[p] == x;
          assert x in b && x != b[0];
        }
        if x in b[1..] {
          var p :| 1 <= p < |b| && b[p] == x;
          assert x in a && x != a[0];
        }
      }
      IncreasingUnique(a[1..], b[1..]);
    }
  }

  lemma FirstIn(b: seq<int>)
    ensures |b| > 0 ==> b[0] in b
  {
  }

  ghost function MinOf(s: set<int>): (x: int)
    requires s != {}
    ensures x in s && forall y :: y in s ==> x <= y
  {
    MinExists(s);
    var x :| x in s && forall y :: y in s ==> x <= y;
    x
  }

  lemma MinExists(s: set<int>)
    requires s != {}
    ensures exists x :: x in s && forall y :: y in s ==> x <= y
    decreases |s|
  {
    HasElement(s);
    var a :| a in s;
    if s != {a} {
      var rest := s - {a};
      MinExists(rest);
      var b :| b in rest && forall y :: y in rest ==> b <= y;
      var x := if a < b then a else b;
      forall y | y in s
        ensures x <= y
      {
        if y != a {
          assert y in rest;
        }
      }
      assert x in s;
    } else {
      assert forall y :: y in s ==> a <= y;
    }
  }

  lemma HasElement(s: set<int>)
    requires s != {}
    ensures exists x :: x in s
  {
    if forall x :: x !in s {
      assert false;
    }
  }

  /** The elements of `s` in increasing order. */
  ghost function Ascending(s: set<int>): seq<int>
    decreases s
  {
    if s == {} then []
    else
      var x := MinOf(s);
      [x] + Ascending(s - {x})
  }

  /** `Ascending(s)` is increasing and holds exactly the elements of `s`. */
  lemma {:induction false} AscendingSpec(s: set<int>)
    ensures Increasing(Ascending(s))
    ensures forall x :: x in Ascending(s) <==> x in s
    decreases s
  {
    if s != {} {
      var x := MinOf(s);
      AscendingSpec(s - {x});
      var t := Ascending(s - {x});
      assert Ascending(s) == [x] + t;
      forall i | 0 <= i < |t|
        ensures x < t[i]
      {
        assert t[i] in t;
      }
    }
  }

  // ---------------------------------------------------------------------------
  // Concatenation

  /** Every key of `ks` is in `m`. */
  predicate KeysIn(m: map<int, seq<byte>>, ks: seq<int>) {
    forall i :: 0 <= i < |ks| ==> ks[i] in m
  }

  /** The values at keys `ks`, concatenated in that order. */
  function ConcatValues(m: map<int, seq<byte>>, ks: seq<int>): seq<byte>
    requires KeysIn(m, ks)
  {
    if ks == [] then [] else m[ks[0]] + ConcatValues(m, ks[1..])
  }

  /** As `ConcatValues`, skipping key 0 (the second loop of `sortParts`). */
  function ConcatNonZero(m: map<int, seq<byte>>, ks: seq<int>): seq<byte>
    requires KeysIn(m, ks)
  {
    if ks == [] then [] else (if ks[0] == 0 then [] else m[ks[0]]) + ConcatNonZero(m, ks[1..])
  }

  /** The value of `data` in `sortParts` after the first `j` keys of `ks`:
      `parts[0]`, then the values at those keys other than 0. */
  function Appended(m: map<int, seq<byte>>, ks: seq<int>, j: nat): seq<byte>
    requires KeysIn(m, ks) && j <= |ks|
  {
    if j == 0 then KeyZero(m) else Appended(m, ks, j - 1) + (if ks[j - 1] == 0 then [] else m[ks[j - 1]])
  }

  lemma {:induction false} ConcatNonZeroAppend(m: map<int, seq<byte>>, ks: seq<int>, k: int)
    requires KeysIn(m, ks) && k in m
    ensures KeysIn(m, ks + [k])
    ensures ConcatNonZero(m, ks + [k]) == ConcatNonZero(m, ks) + (if k == 0 then [] else m[k])
  {
    if ks != [] {
      assert (ks + [k])[1..] == ks[1..] + [k];
      ConcatNonZeroAppend(m, ks[1..], k);
    } else {
      assert [k][1..] == [];
    }
  }

  lemma {:induction false} AppendedPrefix(m: map<int, seq<byte>>, ks: seq<int>, j: nat)
    requires KeysIn(m, ks) && j <= |ks|
    ensures KeysIn(m, ks[..j]) && Appended(m, ks, j) == KeyZero(m) + ConcatNonZero(m, ks[..j])
  {
    if j > 0 {
      AppendedPrefix(m, ks, j - 1);
      assert ks[..j] == ks[..j - 1] + [ks[j - 1]];
      ConcatNonZeroAppend(m, ks[..j - 1], ks[j - 1]);
    }
  }

  /** `parts[0]`: a missing key reads as an empty (nil) slice. */
  function KeyZero(m: map<int, seq<byte>>): seq<byte> {
    if 0 in m then m[0] else []
  }

  /** What `sortParts` returns: the value at key 0 followed by the other values
      in increasing key order. */
  ghost function Joined(m: map<int, seq<byte>>): seq<byte> {
    AscendingKeys(m);
    KeyZero(m) + ConcatNonZero(m, Ascending(m.Keys))
  }

  /** Every value, in increasing key order. */
  ghost function InKeyOrder(m: map<int, seq<byte>>): seq<byte> {
    AscendingKeys(m);
    ConcatValues(m, Ascending(m.Keys))
  }

  /** The sum of the value lengths, in key order. */
  ghost function TotalLength(m: map<int, seq<byte>>): nat {
    AscendingKeys(m);
    LengthSum(m, Ascending(m.Keys))
  }

  lemma AscendingKeys(m: map<int, seq<byte>>)
    ensures KeysIn(m, Ascending(m.Keys))
  {
    AscendingSpec(m.Keys);
    var a := Ascending(m.Keys);
    forall i | 0 <= i < |a|
      ensures a[i] in m
    {
      assert a[i] in a;
    }
  }

  function LengthSum(m: map<int, seq<byte>>, ks: seq<int>): nat
    requires KeysIn(m, ks)
  {
    if ks == [] then 0 else |m[ks[0]]| + LengthSum(m, ks[1..])
  }

  lemma {:induction false} ConcatNonZeroNoZero(m: map<int, seq<byte>>, ks: seq<int>)
    requires KeysIn(m, ks)
    requires 0 !in ks
    ensures ConcatNonZero(m, ks) == ConcatValues(m, ks)
  {
    if ks != [] {
      ConcatNonZeroNoZero(m, ks[1..]);
    }
  }

  lemma {:induction false} ConcatNonZeroLength(m: map<int, seq<byte>>, ks: seq<int>)
    requires KeysIn(m, ks)
    requires Increasing(ks)
    ensures |ConcatNonZero(m, ks)| + (if 0 in ks then |m[0]| else 0) == LengthSum(m, ks)
  {
    if ks != [] {
      assert Increasing(ks[1..]);
      assert ks[0] == 0 ==> 0 !in ks[1..];
      assert 0 in ks <==> ks[0] == 0 || 0 in ks[1..];
      ConcatNonZeroLength(m, ks[1..]);
    }
  }

  /** Sorting an enumeration of a set without repetitions gives the set in
      increasing order, whatever the enumeration order. */
  lemma SortedKeys(keys: seq<int>, sorted: seq<int>, s: set<int>)
    requires Distinct(keys)
    requires forall k :: k in keys <==> k in s
    requires Sorted(sorted) && multiset(sorted) == multiset(keys)
    ensures sorted == Ascending(s)
  {
    SortedDistinct(sorted, keys);
    AscendingSpec(s);
    forall k
      ensures k in sorted <==> k in s
    {
      assert k in sorted <==> k in multiset(sorted);
      assert k in keys <==> k in multiset(keys);
    }
    IncreasingUnique(sorted, Ascending(s));
  }

  // ---------------------------------------------------------------------------
  // sortParts

  /** The first loop of `sortParts`: the keys of the map, each once, in the
      map's unspecified iteration order. */
  method MapKeys(parts: map<int, seq<byte>>) returns (keys: seq<int>)
    ensures Distinct(keys)
    ensures forall k :: k in keys <==> k in parts
  {
    keys := [];
    var unvisited := parts.Keys;
    while unvisited != {}
      invariant unvisited <= parts.Keys
      invariant forall k :: k in keys <==> k in parts && k !in unvisited
      invariant Distinct(keys)
      decreases unvisited
    {
      HasElement(unvisited);
      var k :| k in unvisited;
      keys := keys + [k];
      unvisited := unvisited - {k};
    }
  }

  /** `sortParts`: gather the keys, sort them, and append the values in that
      order after `parts[0]`. */
  method SortParts(parts: map<int, seq<byte>>) returns (data: seq<byte>)
    ensures data == Joined(parts)
  {
    var gathered := MapKeys(parts);
    var keys := SortInts(gathered);
    SortedJoin(parts, gathered, keys);
    data := KeyZero(parts);
    for j := 0 to |keys|
      invariant data == Appended(parts, keys, j)
    {
      var k := keys[j];
      if k != 0 {
        data := data + parts[k];
      }
    }
  }

  /** Appending the values in the order of the sorted keys gives `Joined`. */
  lemma SortedJoin(parts: map<int, seq<byte>>, gathered: seq<int>, keys: seq<int>)
    requires Distinct(gathered)
    requires forall k :: k in gathered <==> k in parts
    requires Sorted(keys) && multiset(keys) == multiset(gathered)
    ensures KeysIn(parts, keys)
    ensures Appended(parts, keys, |keys|) == Joined(parts)
  {
    forall i | 0 <= i < |keys|
      ensures keys[i] in parts
    {
      assert keys[i] in multiset(gathered);
    }
    SortedKeys(gathered, keys, parts.Keys);
    AppendedPrefix(parts, keys, |keys|);
    assert keys[..|keys|] == keys;
  }

  // ---------------------------------------------------------------------------
  // Properties of the joined result

  /** When key 0 is absent, or no key is negative, the result is every value in
      increasing key order; a missing key 0 contributes nothing. */
  lemma JoinedInKeyOrder(m: map<int, seq<byte>>)
    requires 0 !in m || forall k :: k in m ==> k >= 0
    ensures Joined(m) == InKeyOrder(m)
  {
    AscendingSpec(m.Keys);
    AscendingKeys(m);
    var a := Ascending(m.Keys);
    if 0 in m {
      assert forall x :: x in a ==> x >= 0;
      ZeroHead(a);
      ConcatNonZeroNoZero(m, a[1..]);
    } else {
      ConcatNonZeroNoZero(m, a);
    }
  }

  /** An increasing sequence of non-negative keys that holds 0 starts with it,
      and holds it nowhere else. */
  lemma ZeroHead(a: seq<int>)
    requires Increasing(a) && 0 in a
    requires forall x :: x in a ==> x >= 0
    ensures 1 <= |a| && a[0] == 0 && 0 !in a[1..]
  {
    var l :| 0 <= l < |a| && a[l] == 0;
    assert a[0] in a;
  }

  /** The result is as long as all values together. */
  lemma JoinedLength(m: map<int, seq<byte>>)
    ensures |Joined(m)| == TotalLength(m)
  {
    AscendingSpec(m.Keys);
    AscendingKeys(m);
    ConcatNonZeroLength(m, Ascending(m.Keys));
  }

  /** A negative key is placed after key 0, not before it. */
  lemma NegativeKeyAfterZero()
    ensures Joined(map[-1 := [1], 0 := [2]]) == [2, 1]
  {
    var m: map<int, seq<byte>> := map[-1 := [1], 0 := [2]];
    AscendingSpec(m.Keys);
    IncreasingUnique(Ascending(m.Keys), [-1, 0]);
  }

  function Iota(lo: int, hi: int): (r: seq<int>)
    ensures |r| == if lo <= hi then hi - lo else 0
    ensures forall j :: 0 <= j < |r| ==> r[j] == lo + j
    decreases hi - lo
  {
    if lo >= hi then [] else [lo] + Iota(lo + 1, hi)
  }

  /** The task indices `0..n-1`, in increasing order. */
  lemma AscendingIndices(payloads: seq<seq<byte>>)
    ensures Ascending(Indexed(payloads).Keys) == Iota(0, |payloads|)
  {
    var r := Iota(0, |payloads|);
    forall x
      ensures x in r <==> x in Indexed(payloads).Keys
    {
      if 0 <= x < |payloads| {
        assert r[x] == x;
      }
    }
    AscendingSpec(Indexed(payloads).Keys);
    IncreasingUnique(Ascending(Indexed(payloads).Keys), r);
  }
}
