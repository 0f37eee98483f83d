/**
 The ordering operator of LINQ the census uses: `OrderBy` and `OrderByDescending`
 are stable sorts on a key comparison. Here the comparison is any strict weak
 order `lt` on the elements ("sorts strictly before"); elements neither of which
 is before the other compare equal and keep their input order.
 */
module Linq {

  /** `lt` is irreflexive and transitive, and "not before" is transitive too. */
  ghost predicate StrictWeakOrder<T(!new)>(lt: (T, T) -> bool)
  {
    && (forall a :: !lt(a, a))
    && (forall a, b, c :: lt(a, b) && lt(b, c) ==> lt(a, c))
    && (forall a, b, c :: !lt(a, b) && !lt(b, c) ==> !lt(a, c))
  }

  /** Neither element sorts before the other: their keys compare equal. */
  predicate Tied<T>(lt: (T, T) -> bool, a: T, b: T)
  {
    !lt(a, b) && !lt(b, a)
  }

  /** No element sorts before an earlier one. */
  ghost predicate SortedBy<T>(s: seq<T>, lt: (T, T) -> bool)
  {
    forall i, j :: 0 <= i < j < |s| ==> !lt(s[j], s[i])
  }

  ghost predicate NoDuplicates<T>(s: seq<T>)
  {
    forall i, j :: 0 <= i < j < |s| ==> s[i] != s[j]
  }

  /** Position of the first occurrence of `x` in `s`, or `|s|` when there is none. */
  function IndexOf<T(==)>(s: seq<T>, x: T): (i: nat)
    ensures i <= |s|
    ensures i < |s| <==> x in s
    ensures i < |s| ==> s[i] == x
    ensures forall j :: 0 <= j < i ==> s[j] != x
  {
    if s == [] then 0 else if s[0] == x then 0 else 1 + IndexOf(s[1..], x)
  }

  /** Appending an element leaves the first position of everything already present unchanged. */
  lemma {:induction false} IndexOfAppend<T>(s: seq<T>, x: T, y: T)
    ensures y in s ==> IndexOf(s + [x], y) == IndexOf(s, y)
    ensures y !in s && y == x ==> IndexOf(s + [x], y) == |s|
  {
    if s != [] {
      assert (s + [x])[1..] == s[1..] + [x];
      IndexOfAppend(s[1..], x, y);
    }
  }

  /** Puts `x` in front of the first element of the sorted `r` that does not sort before it. */
  function InsertBy<T>(x: T, r: seq<T>, lt: (T, T) -> bool): seq<T>
  {
    if r == [] || !lt(r[0], x) then [x] + r else [r[0]] + InsertBy(x, r[1..], lt)
  }

  /** The stable sort: each element, taken from the back, is inserted ahead of its ties. */
  function OrderBy<T>(s: seq<T>, lt: (T, T) -> bool): seq<T>
  {
    if s == [] then [] else InsertBy(s[0], OrderBy(s[1..], lt), lt)
  }

  /** Where `InsertBy` puts `x`: after exactly the prefix of `r` that sorts before it. */
  lemma {:induction false} InsertBySplit<T>(x: T, r: seq<T>, lt: (T, T) -> bool) returns (k: nat)
    ensures k <= |r| && InsertBy(x, r, lt) == r[..k] + [x] + r[k..]
    ensures forall i :: 0 <= i < k ==> lt(r[i], x)
    ensures k < |r| ==> !lt(r[k], x)
  {
    if r == [] || !lt(r[0], x) {
      k := 0;
    } else {
      var k' := InsertBySplit(x, r[1..], lt);
      k := k' + 1;
      assert r[..k] == [r[0]] + r[1..][..k'];
      assert r[k..] == r[1..][k'..];
    }
  }

  /** Inserting adds exactly the one element. */
  lemma {:induction false} InsertByMultiset<T>(x: T, r: seq<T>, lt: (T, T) -> bool)
    ensures multiset(InsertBy(x, r, lt)) == multiset(r) + multiset{x}
    ensures |InsertBy(x, r, lt)| == |r| + 1
  {
    if r != [] && lt(r[0], x) {
      InsertByMultiset(x, r[1..], lt);
      assert r == [r[0]] + r[1..];
    }
  }

  /** Sorting neither loses, duplicates nor invents an element. */
  lemma {:induction false} OrderByPermutation<T>(s: seq<T>, lt: (T, T) -> bool)
    ensures multiset(OrderBy(s, lt)) == multiset(s)
    ensures |OrderBy(s, lt)| == |s|
  {
    if s != [] {
      OrderByPermutation(s[1..], lt);
      InsertByMultiset(s[0], OrderBy(s[1..], lt), lt);
      assert s == [s[0]] + s[1..];
    }
  }

  /** The result is in order: no element sorts before one placed ahead of it. */
  lemma {:induction false} OrderBySorted<T(!new)>(s: seq<T>, lt: (T, T) -> bool)
    requires StrictWeakOrder(lt)
    ensures SortedBy(OrderBy(s, lt), lt)
  {
    if s != [] {
      var x, r := s[0], OrderBy(s[1..], lt);
      OrderBySorted(s[1..], lt);
      var k := InsertBySplit(x, r, lt);
      var out := OrderBy(s, lt);
      forall i, j | 0 <= i < j < |out|
        ensures !lt(out[j], out[i])
      {
        if j < k || i > k || (i < k && j > k) {
          // both elements come from r, in r's order
        } else if i == k {
          assert !lt(r[j - 1], r[k]) || j - 1 == k;
        } else {
          assert lt(out[i], x);
        }
      }
    }
  }

  /** Sorting a list without repeated elements repeats none. */
  lemma {:induction false} OrderByNoDuplicates<T>(s: seq<T>, lt: (T, T) -> bool)
    requires NoDuplicates(s)
    ensures NoDuplicates(OrderBy(s, lt))
  {
    if s != [] {
      var x, r := s[0], OrderBy(s[1..], lt);
      OrderByNoDuplicates(s[1..], lt);
      OrderByPermutation(s[1..], lt);
      var k := InsertBySplit(x, r, lt);
      assert x !in multiset(r);
    }
  }

  /** Elements that compare equal appear in `out` in the order they have in `s`. */
  ghost predicate KeepsTieOrder<T>(out: seq<T>, s: seq<T>, lt: (T, T) -> bool)
  {
    forall i, j :: 0 <= i < j < |out| && Tied(lt, out[i], out[j]) ==> IndexOf(s, out[i]) < IndexOf(s, out[j])
  }

  /** An element of the tail sits one place further in the whole list. */
  lemma TailPairOrder<T>(s: seq<T>, r: seq<T>, lt: (T, T) -> bool, a: nat, b: nat)
    requires s != [] && s[0] !in s[1..]
    requires multiset(r) == multiset(s[1..])
    requires KeepsTieOrder(r, s[1..], lt)
    requires a < b < |r| && Tied(lt, r[a], r[b])
    ensures IndexOf(s, r[a]) < IndexOf(s, r[b])
  {
    assert r[a] in multiset(s[1..]) && r[b] in multiset(s[1..]);
    assert IndexOf(s[1..], r[a]) < IndexOf(s[1..], r[b]);
  }

  /** One pair of the sorted list after `s[0]` has been inserted at `k` into the sorted tail `r`. */
  lemma PairOrder<T>(s: seq<T>, r: seq<T>, out: seq<T>, lt: (T, T) -> bool, k: nat, i: nat, j: nat)
    requires s != [] && s[0] !in s[1..]
    requires multiset(r) == multiset(s[1..])
    requires KeepsTieOrder(r, s[1..], lt)
    requires k <= |r| && forall m :: 0 <= m < k ==> lt(r[m], s[0])
    requires out == r[..k] + [s[0]] + r[k..]
    requires i < j < |out| && Tied(lt, out[i], out[j])
    ensures IndexOf(s, out[i]) < IndexOf(s, out[j])
  {
    if i == k {
      assert out[i] == s[0] && out[j] == r[j - 1];
      assert r[j - 1] in multiset(s[1..]);
    } else if j != k {
      // (j == k is impossible: everything before s[0] sorts strictly before it)
      var a := if i < k then i else i - 1;
      var b := if j < k then j else j - 1;
      assert out[i] == r[a] && out[j] == r[b];
      TailPairOrder(s, r, lt, a, b);
    }
  }

  /**
   Stability: among elements that compare equal, the sorted list keeps the
   order they had in the input.
   */
  lemma {:induction false} OrderByStable<T>(s: seq<T>, lt: (T, T) -> bool)
    requires NoDuplicates(s)
    ensures KeepsTieOrder(OrderBy(s, lt), s, lt)
  {
    if s != [] {
      var x, tail := s[0], s[1..];
      var r := OrderBy(tail, lt);
      OrderByStable(tail, lt);
      OrderByPermutation(tail, lt);
      var k := InsertBySplit(x, r, lt);
      var out := OrderBy(s, lt);
      assert x !in tail;
      assert out == r[..k] + [x] + r[k..];
      forall i, j | 0 <= i < j < |out| && Tied(lt, out[i], out[j])
        ensures IndexOf(s, out[i]) < IndexOf(s, out[j])
      {
        PairOrder(s, r, out, lt, k, i, j);
      }
    }
  }
}
