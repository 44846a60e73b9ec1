/** Searching an infinite sequence of values for the elements a predicate
    accepts: the walk `select` performs over an infinite stream. */
module Search {

  /** Some index at or after i is accepted. */
  ghost predicate MatchFrom<T>(g: nat -> T, p: T -> bool, i: nat) {
    exists j: nat :: i <= j && p(g(j))
  }

  /** Accepted indexes never run out. */
  ghost predicate InfinitelyOften<T>(g: nat -> T, p: T -> bool) {
    forall i: nat :: MatchFrom(g, p, i)
  }

  /** The least accepted index from i on, scanning towards a known match w. */
  function ScanTo<T>(g: nat -> T, p: T -> bool, i: nat, w: nat): (j: nat)
    requires i <= w && p(g(w))
    ensures i <= j <= w && p(g(j))
    ensures forall l :: i <= l < j ==> !p(g(l))
    decreases w - i
  {
    if p(g(i)) then i else ScanTo(g, p, i + 1, w)
  }

  /** No index in [i, j) is accepted. */
  ghost predicate NoneBetween<T>(g: nat -> T, p: T -> bool, i: nat, j: nat) {
    forall l :: i <= l < j ==> !p(g(l))
  }

  /** The least accepted index from i on. */
  ghost function NextMatch<T>(g: nat -> T, p: T -> bool, i: nat): (j: nat)
    requires MatchFrom(g, p, i)
    ensures i <= j && p(g(j))
    ensures NoneBetween(g, p, i, j)
  {
    LeastMatchExists(g, p, i);
    var j: nat :| i <= j && p(g(j)) && NoneBetween(g, p, i, j);
    j
  }

  lemma LeastMatchExists<T>(g: nat -> T, p: T -> bool, i: nat)
    requires MatchFrom(g, p, i)
    ensures exists j: nat :: i <= j && p(g(j)) && NoneBetween(g, p, i, j)
  {
    var w: nat :| i <= w && p(g(w));
    var j := ScanTo(g, p, i, w);
    assert NoneBetween(g, p, i, j);
  }

  /** The least accepted index from i on is unique. */
  lemma NextMatchIs<T>(g: nat -> T, p: T -> bool, i: nat, j: nat)
    requires i <= j && p(g(j))
    requires NoneBetween(g, p, i, j)
    ensures MatchFrom(g, p, i) && NextMatch(g, p, i) == j
  {
    assert MatchFrom(g, p, i);
  }

  /** The index of the k-th accepted element (counting from 0). */
  ghost function NthMatch<T>(g: nat -> T, p: T -> bool, k: nat): (j: nat)
    requires InfinitelyOften(g, p)
    ensures p(g(j)) && k <= j
  {
    if k == 0 then NextMatch(g, p, 0)
    else
      var prev := NthMatch(g, p, k - 1);
      assert MatchFrom(g, p, prev + 1);
      NextMatch(g, p, prev + 1)
  }

  lemma NthMatchStep<T>(g: nat -> T, p: T -> bool, k: nat)
    requires InfinitelyOften(g, p)
    ensures NthMatch(g, p, k) < NthMatch(g, p, k + 1)
    ensures NthMatch(g, p, k + 1) == NextMatch(g, p, NthMatch(g, p, k) + 1)
  {
  }

  /** The same step with every index named, so that callers can match its
      terms without arithmetic (k == j + 1, m == NthMatch(j) + 1). */
  lemma NthMatchNext<T>(g: nat -> T, p: T -> bool, j: nat, k: nat, m: nat)
    requires InfinitelyOften(g, p)
    requires k == j + 1 && m == NthMatch(g, p, j) + 1
    ensures NthMatch(g, p, k) == NextMatch(g, p, m)
  {
  }

  lemma {:induction false} NthMatchIncreasing<T>(g: nat -> T, p: T -> bool, k: nat, m: nat)
    requires InfinitelyOften(g, p)
    requires k < m
    ensures NthMatch(g, p, k) < NthMatch(g, p, m)
  {
    var f := (i: nat) => NthMatch(g, p, i);
    forall i: nat ensures f(i) < f(i + 1) {
      NthMatchStep(g, p, i);
    }
    ChainIncreasing(f, k, m);
  }

  /** A sequence of naturals that grows at every step grows over any span. */
  lemma {:induction false} ChainIncreasing(f: nat -> nat, k: nat, m: nat)
    requires forall i: nat :: f(i) < f(i + 1)
    requires k < m
    ensures f(k) < f(m)
    decreases m - k
  {
    if k + 1 < m {
      ChainIncreasing(f, k + 1, m);
    }
  }

  /** Between two consecutive accepted indexes nothing is accepted. */
  lemma {:induction false} NthMatchSkipsOnlyRejected<T>(g: nat -> T, p: T -> bool, k: nat, l: nat)
    requires InfinitelyOften(g, p)
    requires l < NthMatch(g, p, k)
    requires k == 0 || NthMatch(g, p, k - 1) < l
    ensures !p(g(l))
  {
  }

  /** Every accepted index is the k-th accepted one for some k. */
  lemma {:induction false} NthMatchCovers<T>(g: nat -> T, p: T -> bool, j: nat)
    requires InfinitelyOften(g, p)
    requires p(g(j))
    ensures exists k: nat :: NthMatch(g, p, k) == j
  {
    var k := FirstAtOrAbove(g, p, j);
    if NthMatch(g, p, k) != j {
      NthMatchSkipsOnlyRejected(g, p, k, j);
    }
  }

  /** The first k whose accepted index is at or above j. */
  lemma {:induction false} FirstAtOrAbove<T>(g: nat -> T, p: T -> bool, j: nat) returns (k: nat)
    requires InfinitelyOften(g, p)
    ensures j <= NthMatch(g, p, k)
    ensures k == 0 || NthMatch(g, p, k - 1) < j
  {
    if j == 0 {
      k := 0;
    } else {
      k := FirstAtOrAbove(g, p, j - 1);
      if NthMatch(g, p, k) < j {
        NthMatchIncreasing(g, p, k, k + 1);
        k := k + 1;
      }
    }
  }

  /** The elements of s that p accepts, in order. */
  function Filter<T>(s: seq<T>, p: T -> bool): (r: seq<T>)
    ensures |r| <= |s|
  {
    if s == [] then []
    else if p(s[0]) then [s[0]] + Filter(s[1..], p)
    else Filter(s[1..], p)
  }

  lemma {:induction false} FilterAppend<T>(a: seq<T>, b: seq<T>, p: T -> bool)
    ensures Filter(a + b, p) == Filter(a, p) + Filter(b, p)
  {
    if a == [] {
      assert a + b == b;
    } else {
      assert (a + b)[1..] == a[1..] + b;
      FilterAppend(a[1..], b, p);
    }
  }

  /** Filtering with two predicates that agree everywhere gives the same list. */
  lemma {:induction false} FilterCongruent<T>(s: seq<T>, p: T -> bool, q: T -> bool)
    requires forall x :: p(x) == q(x)
    ensures Filter(s, p) == Filter(s, q)
    decreases |s|
  {
    if s != [] {
      FilterCongruent(s[1..], p, q);
    }
  }

  lemma {:induction false} FilterMembers<T>(s: seq<T>, p: T -> bool, x: T)
    ensures x in Filter(s, p) <==> x in s && p(x)
  {
    if s != [] {
      FilterMembers(s[1..], p, x);
      assert s == [s[0]] + s[1..];
    }
  }

  lemma {:induction false} FilterAll<T>(s: seq<T>, p: T -> bool)
    requires forall x :: x in s ==> p(x)
    ensures Filter(s, p) == s
  {
    if s != [] {
      FilterAll(s[1..], p);
      assert s == [s[0]] + s[1..];
    }
  }

  lemma {:induction false} FilterNone<T>(s: seq<T>, p: T -> bool)
    requires forall x :: x in s ==> !p(x)
    ensures Filter(s, p) == []
  {
    if s != [] {
      FilterNone(s[1..], p);
    }
  }

  /** The prefix of g up to a bound past its last accepted index. */
  lemma {:induction false} FilterPrefixStable<T>(g: nat -> T, p: T -> bool, n: nat, m: nat)
    requires n <= m
    requires !MatchFrom(g, p, n)
    ensures Filter(Prefix(g, n), p) == Filter(Prefix(g, m), p)
  {
    var tail := seq(m - n, (k: int) requires 0 <= k < m - n => g(n + k));
    assert Prefix(g, m) == Prefix(g, n) + tail;
    FilterAppend(Prefix(g, n), tail, p);
    forall x | x in tail ensures !p(x) {
      var k :| 0 <= k < |tail| && tail[k] == x;
      assert g(n + k) == x;
    }
    FilterNone(tail, p);
  }

  function Prefix<T>(g: nat -> T, n: nat): (r: seq<T>)
    ensures |r| == n && forall k :: 0 <= k < n ==> r[k] == g(k)
  {
    seq(n, (k: int) requires 0 <= k => g(k))
  }

  /** g without its first element. */
  function Shift<T>(g: nat -> T): (h: nat -> T)
    ensures forall k: nat :: h(k) == g(k + 1)
  {
    (k: nat) => g(k + 1)
  }

  lemma ShiftMatchFrom<T>(g: nat -> T, p: T -> bool, i: nat)
    ensures MatchFrom(g, p, i + 1) <==> MatchFrom(Shift(g), p, i)
  {
    if MatchFrom(g, p, i + 1) {
      var j: nat :| i + 1 <= j && p(g(j));
      assert Shift(g)(j - 1) == g(j);
    }
    if MatchFrom(Shift(g), p, i) {
      var j: nat :| i <= j && p(Shift(g)(j));
      assert g(j + 1) == Shift(g)(j);
    }
  }

  /** Two searches that accept at the same indexes find the same matches. */
  lemma NextMatchCongruent<T, U>(g: nat -> T, p: T -> bool, h: nat -> U, q: U -> bool, i: nat)
    requires forall j: nat :: p(g(j)) == q(h(j))
    requires MatchFrom(g, p, i)
    ensures MatchFrom(h, q, i) && NextMatch(h, q, i) == NextMatch(g, p, i)
  {
    NextMatchIs(h, q, i, NextMatch(g, p, i));
  }

  lemma {:induction false} NthMatchCongruent<T, U>(g: nat -> T, p: T -> bool, h: nat -> U, q: U -> bool, k: nat)
    requires forall j: nat :: p(g(j)) == q(h(j))
    requires InfinitelyOften(g, p)
    ensures InfinitelyOften(h, q) && NthMatch(h, q, k) == NthMatch(g, p, k)
  {
    forall i: nat ensures MatchFrom(h, q, i) {
      NextMatchCongruent(g, p, h, q, i);
    }
    if k == 0 {
      NextMatchCongruent(g, p, h, q, 0);
    } else {
      var j: nat := k - 1;
      NthMatchCongruent(g, p, h, q, j);
      var m := NthMatch(g, p, j) + 1;
      NthMatchNext(g, p, j, k, m);
      NthMatchNext(h, q, j, k, m);
      NextMatchCongruent(g, p, h, q, m);
    }
  }

  /** A rejected element does not change whether a match lies ahead. */
  lemma MatchFromPastRejected<T>(g: nat -> T, p: T -> bool, i: nat)
    requires !p(g(i))
    ensures MatchFrom(g, p, i) <==> MatchFrom(g, p, i + 1)
  {
    if MatchFrom(g, p, i) {
      var j: nat :| i <= j && p(g(j));
      assert i + 1 <= j;
    }
  }

  lemma ShiftInfinitelyOften<T>(g: nat -> T, p: T -> bool)
    ensures InfinitelyOften(g, p) <==> InfinitelyOften(Shift(g), p)
  {
    if InfinitelyOften(g, p) {
      forall i: nat ensures MatchFrom(Shift(g), p, i) {
        ShiftMatchFrom(g, p, i);
      }
    }
    if InfinitelyOften(Shift(g), p) {
      forall i: nat ensures MatchFrom(g, p, i) {
        ShiftMatchFrom(g, p, i);
        assert MatchFrom(g, p, i + 1);
        var j: nat :| i + 1 <= j && p(g(j));
      }
    }
  }

  /** Scanning g from m == i + 1 is scanning its shift from i, one index later. */
  lemma NextMatchShift<T>(g: nat -> T, p: T -> bool, i: nat, m: nat)
    requires MatchFrom(Shift(g), p, i)
    requires m == i + 1
    ensures MatchFrom(g, p, m)
    ensures NextMatch(g, p, m) == NextMatch(Shift(g), p, i) + 1
  {
    ShiftMatchFrom(g, p, i);
    var j := NextMatch(Shift(g), p, i);
    forall l | m <= l < j + 1 ensures !p(g(l)) {
      assert g(l) == Shift(g)(l - 1);
    }
    NextMatchIs(g, p, m, j + 1);
  }

  /** When the first element is rejected, every accepted index of g is one
      past the matching accepted index of g without its first element. */
  lemma {:induction false} NthMatchShiftRejected<T>(g: nat -> T, p: T -> bool, k: nat)
    requires InfinitelyOften(g, p) && InfinitelyOften(Shift(g), p)
    requires !p(g(0))
    ensures NthMatch(g, p, k) == NthMatch(Shift(g), p, k) + 1
  {
    var h := Shift(g);
    if k == 0 {
      var j := NextMatch(h, p, 0);
      assert NoneBetween(h, p, 0, j);
      forall l | 0 <= l < j + 1 ensures !p(g(l)) {
        if l > 0 {
          assert g(l) == h(l - 1);
        }
      }
      NextMatchIs(g, p, 0, j + 1);
    } else {
      var j: nat := k - 1;
      NthMatchShiftRejected(g, p, j);
      var i := NthMatch(h, p, j) + 1;
      var m := i + 1;
      NextMatchShift(g, p, i, m);
      NthMatchNext(h, p, j, k, i);
      NthMatchNext(g, p, j, k, m);
    }
  }

  /** When the first element is accepted it is the 0-th match, and the
      (k+1)-th accepted index of g is one past the k-th of its shift
      (k1 names k + 1). */
  lemma {:induction false} NthMatchShiftAccepted<T>(g: nat -> T, p: T -> bool, k: nat, k1: nat)
    requires InfinitelyOften(g, p) && InfinitelyOften(Shift(g), p)
    requires p(g(0))
    requires k1 == k + 1
    ensures NthMatch(g, p, 0) == 0
    ensures NthMatch(g, p, k1) == NthMatch(Shift(g), p, k) + 1
  {
    var h := Shift(g);
    NextMatchIs(g, p, 0, 0);
    if k == 0 {
      NextMatchShift(g, p, 0, 1);
      NthMatchNext(g, p, 0, 1, 1);
    } else {
      var j: nat := k - 1;
      NthMatchShiftAccepted(g, p, j, k);
      var i := NthMatch(h, p, j) + 1;
      var m := i + 1;
      NextMatchShift(g, p, i, m);
      NthMatchNext(h, p, j, k, i);
      NthMatchNext(g, p, k, k1, m);
    }
  }
}
