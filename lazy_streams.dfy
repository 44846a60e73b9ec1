/** The generators that the `lazy_stream` version of the library adds:
    `interleave`, `pairs`, `make_tableau` / `accelerated_sequence`, `gcd`,
    the pass/fail counting of `monte_carlo`, and `to_a`.

    The `lazy_stream` library is modelled with the semantics of the `Stream`
    class, except that `lazy_stream(x)` without a block is a proper
    one-element stream. `interleave`, `pairs` and `monte_carlo` only ever
    meet infinite streams, and take them as the functions from index to
    element. */
module LazyStreams {
  import opened StreamCore
  import opened Search
  import opened StreamOps
  import opened Arith
  import opened Generators
  import opened PrimeStreams

  // ----- lazy_stream literals and to_a -----

  /** `lazy_stream(x)` without a block: x, then the empty stream. */
  function LazySingle<T>(x: T): Stream<T> {
    Finite([x], Stop)
  }

  function Snoc<T>(acc: seq<T>, x: T): seq<T> {
    acc + [x]
  }

  /** `to_a`: the elements in order, collected as `reduce([]) { |a, x| a + [x] }`. */
  function ToA<T>(s: Stream<T>): Outcome<seq<T>> {
    Reduce(s, [], Snoc)
  }

  lemma {:induction false} FoldSnoc<T>(xs: seq<T>)
    ensures FoldLeft([], xs, Snoc) == xs
    decreases |xs|
  {
    if xs != [] {
      FoldSnoc(xs[..|xs| - 1]);
    }
  }

  /** `to_a` lists the elements of a stream that ends in the empty stream;
      it raises or hangs when the walk past the last element does. */
  lemma ToAElements<T>(s: Stream<T>)
    ensures s.Finite? ==> ToA(s) == if s.items == [] then Value([]) else Past(s.ending, s.items)
    ensures s.Infinite? ==> ToA(s) == Diverges
  {
    ReduceIsFoldLeft(s, [], Snoc);
    if s.Finite? {
      FoldSnoc(s.items);
    }
  }

  /** `lazy_stream(1) { lazy_stream(2) { lazy_stream } }.to_a == [1, 2]` and
      `lazy_stream(1) { lazy_stream(2) { lazy_stream(3) } }.to_a == [1, 2, 3]`;
      with `Stream.new(3)` in place of `lazy_stream(3)` the walk reaches the
      nil tail and raises. */
  lemma LiteralStreams()
    ensures ToA(Prepend(1, Value(Prepend(2, Value(Empty()))))) == Value([1, 2])
    ensures ToA(Prepend(1, Value(Prepend(2, Value(LazySingle(3)))))) == Value([1, 2, 3])
    ensures ToA(Prepend(1, Value(Prepend(2, Value(Single(3)))))) == Raises
  {
    var a, b, c := Finite([1, 2], Stop), Finite([1, 2, 3], Stop), Finite([1, 2, 3], NilTail);
    assert Prepend(1, Value(Prepend(2, Value(Empty())))) == a;
    assert Prepend(1, Value(Prepend(2, Value(LazySingle(3))))) == b;
    assert Prepend(1, Value(Prepend(2, Value(Single(3))))) == c;
    ToAElements(a);
    ToAElements(b);
    ToAElements(c);
  }

  // ----- interleave -----

  /** `LazyStream.interleave(s1, s2)`: `s1.first`, then the interleaving of
      s2 with `s1.rest` (the arguments swap at every step). */
  function Interleave<T>(a: nat -> T, b: nat -> T): Stream<T> {
    Infinite((k: nat) => if k % 2 == 0 then a(k / 2) else b(k / 2))
  }

  /** The recursion equation of `interleave`. */
  lemma InterleaveUnfolds<T>(a: nat -> T, b: nat -> T)
    ensures Same(Interleave(a, b), Prepend(a(0), Value(Interleave(b, Shift(a)))))
  {
    var r := Prepend(a(0), Value(Interleave(b, Shift(a))));
    forall k: nat ensures Interleave(a, b).elem(k) == r.elem(k) {
      if k > 0 {
        var k0: nat := k - 1;
        if k % 2 == 0 {
          assert k0 % 2 == 1 && k0 / 2 + 1 == k / 2;
        } else {
          assert k0 % 2 == 0 && k0 / 2 == k / 2;
        }
      }
    }
  }

  // ----- pairs -----

  /** Where the k-th pair of `pairs(s, t)` takes its elements from: index i
      of s and index j of t. Pair 0 is the two firsts; after it come, in
      turn, the pairs of s's first with t's later elements and the pairs of
      `pairs(s.rest, t.rest)`. */
  function PairIndex(k: nat): (r: (nat, nat))
    ensures r.0 <= r.1
    decreases k
  {
    if k == 0 then (0, 0)
    else if (k - 1) % 2 == 0 then (0, (k - 1) / 2 + 1)
    else var r := PairIndex((k - 1) / 2); (r.0 + 1, r.1 + 1)
  }

  function PairAt<T>(a: nat -> T, b: nat -> T, k: nat): (T, T) {
    (a(PairIndex(k).0), b(PairIndex(k).1))
  }

  /** `pairs(s, t)`. */
  function Pairs<T>(a: nat -> T, b: nat -> T): Stream<(T, T)> {
    Infinite((k: nat) => PairAt(a, b, k))
  }

  /** The recursion equation of `pairs`: `[s.first, t.first]`, then the
      interleaving of `t.rest.map { |x| [s.first, x] }` with
      `pairs(s.rest, t.rest)`. */
  lemma PairsUnfolds<T>(a: nat -> T, b: nat -> T)
    ensures Same(Pairs(a, b),
                 Prepend((a(0), b(0)),
                   Value(Interleave((k: nat) => (a(0), b(k + 1)),
                                    (k: nat) => PairAt(Shift(a), Shift(b), k)))))
  {
    var r := Prepend((a(0), b(0)),
               Value(Interleave((k: nat) => (a(0), b(k + 1)),
                                (k: nat) => PairAt(Shift(a), Shift(b), k))));
    forall k: nat ensures Pairs(a, b).elem(k) == r.elem(k) {
      if k > 0 {
        var k0: nat := k - 1;
        assert r.elem(k) == Interleave((k: nat) => (a(0), b(k + 1)),
                                       (k: nat) => PairAt(Shift(a), Shift(b), k)).elem(k0);
      }
    }
  }

  /** The position of the pair of indexes (i, j), i <= j, in `pairs`. */
  function PairPosition(i: nat, j: nat): nat
    requires i <= j
  {
    if i == 0 then (if j == 0 then 0 else 2 * j - 1)
    else 2 * PairPosition(i - 1, j - 1) + 2
  }

  /** Every pair of indexes (i, j) with i <= j is listed, at PairPosition(i, j). */
  lemma {:induction false} PairsCoverAll(i: nat, j: nat)
    requires i <= j
    ensures PairIndex(PairPosition(i, j)) == (i, j)
  {
    if i == 0 {
      PairsCoverFirstRow(j);
    } else {
      var i0: nat, j0: nat := i - 1, j - 1;
      PairsCoverAll(i0, j0);
      var k0 := PairPosition(i0, j0);
      var k := PairPosition(i, j);
      assert k == 2 * k0 + 2;
      PairIndexOdd(k, k0);
    }
  }

  /** The pairs (0, j) stand at positions 0, 1, 3, 5, ... */
  lemma PairsCoverFirstRow(j: nat)
    ensures PairIndex(PairPosition(0, j)) == (0, j)
  {
    if j > 0 {
      var k := PairPosition(0, j);
      assert k - 1 == 2 * (j - 1);
    }
  }

  /** Position 2h + 2 holds the pair after the one at position h. */
  lemma PairIndexOdd(k: nat, h: nat)
    requires k == 2 * h + 2
    ensures PairIndex(k) == (PairIndex(h).0 + 1, PairIndex(h).1 + 1)
  {
    OddHalf(k - 1, h);
  }

  lemma OddHalf(m: nat, h: nat)
    requires m == 2 * h + 1
    ensures m % 2 == 1 && m / 2 == h
  {
  }

  /** ... and listed once: position k holds the pair whose position is k. */
  lemma {:induction false} PairsListOnce(k: nat)
    ensures PairPosition(PairIndex(k).0, PairIndex(k).1) == k
    decreases k
  {
    if k > 0 && (k - 1) % 2 == 1 {
      PairsListOnce((k - 1) / 2);
    }
  }

  /** `pairs(integers, integers)`. */
  function IntegerPairs(): Stream<(int, int)> {
    Pairs(Integers().elem, Integers().elem)
  }

  /** In `pairs(integers, integers)` every pair [i, j] has 1 <= i <= j, and
      every such pair occurs. */
  lemma IntegerPairsOrdered(k: nat)
    ensures 1 <= IntegerPairs().elem(k).0 <= IntegerPairs().elem(k).1
  {
  }

  lemma IntegerPairsComplete(i: int, j: int) returns (k: nat)
    requires 1 <= i <= j
    ensures IntegerPairs().elem(k) == (i, j)
  {
    k := PairPosition(i - 1, j - 1);
    PairsCoverAll(i - 1, j - 1);
  }

  lemma PairIndexFirstFive()
    ensures PairIndex(0) == (0, 0) && PairIndex(1) == (0, 1) && PairIndex(2) == (1, 1)
    ensures PairIndex(3) == (0, 2) && PairIndex(4) == (1, 2)
  {
    assert PairIndex(1) == (0, 1);
  }

  /** `pairs(integers, integers).take(5)` is [1, 1], [1, 2], [2, 2], [1, 3], [2, 3]. */
  lemma IntegerPairsFirstFive(n: nat)
    requires n <= 5
    ensures Take(IntegerPairs(), n) == Finite([(1, 1), (1, 2), (2, 2), (1, 3), (2, 3)][..n], Stop)
  {
    var want := [(1, 1), (1, 2), (2, 2), (1, 3), (2, 3)][..n];
    var s := IntegerPairs();
    PairIndexFirstFive();
    forall k | 0 <= k < |want| ensures s.elem(k) == want[k] {
    }
    TakeListed(s, want);
  }

  /** The block `{ |i, j| prime?(i + j) }`. */
  ghost function PrimeSum(): ((int, int)) -> bool {
    (pr: (int, int)) => AcceptedBy(Primes())(pr.0 + pr.1)
  }

  /** The same test stated with the number-theoretic primality predicate. */
  function PrimeSumTest(): ((int, int)) -> bool {
    (pr: (int, int)) => IsPrime(pr.0 + pr.1)
  }

  /** On the integer pairs, whose sums are at least 2, `prime?` in the block
      answers exactly for the prime sums. */
  lemma PrimeSumAgrees()
    ensures forall j: nat :: PrimeSumTest()(IntegerPairs().elem(j)) == PrimeSum()(IntegerPairs().elem(j))
  {
    forall j: nat ensures PrimeSumTest()(IntegerPairs().elem(j)) == PrimeSum()(IntegerPairs().elem(j)) {
      var pr := IntegerPairs().elem(j);
      assert pr.0 + pr.1 >= 2;
      IsPrimeAnswers(pr.0 + pr.1);
    }
  }

  /** Pairs with a prime sum never run out: [1, q - 1] for every prime q. */
  lemma PrimeSumOften()
    ensures InfinitelyOften(IntegerPairs().elem, PrimeSumTest())
  {
    var g := IntegerPairs().elem;
    forall i: nat ensures MatchFrom(g, PrimeSumTest(), i) {
      var q := PrimeAbove(i + 3);
      var k := IntegerPairsComplete(1, q - 1);
      assert k == 2 * (q - 2) - 1;
    }
  }

  lemma PairIndexUpToNine()
    ensures PairIndex(5) == (0, 3) && PairIndex(6) == (2, 2) && PairIndex(7) == (0, 4)
    ensures PairIndex(8) == (1, 3) && PairIndex(9) == (0, 5)
  {
    PairIndexSix();
    PairIndexEight();
  }

  lemma PairIndexSix()
    ensures PairIndex(6) == (2, 2)
  {
    assert PairIndex(2) == (1, 1);
  }

  lemma PairIndexEight()
    ensures PairIndex(8) == (1, 3)
  {
    assert PairIndex(3) == (0, 2);
  }

  /** Which of the first ten integer pairs have a prime sum. */
  lemma PrimeSumFirstTen()
    ensures var g := IntegerPairs().elem;
      PrimeSumTest()(g(0)) && PrimeSumTest()(g(1)) && !PrimeSumTest()(g(2)) && !PrimeSumTest()(g(3)) &&
      PrimeSumTest()(g(4)) && PrimeSumTest()(g(5)) && !PrimeSumTest()(g(6)) && !PrimeSumTest()(g(7)) &&
      !PrimeSumTest()(g(8)) && PrimeSumTest()(g(9))
    ensures var g := IntegerPairs().elem;
      g(0) == (1, 1) && g(1) == (1, 2) && g(4) == (2, 3) && g(5) == (1, 4) && g(9) == (1, 6)
  {
    PairIndexFirstFive();
    PairIndexUpToNine();
    SmallPrimes();
    assert !IsPrime(4) && !IsPrime(6);
  }

  /** One step of the search: the match after index a is b when nothing in
      between is accepted. */
  lemma MatchAfter<T>(g: nat -> T, p: T -> bool, j: nat, k: nat, a: nat, b: nat)
    requires InfinitelyOften(g, p)
    requires k == j + 1 && NthMatch(g, p, j) == a
    requires a < b && p(g(b)) && NoneBetween(g, p, a + 1, b)
    ensures NthMatch(g, p, k) == b
  {
    NthMatchNext(g, p, j, k, a + 1);
    NextMatchIs(g, p, a + 1, b);
  }

  /** The first five matches stand at indexes 0, 1, 4, 5 and 9 when those are
      the accepted ones among the first ten, and they list those elements. */
  lemma {:induction false} MatchesZeroOneFourFiveNine<T>(g: nat -> T, p: T -> bool, want: seq<T>)
    requires InfinitelyOften(g, p)
    requires p(g(0)) && p(g(1)) && !p(g(2)) && !p(g(3)) && p(g(4)) && p(g(5))
    requires !p(g(6)) && !p(g(7)) && !p(g(8)) && p(g(9))
    requires |want| <= 5 && want == [g(0), g(1), g(4), g(5), g(9)][..|want|]
    ensures forall k :: 0 <= k < |want| ==> g(NthMatch(g, p, k)) == want[k]
  {
    NextMatchIs(g, p, 0, 0);
    MatchAfter(g, p, 0, 1, 0, 1);
    MatchAfter(g, p, 1, 2, 1, 4);
    MatchAfter(g, p, 2, 3, 4, 5);
    MatchAfter(g, p, 3, 4, 5, 9);
  }

  /** The first five integer pairs with a prime sum, in the order `pairs`
      lists them. */
  lemma PrimeSumListed(want: seq<(int, int)>)
    requires |want| <= 5 && want == [(1, 1), (1, 2), (2, 3), (1, 4), (1, 6)][..|want|]
    ensures InfinitelyOften(IntegerPairs().elem, PrimeSumTest())
    ensures forall k :: 0 <= k < |want| ==>
      IntegerPairs().elem(NthMatch(IntegerPairs().elem, PrimeSumTest(), k)) == want[k]
  {
    PrimeSumOften();
    PrimeSumFirstTen();
    MatchesZeroOneFourFiveNine(IntegerPairs().elem, PrimeSumTest(), want);
  }

  /** Selecting with p from an infinite stream lists the elements at the
      matches of any test q that agrees with p there. */
  lemma SelectTakeListed<T>(g: nat -> T, p: T -> bool, q: T -> bool, want: seq<T>)
    requires forall j: nat :: q(g(j)) == p(g(j))
    requires InfinitelyOften(g, q)
    requires forall k :: 0 <= k < |want| ==> g(NthMatch(g, q, k)) == want[k]
    ensures Select(Infinite(g), p).Value?
    ensures Take(Select(Infinite(g), p).get, |want|) == Finite(want, Stop)
  {
    NthMatchCongruent(g, q, g, p, 0);
    var s := Select(Infinite(g), p);
    assert s == SelectInfinite(g, p);
    forall k | 0 <= k < |want| ensures s.get.elem(k) == want[k] {
      NthMatchCongruent(g, q, g, p, k);
    }
    TakeListed(s.get, want);
  }

  /** `pairs(integers, integers).select { |i, j| prime?(i + j) }.take(5)` is
      [1, 1], [1, 2], [2, 3], [1, 4], [1, 6]. */
  lemma PrimeSumPairsFirstFive(n: nat)
    requires n <= 5
    ensures Select(IntegerPairs(), PrimeSum()).Value?
    ensures Take(Select(IntegerPairs(), PrimeSum()).get, n)
            == Finite([(1, 1), (1, 2), (2, 3), (1, 4), (1, 6)][..n], Stop)
  {
    var g := IntegerPairs().elem;
    var want := [(1, 1), (1, 2), (2, 3), (1, 4), (1, 6)][..n];
    PrimeSumListed(want);
    PrimeSumAgrees();
    assert IntegerPairs() == Infinite(g);
    SelectTakeListed(g, PrimeSum(), PrimeSumTest(), want);
  }

  // ----- make_tableau and accelerated_sequence -----

  /** f applied n times to s. */
  function Iterate<S>(f: S -> S, s: S, n: nat): S {
    if n == 0 then s else f(Iterate(f, s, n - 1))
  }

  lemma {:induction false} IterateInside<S>(f: S -> S, s: S, n: nat)
    ensures Iterate(f, s, n + 1) == Iterate(f, f(s), n)
  {
    if n > 0 {
      IterateInside(f, s, n - 1);
    }
  }

  /** `make_tableau(s, &transform)`: s, the transform of s, its transform,
      and so on. */
  function MakeTableau<S>(s: S, f: S -> S): Stream<S> {
    Infinite((n: nat) => Iterate(f, s, n))
  }

  /** The recursion equation of `make_tableau`:
      `lazy_stream(s) { make_tableau(transform.call(s), &transform) }`. */
  lemma MakeTableauUnfolds<S>(s: S, f: S -> S)
    ensures Same(MakeTableau(s, f), Prepend(s, Value(MakeTableau(f(s), f))))
  {
    var r := Prepend(s, Value(MakeTableau(f(s), f)));
    forall n: nat ensures MakeTableau(s, f).elem(n) == r.elem(n) {
      if n > 0 {
        IterateInside(f, s, n - 1);
      }
    }
  }

  /** The index of the first row of the tableau with no first element, if
      there is one. */
  ghost function FirstEmptyRow<T>(s: Stream<T>, f: Stream<T> -> Stream<T>): (r: Option<nat>)
    ensures r.Some? ==> IsEmpty(Iterate(f, s, r.value))
    ensures r.Some? ==> forall j :: 0 <= j < r.value ==> !IsEmpty(Iterate(f, s, j))
    ensures r.None? ==> forall j: nat :: !IsEmpty(Iterate(f, s, j))
  {
    var rows := MakeTableau(s, f).elem;
    if MatchFrom(rows, IsEmpty, 0) then
      var m := NextMatch(rows, IsEmpty, 0);
      assert forall j :: 0 <= j < m ==> rows(j) == Iterate(f, s, j) && !IsEmpty(rows(j));
      Some(m)
    else
      assert forall j: nat :: rows(j) == Iterate(f, s, j) && !IsEmpty(rows(j));
      None
  }

  /** `accelerated_sequence(s, &transform)`: `make_tableau(...).map(&:first)`.
      `map` puts the first of each row in a node of its own; at the first
      row that has none, that node's first is nil, which makes it the empty
      stream, so the sequence stops there. */
  ghost function AcceleratedSequence<T>(s: Stream<T>, f: Stream<T> -> Stream<T>): Stream<T> {
    match FirstEmptyRow(s, f)
    case None => Infinite((n: nat) => First(Iterate(f, s, n)).value)
    case Some(m) => Finite(seq(m, (i: int) requires 0 <= i < m => First(Iterate(f, s, i)).value), Stop)
  }

  /** Element n of `accelerated_sequence(s, T)`, when it exists, is the
      first of T applied n times to s, and no row up to n is empty. The
      sequence is infinite exactly when no row is empty; otherwise it ends
      in `Stream.new` just before the first empty row. */
  lemma AcceleratedSequenceElem<T>(s: Stream<T>, f: Stream<T> -> Stream<T>, n: nat)
    ensures Has(AcceleratedSequence(s, f), n) ==> forall j :: 0 <= j <= n ==> !IsEmpty(Iterate(f, s, j))
    ensures Has(AcceleratedSequence(s, f), n) ==>
              First(Iterate(f, s, n)) == Some(Elem(AcceleratedSequence(s, f), n))
    ensures AcceleratedSequence(s, f).Infinite? ==> forall j: nat :: !IsEmpty(Iterate(f, s, j))
    ensures AcceleratedSequence(s, f).Finite? ==>
              AcceleratedSequence(s, f).ending == Stop &&
              IsEmpty(Iterate(f, s, |AcceleratedSequence(s, f).items|))
  {
    var a := AcceleratedSequence(s, f);
    var r := FirstEmptyRow(s, f);
    if r.Some? {
      var m := r.value;
      assert a.Finite? && |a.items| == m && a.ending == Stop;
      assert IsEmpty(Iterate(f, s, m));
      if n < m {
        assert a.items[n] == First(Iterate(f, s, n)).value;
      }
    } else {
      assert a.Infinite? && a.elem(n) == First(Iterate(f, s, n)).value;
    }
  }

  /** The first empty row of a non-empty s is one past that of its transform. */
  lemma FirstEmptyRowStep<T>(s: Stream<T>, f: Stream<T> -> Stream<T>)
    requires !IsEmpty(s)
    ensures FirstEmptyRow(s, f).None? <==> FirstEmptyRow(f(s), f).None?
    ensures FirstEmptyRow(s, f).Some? ==> FirstEmptyRow(s, f).value == FirstEmptyRow(f(s), f).value + 1
  {
    var r := FirstEmptyRow(s, f);
    var q := FirstEmptyRow(f(s), f);
    if q.Some? {
      IterateInside(f, s, q.value);
      if r.Some? && r.value != q.value + 1 {
        if r.value < q.value + 1 {
          assert r.value > 0;
          IterateInside(f, s, r.value - 1);
        }
      }
    } else if r.Some? {
      assert r.value > 0;
      IterateInside(f, s, r.value - 1);
    }
  }

  /** The recursion of `make_tableau(s, &t).map(&:first)`: on an empty s it
      is `Stream.new`, and otherwise the first of s in front of the sequence
      for t applied to s. */
  lemma AcceleratedSequenceUnfolds<T>(s: Stream<T>, f: Stream<T> -> Stream<T>)
    ensures IsEmpty(s) ==> Same(AcceleratedSequence(s, f), Empty())
    ensures !IsEmpty(s) ==>
              Same(AcceleratedSequence(s, f), Prepend(First(s).value, Value(AcceleratedSequence(f(s), f))))
  {
    if IsEmpty(s) {
      assert Iterate(f, s, 0) == s;
      assert FirstEmptyRow(s, f) == Some(0);
    } else {
      FirstEmptyRowStep(s, f);
      if FirstEmptyRow(f(s), f).None? {
        AcceleratedSequenceStepInfinite(s, f);
      } else {
        AcceleratedSequenceStepFinite(s, f);
      }
    }
  }

  /** Where no row is empty, element k is the first of row k. */
  lemma AcceleratedInfiniteElem<T>(s: Stream<T>, f: Stream<T> -> Stream<T>, k: nat)
    requires FirstEmptyRow(s, f).None?
    ensures AcceleratedSequence(s, f).Infinite?
    ensures First(Iterate(f, s, k)) == Some(AcceleratedSequence(s, f).elem(k))
  {
  }

  /** Where row m is the first empty one, the sequence lists m elements, the
      firsts of rows 0..m-1. */
  lemma AcceleratedFiniteElem<T>(s: Stream<T>, f: Stream<T> -> Stream<T>, k: nat)
    requires FirstEmptyRow(s, f).Some?
    ensures AcceleratedSequence(s, f).Finite?
    ensures |AcceleratedSequence(s, f).items| == FirstEmptyRow(s, f).value
    ensures k < FirstEmptyRow(s, f).value ==>
              First(Iterate(f, s, k)) == Some(AcceleratedSequence(s, f).items[k])
  {
  }

  /** Element k of `x` put in front of an infinite stream z. */
  lemma PrependInfiniteElem<T>(x: T, z: Stream<T>, k: nat)
    requires z.Infinite?
    ensures Prepend(x, Value(z)).Infinite?
    ensures Prepend(x, Value(z)).elem(k) == if k == 0 then x else z.elem(k - 1)
  {
  }

  lemma AcceleratedSequenceStepInfinite<T>(s: Stream<T>, f: Stream<T> -> Stream<T>)
    requires !IsEmpty(s) && FirstEmptyRow(s, f).None? && FirstEmptyRow(f(s), f).None?
    ensures Same(AcceleratedSequence(s, f), Prepend(First(s).value, Value(AcceleratedSequence(f(s), f))))
  {
    AcceleratedInfiniteElem(s, f, 0);
    AcceleratedInfiniteElem(f(s), f, 0);
    var x := AcceleratedSequence(s, f);
    var z := AcceleratedSequence(f(s), f);
    var y := Prepend(First(s).value, Value(z));
    forall k0: nat ensures x.elem(k0 + 1) == z.elem(k0) {
      AcceleratedInfiniteElem(s, f, k0 + 1);
      IterateInside(f, s, k0);
      AcceleratedInfiniteElem(f(s), f, k0);
    }
    assert Iterate(f, s, 0) == s;
    forall k: nat ensures x.elem(k) == y.elem(k) {
      PrependInfiniteElem(First(s).value, z, k);
      if k > 0 {
        var k0: nat := k - 1;
        assert x.elem(k0 + 1) == z.elem(k0);
      }
    }
    assert y.Infinite?;
  }

  lemma AcceleratedSequenceStepFinite<T>(s: Stream<T>, f: Stream<T> -> Stream<T>)
    requires !IsEmpty(s) && FirstEmptyRow(f(s), f).Some?
    requires FirstEmptyRow(s, f) == Some(FirstEmptyRow(f(s), f).value + 1)
    ensures Same(AcceleratedSequence(s, f), Prepend(First(s).value, Value(AcceleratedSequence(f(s), f))))
  {
    var m := FirstEmptyRow(f(s), f).value;
    AcceleratedFiniteElem(s, f, 0);
    AcceleratedFiniteElem(f(s), f, 0);
    var xs := AcceleratedSequence(s, f).items;
    var zs := AcceleratedSequence(f(s), f).items;
    forall k | 0 <= k < m ensures xs[k + 1] == zs[k] {
      AcceleratedFiniteElem(s, f, k + 1);
      IterateInside(f, s, k);
      AcceleratedFiniteElem(f(s), f, k);
    }
    assert Iterate(f, s, 0) == s;
    assert xs == [First(s).value] + zs;
  }

  // ----- gcd -----

  /** `gcd(a, b)`: a when b == 0, otherwise `gcd(b, a % b)` with Ruby's `%`. */
  function Gcd(a: int, b: int): int
    decreases if b < 0 then -b else b
  {
    if b == 0 then a else Gcd(b, RubyMod(a, b))
  }

  ghost predicate Divides(d: int, n: int) {
    exists k :: n == d * k
  }

  /** From a == q * b + r: a common divisor of b and r divides a, and a
      common divisor of a and b divides r. */
  lemma DividesStep(a: int, b: int, d: int)
    requires b != 0
    ensures Divides(d, b) && Divides(d, RubyMod(a, b)) ==> Divides(d, a)
    ensures Divides(d, a) && Divides(d, b) ==> Divides(d, RubyMod(a, b))
  {
    var q, r := RubyDiv(a, b), RubyMod(a, b);
    if Divides(d, b) && Divides(d, r) {
      DividesCombination(d, q, b, r, a);
    }
    if Divides(d, a) && Divides(d, b) {
      DividesCombination(d, -q, b, a, r);
    }
  }

  /** A common divisor of b and r divides q * b + r. */
  lemma DividesCombination(d: int, q: int, b: int, r: int, a: int)
    requires a == q * b + r && Divides(d, b) && Divides(d, r)
    ensures Divides(d, a)
  {
    var k1 :| b == d * k1;
    var k2 :| r == d * k2;
    MultipleSum(d, q, k1, k2);
    assert a == d * (q * k1 + k2);
  }

  lemma MultipleSum(d: int, q: int, k1: int, k2: int)
    ensures q * (d * k1) + d * k2 == d * (q * k1 + k2)
  {
    assert q * (d * k1) == d * (q * k1);
  }

  /** `gcd(a, b)` divides both a and b. */
  lemma {:induction false} GcdDivides(a: int, b: int)
    ensures Divides(Gcd(a, b), a) && Divides(Gcd(a, b), b)
    decreases if b < 0 then -b else b
  {
    if b == 0 {
      assert a == a * 1 && b == a * 0;
    } else {
      GcdDivides(b, RubyMod(a, b));
      DividesStep(a, b, Gcd(a, b));
    }
  }

  /** Every common divisor of a and b divides `gcd(a, b)`. */
  lemma {:induction false} GcdGreatest(a: int, b: int, d: int)
    requires Divides(d, a) && Divides(d, b)
    ensures Divides(d, Gcd(a, b))
    decreases if b < 0 then -b else b
  {
    if b != 0 {
      DividesStep(a, b, d);
      GcdGreatest(b, RubyMod(a, b), d);
    }
  }

  // ----- monte_carlo -----

  /** How many of the first n experiments passed, and how many failed. */
  function Passes(e: nat -> bool, n: nat): nat {
    if n == 0 then 0 else Passes(e, n - 1) + (if e(n - 1) then 1 else 0)
  }

  function Fails(e: nat -> bool, n: nat): nat {
    if n == 0 then 0 else Fails(e, n - 1) + (if e(n - 1) then 0 else 1)
  }

  /** The counts `next_try` receives; the element itself is the ratio
      `passed.to_f / (passed + failed)` of the two. */
  datatype Tally = Tally(passed: int, failed: int)

  /** `monte_carlo(experiments, passed, failed)`: element k holds the counts
      after experiments 0..k. */
  function MonteCarlo(e: nat -> bool, passed: int, failed: int): Stream<Tally> {
    Infinite((k: nat) => Tally(passed + Passes(e, k + 1), failed + Fails(e, k + 1)))
  }

  lemma {:induction false} PassesPlusFails(e: nat -> bool, n: nat)
    ensures Passes(e, n) + Fails(e, n) == n
  {
    if n > 0 {
      PassesPlusFails(e, n - 1);
    }
  }

  /** Every element of `monte_carlo` counts one more experiment than the one
      before, so the ratio's denominator is never zero when the counts start
      at zero or above. */
  lemma MonteCarloCounts(e: nat -> bool, passed: int, failed: int, k: nat)
    ensures var t := MonteCarlo(e, passed, failed).elem(k);
      t.passed + t.failed == passed + failed + k + 1
  {
    PassesPlusFails(e, k + 1);
  }

  /** Counting from the front: the first experiment, then the rest. */
  lemma {:induction false} CountsFront(e: nat -> bool, n: nat)
    ensures Passes(e, n + 1) == (if e(0) then 1 else 0) + Passes(Shift(e), n)
    ensures Fails(e, n + 1) == (if e(0) then 0 else 1) + Fails(Shift(e), n)
  {
    if n > 0 {
      CountsFront(e, n - 1);
    }
  }

  /** The recursion equation of `monte_carlo`: a true first experiment adds
      one to passed, a false one to failed, and the stream goes on with the
      rest of the experiments from the new counts. */
  lemma MonteCarloUnfolds(e: nat -> bool, passed: int, failed: int)
    ensures var t := if e(0) then Tally(passed + 1, failed) else Tally(passed, failed + 1);
      Same(MonteCarlo(e, passed, failed), Prepend(t, Value(MonteCarlo(Shift(e), t.passed, t.failed))))
  {
    var t := if e(0) then Tally(passed + 1, failed) else Tally(passed, failed + 1);
    var r := Prepend(t, Value(MonteCarlo(Shift(e), t.passed, t.failed)));
    forall k: nat ensures MonteCarlo(e, passed, failed).elem(k) == r.elem(k) {
      CountsFront(e, k);
    }
  }
}
