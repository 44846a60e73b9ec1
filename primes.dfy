/** Trial division against the self-referential stream of primes:
    `iter_primes` (`prime?` in the `lazy_stream` version), `primes`
    (`@primes`), `is_prime` and `prime_enumerate_interval`. */
module PrimeStreams {
  import opened StreamCore
  import opened Search
  import opened StreamOps
  import opened Arith
  import opened Generators

  // ----- iter_primes -----

  /** Candidate divisor p settles the question for n: `p**2 > n` answers
      true, and otherwise `n % p` either raises (p == 0) or is zero. */
  predicate Decides(n: int, p: int) {
    p * p > n || p == 0 || RubyMod(n, p) == 0
  }

  function DecidesFor(n: int): int -> bool {
    (p: int) => Decides(n, p)
  }

  /** What `iter` returns at a deciding p. */
  function Verdict(n: int, p: int): (r: Outcome<bool>)
    requires Decides(n, p)
    ensures r == Value(true) <==> p * p > n
    ensures r == Value(false) <==> p * p <= n && p != 0 && RubyMod(n, p) == 0
  {
    if p * p > n then Value(true)
    else if p == 0 then Raises
    else Value(false)
  }

  /** `iter_primes(ps, n)`: scan ps in order and answer at the first deciding
      element. Running out of elements calls `**` or `first` on nil, which
      raises; an infinite stream with no deciding element never returns. */
  ghost function IterPrimes(ps: Stream<int>, n: int): Outcome<bool>
    decreases Size(ps)
  {
    match ps
    case Infinite(g) =>
      if MatchFrom(g, DecidesFor(n), 0) then Verdict(n, g(NextMatch(g, DecidesFor(n), 0)))
      else Diverges
    case Finite(items, _) =>
      if items == [] then Raises
      else if Decides(n, items[0]) then Verdict(n, items[0])
      else match Tail(ps)
        case Value(t) => IterPrimes(t, n)
        case Raises => Raises
        case Diverges => Diverges
  }

  /** On an infinite stream the scan follows the source's recursion: answer
      at the first element if it decides, otherwise go on with the tail. */
  lemma IterPrimesUnfolds(g: nat -> int, n: int)
    ensures IterPrimes(Infinite(g), n) ==
      if Decides(n, g(0)) then Verdict(n, g(0)) else IterPrimes(Tail(Infinite(g)).get, n)
  {
    var d := DecidesFor(n);
    if Decides(n, g(0)) {
      NextMatchIs(g, d, 0, 0);
    } else {
      var h := Shift(g);
      assert Tail(Infinite(g)).get == Infinite(h);
      ShiftMatchFrom(g, d, 0);
      if MatchFrom(h, d, 0) {
        NextMatchShift(g, d, 0, 1);
        var j := NextMatch(g, d, 1);
        NextMatchIs(g, d, 0, j);
      }
      MatchFromPastRejected(g, d, 0);
    }
  }

  /** The scan answers at the first deciding element, whatever follows it. */
  lemma IterPrimesFinds(s: Stream<int>, n: int, j: nat)
    requires Has(s, j) && Decides(n, Elem(s, j))
    requires forall l :: 0 <= l < j ==> !Decides(n, Elem(s, l))
    ensures IterPrimes(s, n) == Verdict(n, Elem(s, j))
  {
    match s
    case Infinite(g) =>
      forall l | 0 <= l < j ensures !DecidesFor(n)(g(l)) {
        assert Elem(s, l) == g(l);
      }
      NextMatchIs(g, DecidesFor(n), 0, j);
    case Finite(items, e) =>
      assert forall l :: 0 <= l <= j ==> Elem(s, l) == items[l];
      IterPrimesFindsListed(items, e, n, j);
  }

  lemma {:induction false} IterPrimesFindsListed(items: seq<int>, e: Ending, n: int, j: nat)
    requires j < |items| && Decides(n, items[j])
    requires forall l :: 0 <= l < j ==> !Decides(n, items[l])
    ensures IterPrimes(Finite(items, e), n) == Verdict(n, items[j])
    decreases j
  {
    if j > 0 {
      var i: nat := j - 1;
      var rest := items[1..];
      assert Tail(Finite(items, e)) == Value(Finite(rest, e));
      assert !Decides(n, items[0]);
      assert forall l :: 0 <= l < i ==> rest[l] == items[l + 1];
      IterPrimesFindsListed(rest, e, n, i);
    }
  }

  /** With no deciding element the scan raises on nil once the elements run
      out, or never returns. */
  lemma IterPrimesExhausted(s: Stream<int>, n: int)
    requires forall l: nat :: Has(s, l) ==> !Decides(n, Elem(s, l))
    ensures IterPrimes(s, n) ==
      if s.Infinite? || (s.items != [] && s.ending == Hang) then Diverges else Raises
  {
    match s
    case Infinite(g) =>
      forall j: nat ensures !DecidesFor(n)(g(j)) {
        assert Has(s, j) && Elem(s, j) == g(j);
      }
    case Finite(items, e) =>
      assert forall l :: 0 <= l < |items| ==> Has(s, l) && Elem(s, l) == items[l];
      IterPrimesExhaustedListed(items, e, n);
  }

  lemma {:induction false} IterPrimesExhaustedListed(items: seq<int>, e: Ending, n: int)
    requires forall l :: 0 <= l < |items| ==> !Decides(n, items[l])
    ensures IterPrimes(Finite(items, e), n) == if items != [] && e == Hang then Diverges else Raises
    decreases |items|
  {
    if items != [] {
      assert !Decides(n, items[0]);
      if |items| > 1 {
        var rest := items[1..];
        assert Tail(Finite(items, e)) == Value(Finite(rest, e));
        assert forall l :: 0 <= l < |rest| ==> rest[l] == items[l + 1];
        IterPrimesExhaustedListed(rest, e, n);
      }
    }
  }

  // ----- primes -----

  /** There are infinitely many primes among the integers from 2 (Euclid). */
  lemma PrimesOften()
    ensures InfinitelyOften(IntegersFrom(2).elem, IsPrime)
  {
    forall i: nat ensures MatchFrom(IntegersFrom(2).elem, IsPrime, i) {
      var q := PrimeAbove(i + 2);
      var j: nat := q - 2;
      assert IntegersFrom(2).elem(j) == q;
    }
  }

  /** Element k of `primes`: the k-th prime, counting 2 as the 0th. */
  ghost function PrimeAt(k: nat): (p: int)
    ensures IsPrime(p) && p >= k + 2
  {
    PrimesOften();
    IntegersFrom(2).elem(NthMatch(IntegersFrom(2).elem, IsPrime, k))
  }

  /** `primes`, as the stream of all primes in increasing order; the
      lemmas below show that it satisfies the source's definition. */
  ghost function Primes(): (s: Stream<int>)
    ensures s.Infinite?
  {
    Infinite((k: nat) => PrimeAt(k))
  }

  /** The primes come in increasing order ... */
  lemma PrimesIncrease(k: nat, m: nat)
    requires k < m
    ensures PrimeAt(k) < PrimeAt(m)
  {
    PrimesOften();
    NthMatchIncreasing(IntegersFrom(2).elem, IsPrime, k, m);
  }

  /** ... and every prime is one of them. */
  lemma PrimesCover(q: int) returns (k: nat)
    requires IsPrime(q)
    ensures PrimeAt(k) == q
  {
    PrimesOften();
    var j: nat := q - 2;
    NthMatchCovers(IntegersFrom(2).elem, IsPrime, j);
    k :| NthMatch(IntegersFrom(2).elem, IsPrime, k) == j;
  }

  /** Some prime's square exceeds n, so the scan over `primes` stops. */
  lemma PrimesDecide(n: int)
    ensures MatchFrom(Primes().elem, DecidesFor(n), 0)
  {
    var w: nat := if n < 0 then 0 else n;
    SquareAbove(PrimeAt(w), n);
    assert DecidesFor(n)(Primes().elem(w));
  }

  /** For a prime n the scan reaches a prime whose square exceeds n. */
  lemma IterPrimesOnPrime(n: int)
    requires IsPrime(n)
    ensures IterPrimes(Primes(), n) == Value(true)
  {
    PrimesDecide(n);
    var j := NextMatch(Primes().elem, DecidesFor(n), 0);
    PrimeHasNoSmallFactor(n, PrimeAt(j));
  }

  /** For a composite n the scan stops, at the latest, at its least prime
      factor, whose square is at most n. */
  lemma IterPrimesOnComposite(n: int)
    requires n >= 2 && !IsPrime(n)
    ensures IterPrimes(Primes(), n) == Value(false)
  {
    var g, d := Primes().elem, DecidesFor(n);
    PrimesDecide(n);
    var j := NextMatch(g, d, 0);
    var q := CompositeHasSmallPrimeFactor(n);
    var k := PrimesCover(q);
    assert d(g(k));
    assert j <= k;
    if j < k {
      PrimesIncrease(j, k);
    }
    SquareGrows(PrimeAt(j), q);
  }

  /** `iter_primes(primes, n)` against the stream of all primes: true exactly
      for the primes and for every n below 2. */
  lemma IterPrimesOnPrimes(n: int)
    ensures IterPrimes(Primes(), n) == Value(n < 2 || IsPrime(n))
  {
    if n < 2 {
      IterPrimesBelowFour(n);
    } else if IsPrime(n) {
      IterPrimesOnPrime(n);
    } else {
      IterPrimesOnComposite(n);
    }
  }

  /** `iter_primes` answers true for every n below 4 without a division:
      2 * 2 > n already. */
  lemma IterPrimesBelowFour(n: int)
    requires n < 4
    ensures IterPrimes(Primes(), n) == Value(true)
  {
    IterPrimesFinds(Primes(), n, 0);
  }

  // ----- primes is a fixed point of its own definition -----

  /** The block of `select` in `primes` and of `prime_enumerate_interval`:
      `iter_primes(ps, n)` returns true. */
  ghost function AcceptedBy(ps: Stream<int>): int -> bool {
    (n: int) => IterPrimes(ps, n) == Value(true)
  }

  /** Against `primes`, `iter_primes` accepts exactly the primes from 3 on. */
  lemma AcceptedFromThree()
    ensures forall j: nat ::
      IsPrime(Shift(IntegersFrom(2).elem)(j)) == AcceptedBy(Primes())(IntegersFrom(3).elem(j))
  {
    forall j: nat ensures IsPrime(Shift(IntegersFrom(2).elem)(j)) == AcceptedBy(Primes())(IntegersFrom(3).elem(j)) {
      var n := 3 + j;
      assert Shift(IntegersFrom(2).elem)(j) == n && IntegersFrom(3).elem(j) == n;
      IterPrimesOnPrimes(n);
    }
  }

  /** The k-th integer from 3 accepted against `primes` is prime number k + 1. */
  lemma AcceptedIndex(k: nat, k1: nat)
    requires k1 == k + 1
    ensures InfinitelyOften(IntegersFrom(3).elem, AcceptedBy(Primes()))
    ensures IntegersFrom(3).elem(NthMatch(IntegersFrom(3).elem, AcceptedBy(Primes()), k)) == PrimeAt(k1)
  {
    var g2, g3, a := IntegersFrom(2).elem, IntegersFrom(3).elem, AcceptedBy(Primes());
    var h := Shift(g2);
    PrimesOften();
    ShiftInfinitelyOften(g2, IsPrime);
    AcceptedFromThree();
    NthMatchCongruent(h, IsPrime, g3, a, k);
    assert IsPrime(g2(0));
    NthMatchShiftAccepted(g2, IsPrime, k, k1);
  }

  /** The integers from 3 accepted against `primes` are the primes after 2. */
  lemma SelectFromThree()
    ensures Select(IntegersFrom(3), AcceptedBy(Primes())).Value?
    ensures Select(IntegersFrom(3), AcceptedBy(Primes())).get.Infinite?
    ensures forall k: nat :: Select(IntegersFrom(3), AcceptedBy(Primes())).get.elem(k) == PrimeAt(k + 1)
  {
    var g3, a := IntegersFrom(3).elem, AcceptedBy(Primes());
    AcceptedIndex(0, 1);
    assert Select(IntegersFrom(3), a) == SelectInfinite(g3, a);
    forall k: nat ensures Select(IntegersFrom(3), a).get.elem(k) == PrimeAt(k + 1) {
      AcceptedIndex(k, k + 1);
    }
  }

  /** The stream of all primes satisfies the definition of `primes`: 2 in
      front of the integers from 3 that `iter_primes` accepts against it. */
  lemma PrimesFixedPoint()
    ensures Select(IntegersFrom(3), AcceptedBy(Primes())).Value?
    ensures Same(Primes(), Prepend(2, Select(IntegersFrom(3), AcceptedBy(Primes()))))
  {
    SelectFromThree();
    PrimeAtZero();
    var u := Select(IntegersFrom(3), AcceptedBy(Primes()));
    var t := Prepend(2, u);
    forall k: nat ensures Primes().elem(k) == t.elem(k) {
      if k > 0 {
        var j: nat := k - 1;
        assert t.elem(k) == u.get.elem(j);
      }
    }
  }

  // ----- the first primes -----

  /** No prime in a..b-1 (evaluates by recursion on concrete bounds). */
  predicate NoPrimeIn(a: int, b: int)
    decreases b - a
  {
    a >= b || (!IsPrime(a) && NoPrimeIn(a + 1, b))
  }

  lemma {:induction false} NoPrimeInMeans(a: int, b: int)
    ensures NoPrimeIn(a, b) <==> forall x :: a <= x < b ==> !IsPrime(x)
    decreases b - a
  {
    if a < b {
      NoPrimeInMeans(a + 1, b);
    }
  }

  lemma PrimeAtZero()
    ensures PrimeAt(0) == 2
  {
    PrimesOften();
    assert IsPrime(IntegersFrom(2).elem(0));
    NextMatchIs(IntegersFrom(2).elem, IsPrime, 0, 0);
  }

  lemma NoPrimeBetween(a: int, b: int, m: nat, i: nat)
    requires m == a - 1 && i == b - 2 && NoPrimeIn(a + 1, b)
    ensures NoneBetween(IntegersFrom(2).elem, IsPrime, m, i)
  {
    NoPrimeInMeans(a + 1, b);
    assert forall l :: m <= l < i ==> IntegersFrom(2).elem(l) == l + 2;
  }

  /** After prime a, with no prime strictly between a and the prime b, comes b. */
  lemma PrimeStep(j: nat, k: nat, a: int, b: int)
    requires k == j + 1
    requires PrimeAt(j) == a && a < b && IsPrime(b) && NoPrimeIn(a + 1, b)
    ensures PrimeAt(k) == b
  {
    var g := IntegersFrom(2).elem;
    PrimesOften();
    var m: nat := a - 1;
    var i: nat := b - 2;
    NthMatchNext(g, IsPrime, j, k, m);
    NoPrimeBetween(a, b, m, i);
    NextMatchIs(g, IsPrime, m, i);
  }

  lemma SmallPrimes()
    ensures IsPrime(2) && IsPrime(3) && IsPrime(5) && IsPrime(7) && IsPrime(11)
    ensures NoPrimeIn(4, 5) && NoPrimeIn(6, 7) && NoPrimeIn(8, 11)
  {
    assert !IsPrime(8) && !IsPrime(9) && !IsPrime(10);
  }

  lemma LargerSmallPrimes()
    ensures IsPrime(13) && IsPrime(17) && IsPrime(19)
    ensures NoPrimeIn(12, 13) && NoPrimeIn(14, 17) && NoPrimeIn(18, 19)
  {
    assert NoDivisorFrom(13, 7);
    assert NoDivisorFrom(17, 9);
    assert NoDivisorFrom(19, 10);
    assert !IsPrime(14) && !IsPrime(15) && !IsPrime(16);
  }

  lemma PrimesInTwenties()
    ensures IsPrime(23) && IsPrime(29) && NoPrimeIn(20, 23) && NoPrimeIn(24, 29)
  {
    assert NoDivisorFrom(23, 16) && NoDivisorFrom(23, 9);
    assert NoDivisorFrom(29, 20) && NoDivisorFrom(29, 11);
    assert !IsPrime(20) && !IsPrime(21) && !IsPrime(22);
    assert !IsPrime(24) && !IsPrime(25) && !IsPrime(26) && !IsPrime(27) && !IsPrime(28);
  }

  /** `primes.take(n)` for n up to 10 lists the first n of
      2, 3, 5, 7, 11, 13, 17, 19, 23, 29. */
  lemma PrimesFirstTen(n: nat)
    requires n <= 10
    ensures Take(Primes(), n) == Finite([2, 3, 5, 7, 11, 13, 17, 19, 23, 29][..n], Stop)
  {
    SmallPrimes();
    LargerSmallPrimes();
    PrimesInTwenties();
    PrimeAtZero();
    PrimeStep(0, 1, 2, 3);
    PrimeStep(1, 2, 3, 5);
    PrimeStep(2, 3, 5, 7);
    PrimeStep(3, 4, 7, 11);
    PrimeStep(4, 5, 11, 13);
    PrimeStep(5, 6, 13, 17);
    PrimeStep(6, 7, 17, 19);
    PrimeStep(7, 8, 19, 23);
    PrimeStep(8, 9, 23, 29);
    var want := [2, 3, 5, 7, 11, 13, 17, 19, 23, 29][..n];
    TakeListed(Primes(), want);
  }

  // ----- is_prime and prime_enumerate_interval -----

  /** What `is_prime` / `prime?` answers for n: `iter_primes(primes, n)`,
      which is true for the primes and also for every n below 2. */
  predicate PrimeAsWritten(n: int) {
    n < 2 || IsPrime(n)
  }

  /** `is_prime` is `iter_primes` against `primes`. */
  lemma IsPrimeAnswers(n: int)
    ensures AcceptedBy(Primes())(n) == PrimeAsWritten(n)
  {
    IterPrimesOnPrimes(n);
  }

  /** `prime_enumerate_interval(low, high)`:
      `enumerate_interval(low, high).select(&is_prime)`. */
  ghost function PrimeEnumerateInterval(low: int, high: int): Outcome<Stream<int>> {
    Select(EnumerateInterval(low, high), AcceptedBy(Primes()))
  }

  /** The interval's members that `is_prime` accepts, in increasing order,
      ending in `Stream.new`. */
  lemma PrimeEnumerateIntervalLists(low: int, high: int)
    ensures PrimeEnumerateInterval(low, high)
            == Value(Finite(Filter(Range(low, high), PrimeAsWritten), Stop))
  {
    forall n ensures AcceptedBy(Primes())(n) == PrimeAsWritten(n) {
      IsPrimeAnswers(n);
    }
    EnumerateIntervalIsRange(low, high);
    SelectFinite(EnumerateInterval(low, high), AcceptedBy(Primes()));
    FilterCongruent(Range(low, high), AcceptedBy(Primes()), PrimeAsWritten);
  }

  /** From 2 upwards that is exactly the primes of the interval. */
  lemma PrimeEnumerateIntervalFromTwo(low: int, high: int)
    requires low >= 2
    ensures PrimeEnumerateInterval(low, high) == Value(Finite(Filter(Range(low, high), IsPrime), Stop))
  {
    PrimeEnumerateIntervalLists(low, high);
    FilterAgrees(Range(low, high), PrimeAsWritten, IsPrime, low);
  }

  /** Predicates that agree from low on filter a list of such numbers alike. */
  lemma {:induction false} FilterAgrees(s: seq<int>, p: int -> bool, q: int -> bool, low: int)
    requires forall x :: x >= low ==> p(x) == q(x)
    requires forall i :: 0 <= i < |s| ==> s[i] >= low
    ensures Filter(s, p) == Filter(s, q)
    decreases |s|
  {
    if s != [] {
      FilterAgrees(s[1..], p, q, low);
    }
  }

  /** Filtering an interval looks at its lowest member first. */
  lemma FilterRangeSkip(low: int, high: int, p: int -> bool)
    requires low <= high && !p(low)
    ensures Filter(Range(low, high), p) == Filter(Range(low + 1, high), p)
  {
    assert Range(low, high)[1..] == Range(low + 1, high);
  }

  lemma FilterRangeKeep(low: int, high: int, p: int -> bool)
    requires low <= high && p(low)
    ensures Filter(Range(low, high), p) == [low] + Filter(Range(low + 1, high), p)
  {
    assert Range(low, high)[1..] == Range(low + 1, high);
  }

  lemma PrimesInTwentiesListed()
    ensures Filter(Range(20, 30), IsPrime) == [23, 29]
  {
    PrimesInTwenties();
    assert !IsPrime(30);
    FilterRangeSkip(20, 30, IsPrime);
    FilterRangeSkip(21, 30, IsPrime);
    FilterRangeSkip(22, 30, IsPrime);
    FilterRangeKeep(23, 30, IsPrime);
    FilterRangeSkip(24, 30, IsPrime);
    FilterRangeSkip(25, 30, IsPrime);
    FilterRangeSkip(26, 30, IsPrime);
    FilterRangeSkip(27, 30, IsPrime);
    FilterRangeSkip(28, 30, IsPrime);
    FilterRangeKeep(29, 30, IsPrime);
    FilterRangeSkip(30, 30, IsPrime);
    assert Range(31, 30) == [];
  }

  lemma PrimesInTeensListed()
    ensures Filter(Range(10, 30), IsPrime) == [11, 13, 17, 19] + Filter(Range(20, 30), IsPrime)
  {
    SmallPrimes();
    LargerSmallPrimes();
    assert !IsPrime(12);
    FilterRangeSkip(10, 30, IsPrime);
    FilterRangeKeep(11, 30, IsPrime);
    FilterRangeSkip(12, 30, IsPrime);
    FilterRangeKeep(13, 30, IsPrime);
    FilterRangeSkip(14, 30, IsPrime);
    FilterRangeSkip(15, 30, IsPrime);
    FilterRangeSkip(16, 30, IsPrime);
    FilterRangeKeep(17, 30, IsPrime);
    FilterRangeSkip(18, 30, IsPrime);
    FilterRangeKeep(19, 30, IsPrime);
  }

  /** `prime_enumerate_interval(10, 30)` is [11, 13, 17, 19, 23, 29]. */
  lemma PrimeEnumerateTenToThirty()
    ensures PrimeEnumerateInterval(10, 30) == Value(Finite([11, 13, 17, 19, 23, 29], Stop))
  {
    PrimeEnumerateIntervalFromTwo(10, 30);
    PrimesInTeensListed();
    PrimesInTwentiesListed();
    assert [11, 13, 17, 19] + [23, 29] == [11, 13, 17, 19, 23, 29];
  }

  // ----- 1 is listed as a prime -----

  /** As written, `prime_enumerate_interval(1, high)` (called with high ==
      200) starts with 1, which is not a prime: `iter_primes(primes, 1)`
      answers true at once because 2 ** 2 > 1. */
  lemma PrimeEnumerateListsOne(high: int)
    requires high >= 1
    ensures PrimeEnumerateInterval(1, high) == Value(Finite([1] + Filter(Range(2, high), IsPrime), Stop))
    ensures !IsPrime(1)
  {
    PrimeEnumerateIntervalLists(1, high);
    FilterRangeKeep(1, high, PrimeAsWritten);
    PrimeEnumerateIntervalLists(2, high);
    PrimeEnumerateIntervalFromTwo(2, high);
  }

  /** The evidently intended test: a number below 2 is not prime, and from 2
      on `is_prime` decides. */
  ghost predicate CheckedPrime(n: int) {
    n >= 2 && AcceptedBy(Primes())(n)
  }

  lemma CheckedPrimeIsPrime(n: int)
    ensures CheckedPrime(n) <==> IsPrime(n)
  {
    IsPrimeAnswers(n);
  }

  /** `prime_enumerate_interval` with the checked test. */
  ghost function CheckedPrimeEnumerateInterval(low: int, high: int): Outcome<Stream<int>> {
    Select(EnumerateInterval(low, high), CheckedPrime)
  }

  /** With the checked test the interval's primes, and only they, are listed
      in increasing order, whatever the lower bound. */
  lemma CheckedPrimeEnumerateIntervalLists(low: int, high: int)
    ensures CheckedPrimeEnumerateInterval(low, high)
            == Value(Finite(Filter(Range(low, high), IsPrime), Stop))
  {
    forall n ensures CheckedPrime(n) == IsPrime(n) {
      CheckedPrimeIsPrime(n);
    }
    EnumerateIntervalIsRange(low, high);
    SelectFinite(EnumerateInterval(low, high), CheckedPrime);
    FilterCongruent(Range(low, high), CheckedPrime, IsPrime);
  }
}
