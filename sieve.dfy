/** The sieve of Eratosthenes over streams: `sieve(stream)` keeps the first
    element and sieves what is left of the rest once the multiples of that
    element are selected away; `prime_sieve` sieves the integers from 2.

    Each node's lazy tail starts the next round, so the stream `sieve`
    builds lists the first elements of the rounds `s`, `next(s)`,
    `next(next(s))`, ... and ends where a round is empty or fails to
    produce a stream. The rounds are written for any step `next`, and the
    facts about them are proved from the two properties of the sieve's step
    they rely on. */
module Sieve {
  import opened StreamCore
  import opened Search
  import opened StreamOps
  import opened Arith
  import opened Generators
  import opened PrimeStreams

  /** The block passed to `select`: `e % x > 0`, for x != 0. */
  predicate Survives(x: int, e: int) {
    x != 0 && RubyMod(e, x) > 0
  }

  function SurvivesFor(x: int): int -> bool {
    (e: int) => Survives(x, e)
  }

  /** The stream the tail block of `sieve(t)` passes on to `sieve`:
      `t.rest.select { |e| e % t.first > 0 }`. A nil rest raises
      NoMethodError; a first of 0 makes the block raise ZeroDivisionError
      as soon as `select` tries an element. (Rounds never apply it to an
      empty stream; it returns that stream unchanged.) */
  ghost function SieveNext(t: Stream<int>): Outcome<Stream<int>> {
    if IsEmpty(t) then Value(t)
    else
      var x := First(t).value;
      match Tail(t)
      case Raises => Raises
      case Diverges => Diverges
      case Value(r) =>
        if x == 0 && !IsEmpty(r) then Raises else Select(r, SurvivesFor(x))
  }

  ghost function SieveStep(): Stream<int> -> Outcome<Stream<int>> {
    (t: Stream<int>) => SieveNext(t)
  }

  /** A round that yields no element: an empty stream, or no stream at all. */
  predicate Stuck(o: Outcome<Stream<int>>) {
    !(o.Value? && !IsEmpty(o.get))
  }

  function StuckFor(): Outcome<Stream<int>> -> bool {
    (o: Outcome<Stream<int>>) => Stuck(o)
  }

  /** The k-th round from s under step `next`; a stuck round stays as it is. */
  ghost function Round(next: Stream<int> -> Outcome<Stream<int>>, s: Stream<int>, k: nat): Outcome<Stream<int>> {
    if k == 0 then Value(s)
    else
      var o := Round(next, s, k - 1);
      if Stuck(o) then o else next(o.get)
  }

  ghost function Rounds(next: Stream<int> -> Outcome<Stream<int>>, s: Stream<int>): nat -> Outcome<Stream<int>> {
    (k: nat) => Round(next, s, k)
  }

  /** The first element of a round that is not stuck. */
  function Lead(o: Outcome<Stream<int>>): int
    requires !Stuck(o)
  {
    First(o.get).value
  }

  /** How the sieve's stream ends at a stuck round: an empty round gives the
      empty node `sieve(Stream.new)`; otherwise the tail block raises or hangs. */
  function EndAt(o: Outcome<Stream<int>>): Ending {
    match o
    case Value(_) => Stop
    case Raises => Raise
    case Diverges => Hang
  }

  /** The leads of the rounds g(0), g(1), ... up to the first stuck one,
      which decides how the stream ends. */
  ghost function Leads(g: nat -> Outcome<Stream<int>>): Stream<int> {
    if MatchFrom(g, StuckFor(), 0) then
      var m := NextMatch(g, StuckFor(), 0);
      Finite(seq(m, (i: int) requires 0 <= i < m => Lead(g(i))), EndAt(g(m)))
    else
      Infinite((k: nat) => Lead(g(k)))
  }

  /** `sieve(s)`. */
  ghost function Sieve(s: Stream<int>): Stream<int> {
    Leads(Rounds(SieveStep(), s))
  }

  /** `prime_sieve`. */
  ghost function PrimeSieve(): Stream<int> {
    Sieve(IntegersFrom(2))
  }

  // ----- the leads -----

  /** Element k of the leads is the lead of g(k), and it exists exactly
      when g(0), ..., g(k) are not stuck. */
  lemma LeadsElem(g: nat -> Outcome<Stream<int>>, k: nat)
    ensures Has(Leads(g), k) <==> forall j: nat :: j <= k ==> !Stuck(g(j))
    ensures Has(Leads(g), k) ==> Elem(Leads(g), k) == Lead(g(k))
  {
    if MatchFrom(g, StuckFor(), 0) {
      var m := NextMatch(g, StuckFor(), 0);
      if k >= m {
        assert StuckFor()(g(m));
      } else {
        forall j: nat | j <= k ensures !Stuck(g(j)) {
          assert !StuckFor()(g(j));
        }
      }
    } else {
      forall j: nat | j <= k ensures !Stuck(g(j)) {
        assert !StuckFor()(g(j));
      }
    }
  }

  /** Element k of the leads of the rounds from s is the lead of round k,
      and it exists exactly when rounds 0..k are not stuck. */
  lemma RoundsElem(next: Stream<int> -> Outcome<Stream<int>>, s: Stream<int>, k: nat)
    ensures Has(Leads(Rounds(next, s)), k) <==> forall j: nat :: j <= k ==> !Stuck(Round(next, s, j))
    ensures Has(Leads(Rounds(next, s)), k) ==> Elem(Leads(Rounds(next, s)), k) == Lead(Round(next, s, k))
  {
    var g := Rounds(next, s);
    LeadsElem(g, k);
    if forall j: nat :: j <= k ==> !Stuck(Round(next, s, j)) {
      forall j: nat | j <= k ensures !Stuck(g(j)) {
        assert g(j) == Round(next, s, j);
      }
      assert Has(Leads(g), k) && g(k) == Round(next, s, k);
    } else {
      var j: nat :| j <= k && Stuck(Round(next, s, j));
      assert g(j) == Round(next, s, j);
      assert !Has(Leads(g), k);
    }
  }

  /** Element k of `sieve(s)` is the lead of round k, and it exists exactly
      when rounds 0..k are not stuck. */
  lemma SieveElem(s: Stream<int>, k: nat)
    ensures Has(Sieve(s), k) <==> forall j: nat :: j <= k ==> !Stuck(Round(SieveStep(), s, j))
    ensures Has(Sieve(s), k) ==> Elem(Sieve(s), k) == Lead(Round(SieveStep(), s, k))
  {
    RoundsElem(SieveStep(), s, k);
  }

  /** `sieve(s)` starts with the first element of s (and is empty with s). */
  lemma SieveFirst(s: Stream<int>)
    ensures First(Sieve(s)) == First(s)
  {
    SieveElem(s, 0);
    assert Round(SieveStep(), s, 0) == Value(s);
  }

  // ----- the recursion of `sieve` -----

  /** How the tail block of a node ends, given the round it starts from. */
  function Continue(o: Outcome<Stream<int>>, rest: Stream<int>): Outcome<Stream<int>> {
    match o
    case Value(_) => Value(rest)
    case Raises => Raises
    case Diverges => Diverges
  }

  /** Dropping a first round that is not stuck moves the first stuck round
      one place down. */
  lemma StuckShift(g: nat -> Outcome<Stream<int>>, h: nat -> Outcome<Stream<int>>)
    requires !Stuck(g(0)) && forall k: nat :: h(k) == g(k + 1)
    ensures MatchFrom(g, StuckFor(), 0) <==> MatchFrom(h, StuckFor(), 0)
    ensures MatchFrom(h, StuckFor(), 0) ==>
      NextMatch(g, StuckFor(), 0) == NextMatch(h, StuckFor(), 0) + 1
  {
    var p := StuckFor();
    if MatchFrom(g, p, 0) {
      var m := NextMatch(g, p, 0);
      assert m != 0;
      assert h(m - 1) == g(m);
      assert p(h(m - 1));
    }
    if MatchFrom(h, p, 0) {
      var m := NextMatch(h, p, 0);
      var m1: nat := m + 1;
      forall l | 0 <= l < m1 ensures !p(g(l)) {
        if l > 0 {
          assert g(l) == h(l - 1);
        }
      }
      assert h(m) == g(m1);
      NextMatchIs(g, p, 0, m1);
    }
  }

  /** The leads satisfy the recursion of `sieve`: the first lead, in front of
      what the next round gives. */
  lemma LeadsUnfold(g: nat -> Outcome<Stream<int>>, h: nat -> Outcome<Stream<int>>)
    requires !Stuck(g(0)) && forall k: nat :: h(k) == g(k + 1)
    ensures Same(Leads(g), Prepend(Lead(g(0)), Continue(g(1), Leads(h))))
  {
    var p := StuckFor();
    var x := Lead(g(0));
    StuckShift(g, h);
    assert h(0) == g(1);
    if MatchFrom(h, p, 0) {
      var m := NextMatch(h, p, 0);
      var m1 := NextMatch(g, p, 0);
      assert m1 == m + 1 && g(m1) == h(m);
      var a := seq(m1, (i: int) requires 0 <= i < m1 => Lead(g(i)));
      var b := seq(m, (i: int) requires 0 <= i < m => Lead(h(i)));
      assert Leads(g) == Finite(a, EndAt(h(m)));
      assert Leads(h) == Finite(b, EndAt(h(m)));
      assert a == [x] + b by {
        forall i | 1 <= i < m1 ensures a[i] == b[i - 1] {
          assert g(i) == h(i - 1);
        }
      }
      if m == 0 {
        assert Stuck(g(1));
      } else {
        assert !p(h(0));
      }
    } else {
      assert !p(h(0));
      var r := Prepend(x, Continue(g(1), Leads(h)));
      forall k: nat ensures Leads(g).elem(k) == r.elem(k) {
        if k > 0 {
          assert g(k) == h(k - 1);
        }
      }
    }
  }

  /** Dropping the first round of s leaves the rounds of the stream it
      steps to. */
  lemma {:induction false} RoundShift(next: Stream<int> -> Outcome<Stream<int>>, s: Stream<int>, t: Stream<int>, k: nat)
    requires !IsEmpty(s) && next(s) == Value(t)
    ensures Round(next, s, k + 1) == Round(next, t, k)
  {
    if k > 0 {
      var k0: nat := k - 1;
      RoundShift(next, s, t, k0);
    }
  }

  /** The leads of the rounds from s satisfy the recursion of `sieve`. */
  lemma RoundsUnfold(next: Stream<int> -> Outcome<Stream<int>>, s: Stream<int>)
    requires !IsEmpty(s)
    ensures Same(Leads(Rounds(next, s)),
                 Prepend(First(s).value, match next(s)
                   case Value(t) => Value(Leads(Rounds(next, t)))
                   case Raises => Raises
                   case Diverges => Diverges))
  {
    var g := Rounds(next, s);
    assert g(0) == Value(s) && g(1) == next(s);
    match next(s)
    case Value(t) =>
      var h := Rounds(next, t);
      forall k: nat ensures h(k) == g(k + 1) {
        RoundShift(next, s, t, k);
      }
      LeadsUnfold(g, h);
    case Raises =>
      LeadsUnfold(g, Shift(g));
    case Diverges =>
      LeadsUnfold(g, Shift(g));
  }

  /** `sieve(s) == Stream.new(s.first) { sieve(s.rest.select { ... }) }`:
      the first element of s, in front of the sieve of the next round, or a
      tail that raises or hangs when the next round does. */
  lemma SieveUnfolds(s: Stream<int>)
    requires !IsEmpty(s)
    ensures Same(Sieve(s),
                 Prepend(First(s).value, match SieveNext(s)
                   case Value(t) => Value(Sieve(t))
                   case Raises => Raises
                   case Diverges => Diverges))
  {
    RoundsUnfold(SieveStep(), s);
    assert SieveStep()(s) == SieveNext(s);
  }

  // ----- no element divides a later one -----

  /** A step whose result survives the lead of the stream it starts from. */
  ghost predicate Avoids(next: Stream<int> -> Outcome<Stream<int>>) {
    forall t: Stream<int> :: !IsEmpty(t) && next(t).Value? ==>
      AllElems(next(t).get, SurvivesFor(First(t).value))
  }

  /** A step whose result has every property all its input's elements have. */
  ghost predicate Keeps(next: Stream<int> -> Outcome<Stream<int>>) {
    forall t: Stream<int>, q: int -> bool :: !IsEmpty(t) && next(t).Value? && AllElems(t, q) ==>
      AllElems(next(t).get, q)
  }

  /** A later round holds only elements that survived the selection by the
      lead of an earlier one. */
  lemma {:induction false} RoundAvoidsLead(next: Stream<int> -> Outcome<Stream<int>>, s: Stream<int>, j: nat, k: nat)
    requires Avoids(next) && Keeps(next)
    requires j < k && Round(next, s, k).Value? && !Stuck(Round(next, s, j))
    ensures AllElems(Round(next, s, k).get, SurvivesFor(Lead(Round(next, s, j))))
    decreases k
  {
    var k0: nat := k - 1;
    var o := Round(next, s, k0);
    if Stuck(o) {
      assert Round(next, s, k) == o;
      assert o.get.Finite? && o.get.items == [];
    } else if k0 != j {
      RoundAvoidsLead(next, s, j, k0);
    }
  }

  /** The sieve's step survives the current lead. */
  lemma NextAvoids(t: Stream<int>)
    requires !IsEmpty(t) && SieveNext(t).Value?
    ensures AllElems(SieveNext(t).get, SurvivesFor(First(t).value))
  {
    var x := First(t).value;
    var r := Tail(t).get;
    if x == 0 {
      assert IsEmpty(r) && SieveNext(t) == Value(r);
      assert r.Finite? && r.items == [];
    } else {
      forall k: nat | Has(SieveNext(t).get, k)
        ensures SurvivesFor(x)(Elem(SieveNext(t).get, k))
      {
        SelectAccepted(r, SurvivesFor(x), k);
      }
    }
  }

  /** The sieve's step keeps every property its input's elements have. */
  lemma NextKeeps(t: Stream<int>, q: int -> bool)
    requires !IsEmpty(t) && SieveNext(t).Value? && AllElems(t, q)
    ensures AllElems(SieveNext(t).get, q)
  {
    var x := First(t).value;
    TailKeeps(t, q);
    var r := Tail(t).get;
    if x == 0 {
      assert IsEmpty(r) && SieveNext(t) == Value(r);
    } else {
      SelectKeeps(r, SurvivesFor(x), q);
    }
  }

  lemma SieveStepSieves()
    ensures Avoids(SieveStep()) && Keeps(SieveStep())
  {
    forall t: Stream<int> | !IsEmpty(t) && SieveStep()(t).Value?
      ensures AllElems(SieveStep()(t).get, SurvivesFor(First(t).value))
    {
      NextAvoids(t);
    }
    forall t: Stream<int>, q: int -> bool | !IsEmpty(t) && SieveStep()(t).Value? && AllElems(t, q)
      ensures AllElems(SieveStep()(t).get, q)
    {
      NextKeeps(t, q);
    }
  }

  /** No element of `sieve(s)` is divisible by an earlier one: each leaves
      a positive remainder by every element before it. */
  lemma SieveNoLaterMultiple(s: Stream<int>, j: nat, k: nat)
    requires j < k && Has(Sieve(s), k)
    ensures Elem(Sieve(s), j) != 0 && RubyMod(Elem(Sieve(s), k), Elem(Sieve(s), j)) > 0
  {
    SieveElem(s, k);
    SieveElem(s, j);
    SieveStepSieves();
    RoundAvoidsLead(SieveStep(), s, j, k);
    var t := Round(SieveStep(), s, k).get;
    assert Has(t, 0);
    assert SurvivesFor(Lead(Round(SieveStep(), s, j)))(Elem(t, 0));
  }

  // ----- prime_sieve lists the primes -----

  /** n is at least 2 and none of the first k primes divides it: what is
      left of the integers from 2 after k rounds of the sieve. */
  ghost predicate Survivor(n: int, k: nat) {
    n >= 2 && forall j: nat :: j < k ==> RubyMod(n, PrimeAt(j)) > 0
  }

  /** t lists the survivors of k rounds, in increasing order. */
  ghost predicate ListsSurvivors(t: Stream<int>, k: nat) {
    t.Infinite? &&
    (forall i: nat, m: nat :: i < m ==> t.elem(i) < t.elem(m)) &&
    (forall i: nat :: Survivor(t.elem(i), k)) &&
    (forall n :: Survivor(n, k) ==> exists i: nat :: t.elem(i) == n)
  }

  /** A prime is left by every round before its own. */
  lemma PrimeSurvives(m: nat, k: nat)
    requires k <= m
    ensures Survivor(PrimeAt(m), k)
  {
    var q := PrimeAt(m);
    IsPrimeMeans(q);
    forall j: nat | j < k ensures RubyMod(q, PrimeAt(j)) > 0 {
      PrimesIncrease(j, m);
    }
  }

  /** The least survivor of k rounds is the k-th prime. */
  lemma LeastSurvivor(n: int, k: nat)
    requires Survivor(n, k)
    ensures PrimeAt(k) <= n
  {
    if n < PrimeAt(k) {
      var q := LeastDivisorFrom(n, 2);
      LeastDivisorIsPrime(n);
      var j := PrimesCover(q);
      if k < j {
        PrimesIncrease(k, j);
      }
    }
  }

  /** A stream listing the survivors of k rounds starts with the k-th prime. */
  lemma SurvivorsLead(t: Stream<int>, k: nat)
    requires ListsSurvivors(t, k)
    ensures t.elem(0) == PrimeAt(k)
  {
    PrimeSurvives(k, k);
    var i: nat :| t.elem(i) == PrimeAt(k);
    LeastSurvivor(t.elem(0), k);
  }

  /** Survivors of k rounds keep turning up beyond any index. */
  lemma SurvivorsOften(t: Stream<int>, k: nat, i: nat) returns (j: nat)
    requires ListsSurvivors(t, k)
    ensures i < j && Survivor(t.elem(j), k + 1)
  {
    var v := t.elem(i);
    var m: nat := k + 1 + v;
    PrimeSurvives(m, k + 1);
    PrimeSurvives(m, k);
    j :| t.elem(j) == PrimeAt(m);
  }

  /** The step of the sieve on a stream listing the survivors of k rounds:
      select from its tail the elements the k-th prime does not divide. */
  lemma NextSelects(t: Stream<int>, k: nat)
    requires ListsSurvivors(t, k)
    ensures InfinitelyOften(Shift(t.elem), SurvivesFor(PrimeAt(k)))
    ensures SieveNext(t) == SelectInfinite(Shift(t.elem), SurvivesFor(PrimeAt(k)))
  {
    var h := Shift(t.elem);
    var p := SurvivesFor(PrimeAt(k));
    SurvivorsLead(t, k);
    assert Tail(t) == Value(Infinite(h));
    forall i: nat ensures MatchFrom(h, p, i) {
      var j := SurvivorsOften(t, k, i + 1);
      assert h(j - 1) == t.elem(j);
      assert p(h(j - 1));
    }
  }

  /** Every survivor of k + 1 rounds is selected by that step. */
  lemma NextCovers(t: Stream<int>, k: nat, n: int) returns (m: nat)
    requires ListsSurvivors(t, k) && Survivor(n, k + 1)
    requires InfinitelyOften(Shift(t.elem), SurvivesFor(PrimeAt(k)))
    ensures Shift(t.elem)(NthMatch(Shift(t.elem), SurvivesFor(PrimeAt(k)), m)) == n
  {
    var h := Shift(t.elem);
    var p := SurvivesFor(PrimeAt(k));
    SurvivorsLead(t, k);
    assert Survivor(n, k);
    var i: nat :| t.elem(i) == n;
    MultipleMod(PrimeAt(k), 1);
    assert i != 0;
    var j: nat := i - 1;
    assert h(j) == n && p(h(j));
    NthMatchCovers(h, p, j);
    m :| NthMatch(h, p, m) == j;
  }

  /** One step of the sieve turns the survivors of k rounds into the
      survivors of k + 1. */
  lemma NextListsSurvivors(t: Stream<int>, k: nat)
    requires ListsSurvivors(t, k)
    ensures SieveNext(t).Value? && ListsSurvivors(SieveNext(t).get, k + 1)
  {
    var h := Shift(t.elem);
    var p := SurvivesFor(PrimeAt(k));
    NextSelects(t, k);
    var u := SieveNext(t).get;
    assert u.Infinite? && forall m: nat :: u.elem(m) == h(NthMatch(h, p, m));
    NextIncreasing(t, k, u);
    NextSurvivors(t, k, u);
    var k1 := k + 1;
    forall n | Survivor(n, k1) ensures exists i: nat :: u.elem(i) == n {
      var m := NextCovers(t, k, n);
      assert u.elem(m) == n;
    }
  }

  lemma NextIncreasing(t: Stream<int>, k: nat, u: Stream<int>)
    requires ListsSurvivors(t, k) && InfinitelyOften(Shift(t.elem), SurvivesFor(PrimeAt(k)))
    requires u.Infinite? &&
             forall m: nat :: u.elem(m) == Shift(t.elem)(NthMatch(Shift(t.elem), SurvivesFor(PrimeAt(k)), m))
    ensures forall i: nat, m: nat :: i < m ==> u.elem(i) < u.elem(m)
  {
    var h := Shift(t.elem);
    var p := SurvivesFor(PrimeAt(k));
    forall i: nat, m: nat | i < m ensures u.elem(i) < u.elem(m) {
      NthMatchIncreasing(h, p, i, m);
      assert h(NthMatch(h, p, i)) < h(NthMatch(h, p, m));
    }
  }

  lemma NextSurvivors(t: Stream<int>, k: nat, u: Stream<int>)
    requires ListsSurvivors(t, k) && InfinitelyOften(Shift(t.elem), SurvivesFor(PrimeAt(k)))
    requires u.Infinite? &&
             forall m: nat :: u.elem(m) == Shift(t.elem)(NthMatch(Shift(t.elem), SurvivesFor(PrimeAt(k)), m))
    ensures forall i: nat :: Survivor(u.elem(i), k + 1)
  {
    var h := Shift(t.elem);
    var p := SurvivesFor(PrimeAt(k));
    forall i: nat ensures Survivor(u.elem(i), k + 1) {
      var j := NthMatch(h, p, i);
      var j1: nat := j + 1;
      assert h(j) == t.elem(j1) && p(h(j));
      SurvivorNext(h(j), k);
    }
  }

  lemma SurvivorNext(n: int, k: nat)
    requires Survivor(n, k) && RubyMod(n, PrimeAt(k)) > 0
    ensures Survivor(n, k + 1)
  {
  }

  /** Round k of `prime_sieve` lists the survivors of k rounds. */
  lemma {:induction false} RoundsListSurvivors(k: nat)
    ensures Round(SieveStep(), IntegersFrom(2), k).Value?
    ensures ListsSurvivors(Round(SieveStep(), IntegersFrom(2), k).get, k)
  {
    if k == 0 {
      var t := IntegersFrom(2);
      forall n | Survivor(n, 0) ensures exists i: nat :: t.elem(i) == n {
        var i: nat := n - 2;
        assert t.elem(i) == n;
      }
    } else {
      var k0: nat := k - 1;
      RoundsListSurvivors(k0);
      var t := Round(SieveStep(), IntegersFrom(2), k0).get;
      assert !Stuck(Round(SieveStep(), IntegersFrom(2), k0));
      NextListsSurvivors(t, k0);
      assert SieveStep()(t) == SieveNext(t);
    }
  }

  /** `prime_sieve` is the stream of all primes, in increasing order. */
  lemma PrimeSieveIsPrimes()
    ensures PrimeSieve().Infinite?
    ensures Same(PrimeSieve(), Primes())
  {
    var s := PrimeSieve();
    forall k: nat ensures Has(s, k) && Elem(s, k) == PrimeAt(k) {
      forall j: nat | j <= k ensures !Stuck(Round(SieveStep(), IntegersFrom(2), j)) {
        RoundsListSurvivors(j);
      }
      SieveElem(IntegersFrom(2), k);
      RoundsListSurvivors(k);
      SurvivorsLead(Round(SieveStep(), IntegersFrom(2), k).get, k);
    }
    if s.Finite? {
      assert Has(s, |s.items|);
    }
  }
}
