/** The integer stream generators: `enumerate_interval`,
    `integers_starting_from`, `no_sevens`, `fibgen`, and the self-referential
    `ones`, `integers` and `fibs`.

    A generator that calls itself forever is given as the infinite stream it
    builds; a lemma then shows that this stream satisfies the generator's own
    recursion, and for the self-referential streams that it is the only one. */
module Generators {
  import opened StreamCore
  import opened Search
  import opened StreamOps
  import opened MapStreams
  import opened Arith

  // ----- enumerate_interval -----

  /** `enumerate_interval(low, high)`: `Stream.new` once low passes high,
      otherwise low in front of the interval from low + 1. */
  function EnumerateInterval(low: int, high: int): Stream<int>
    decreases if low > high then 0 else high - low + 1
  {
    if low > high then Empty()
    else Prepend(low, Value(EnumerateInterval(low + 1, high)))
  }

  /** low, low + 1, ..., high (nothing when low > high). */
  function Range(low: int, high: int): (r: seq<int>)
    ensures |r| == if low > high then 0 else high - low + 1
  {
    var n := if low > high then 0 else high - low + 1;
    seq(n, (i: int) requires 0 <= i < n => low + i)
  }

  /** The interval lists low..high in increasing order and then stops. */
  lemma {:induction false} EnumerateIntervalIsRange(low: int, high: int)
    ensures EnumerateInterval(low, high) == Finite(Range(low, high), Stop)
    decreases if low > high then 0 else high - low + 1
  {
    if low <= high {
      EnumerateIntervalIsRange(low + 1, high);
      assert Range(low, high) == [low] + Range(low + 1, high);
    }
  }

  // ----- integers_starting_from -----

  /** `integers_starting_from(n)`: element k is n + k. */
  function IntegersFrom(n: int): (s: Stream<int>)
    ensures s.Infinite?
  {
    Infinite((k: nat) => n + k)
  }

  /** The stream satisfies the generator's recursion: n in front of the
      integers from n + 1, and its tail is exactly those. */
  lemma IntegersFromUnfolds(n: int)
    ensures Same(IntegersFrom(n), Prepend(n, Value(IntegersFrom(n + 1))))
    ensures Tail(IntegersFrom(n)).Value? && Same(Tail(IntegersFrom(n)).get, IntegersFrom(n + 1))
  {
  }

  // ----- no_sevens -----

  /** The block of `no_sevens`: `i % 7 > 0`. */
  predicate NotMultipleOfSeven(i: int) {
    RubyMod(i, 7) > 0
  }

  /** `no_sevens`: the integers from 1 that are not multiples of 7. */
  ghost function NoSevens(): Outcome<Stream<int>> {
    Select(IntegersFrom(1), NotMultipleOfSeven)
  }

  lemma NoSevensOften()
    ensures InfinitelyOften(IntegersFrom(1).elem, NotMultipleOfSeven)
  {
    var g := IntegersFrom(1).elem;
    forall i: nat ensures MatchFrom(g, NotMultipleOfSeven, i) {
      if !NotMultipleOfSeven(g(i)) {
        assert NotMultipleOfSeven(g(i + 1));
      }
    }
  }

  /** Index arithmetic behind `NoSevensIndex`: after index j + j / 6 the
      next index is accepted unless j is the last of a block of six. */
  lemma SevenStep(j: nat)
    ensures j % 6 < 5 ==>
      (j + 1) + (j + 1) / 6 == j + j / 6 + 1 && NotMultipleOfSeven(j + j / 6 + 2)
    ensures j % 6 == 5 ==>
      (j + 1) + (j + 1) / 6 == j + j / 6 + 2 && !NotMultipleOfSeven(j + j / 6 + 2)
      && NotMultipleOfSeven(j + j / 6 + 3)
  {
    var q, r := j / 6, j % 6;
    if r < 5 {
      DivModUnique(j + 1, 6, q, r + 1);
      DivModUnique(j + q + 2, 7, q, r + 2);
    } else {
      DivModUnique(j + 1, 6, q + 1, 0);
      DivModUnique(j + q + 2, 7, q + 1, 0);
      DivModUnique(j + q + 3, 7, q + 1, 1);
    }
  }

  /** After the accepted index j + j / 6, the next accepted one is
      (j + 1) + (j + 1) / 6. */
  lemma NoSevensNext(j: nat, m: nat)
    requires m == j + j / 6 + 1
    ensures MatchFrom(IntegersFrom(1).elem, NotMultipleOfSeven, m)
    ensures NextMatch(IntegersFrom(1).elem, NotMultipleOfSeven, m) == (j + 1) + (j + 1) / 6
  {
    var g, p := IntegersFrom(1).elem, NotMultipleOfSeven;
    SevenStep(j);
    if j % 6 < 5 {
      NextMatchIs(g, p, m, m);
    } else {
      NextMatchIs(g, p, m, m + 1);
    }
  }

  /** The k-th accepted index skips one index in every seven. */
  lemma {:induction false} NoSevensIndex(k: nat)
    requires InfinitelyOften(IntegersFrom(1).elem, NotMultipleOfSeven)
    ensures NthMatch(IntegersFrom(1).elem, NotMultipleOfSeven, k) == k + k / 6
  {
    var g, p := IntegersFrom(1).elem, NotMultipleOfSeven;
    if k == 0 {
      NextMatchIs(g, p, 0, 0);
    } else {
      var j: nat := k - 1;
      NoSevensIndex(j);
      var m := j + j / 6 + 1;
      NthMatchNext(g, p, j, k, m);
      NoSevensNext(j, m);
    }
  }

  /** `no_sevens` is infinite; element k is k + k / 6 + 1, so it lists every
      positive integer that is not a multiple of 7, in increasing order. */
  lemma NoSevensElements()
    ensures NoSevens().Value? && NoSevens().get.Infinite?
    ensures forall k: nat :: NoSevens().get.elem(k) == k + k / 6 + 1
  {
    NoSevensOften();
    assert NoSevens() == SelectInfinite(IntegersFrom(1).elem, NotMultipleOfSeven);
    forall k: nat ensures NoSevens().get.elem(k) == k + k / 6 + 1 {
      NoSevensIndex(k);
    }
  }

  /** No element of `no_sevens` is a multiple of 7. */
  lemma NoSevensHasNoMultipleOfSeven(k: nat)
    ensures NoSevens().Value? && Has(NoSevens().get, k)
    ensures RubyMod(Elem(NoSevens().get, k), 7) > 0
  {
    NoSevensElements();
    SelectAccepted(IntegersFrom(1), NotMultipleOfSeven, k);
  }

  /** `no_sevens.take(10)` is [1, 2, 3, 4, 5, 6, 8, 9, 10, 11]. */
  lemma NoSevensFirstTen()
    ensures NoSevens().Value?
    ensures Take(NoSevens().get, 10) == Finite([1, 2, 3, 4, 5, 6, 8, 9, 10, 11], Stop)
  {
    NoSevensElements();
    var s := NoSevens().get;
    var want := [1, 2, 3, 4, 5, 6, 8, 9, 10, 11];
    forall k | 0 <= k < 10 ensures s.elem(k) == want[k] {
      if k < 6 { assert k / 6 == 0; } else { assert k / 6 == 1; }
    }
    assert Prefix(s.elem, 10) == want;
    TakePrefix(s, 10);
  }

  // ----- fibgen -----

  /** Element k of `fibgen(a, b)`. */
  function FibFrom(a: int, b: int, k: nat): int
    decreases k
  {
    if k == 0 then a else FibFrom(b, a + b, k - 1)
  }

  /** `fibgen(a, b)`: a in front of `fibgen(b, a + b)`. */
  function Fibgen(a: int, b: int): (s: Stream<int>)
    ensures s.Infinite? && s.elem(0) == a
  {
    Infinite((k: nat) => FibFrom(a, b, k))
  }

  /** The stream satisfies the generator's recursion. */
  lemma FibgenUnfolds(a: int, b: int)
    ensures Same(Fibgen(a, b), Prepend(a, Value(Fibgen(b, a + b))))
  {
  }

  /** Fibonacci's recurrence, seeded with a and b. */
  lemma {:induction false} FibRecurrence(a: int, b: int, k: nat)
    ensures FibFrom(a, b, 1) == b
    ensures FibFrom(a, b, k + 2) == FibFrom(a, b, k) + FibFrom(a, b, k + 1)
    decreases k
  {
    if k > 0 {
      FibRecurrence(b, a + b, k - 1);
    }
  }

  // ----- ones, integers, fibs -----

  /** `ones = Stream.new(1) { ones }`. */
  function Ones(): (s: Stream<int>)
    ensures s.Infinite?
  {
    Infinite((k: nat) => 1)
  }

  /** The stream of ones satisfies its defining equation. */
  lemma OnesFixedPoint()
    ensures Same(Ones(), Prepend(1, Value(Ones())))
  {
  }

  /** Any stream satisfying the equation of `ones` is infinite and all ones. */
  lemma {:induction false} OnesUnique(s: Stream<int>, k: nat)
    requires Same(s, Prepend(1, Value(s)))
    ensures s.Infinite? && s.elem(k) == 1
  {
    if k > 0 {
      var j: nat := k - 1;
      OnesUnique(s, j);
    }
  }

  /** `integers = Stream.new(1) { add_streams(ones, integers) }`. */
  function Integers(): (s: Stream<int>)
    ensures s.Infinite?
  {
    IntegersFrom(1)
  }

  /** The block of `integers`, applied to a candidate stream s. */
  ghost function IntegersBody(s: Stream<int>): Outcome<Stream<int>> {
    AddStreams([StreamRef(Ones()), StreamRef(s)])
  }

  /** Adding `ones` to an infinite stream adds 1 to every element. */
  lemma AddOnes(s: Stream<int>)
    requires s.Infinite?
    ensures IntegersBody(s).Value? && IntegersBody(s).get.Infinite?
    ensures forall k: nat :: IntegersBody(s).get.elem(k) == 1 + s.elem(k)
  {
    var ops := [StreamRef(Ones()), StreamRef(s)];
    forall k: nat ensures Sum(Column(ops, k)) == Value(1 + s.elem(k)) {
      assert Column(ops, k) == [Some(1), Some(s.elem(k))];
      SumOfTwo(1, s.elem(k));
    }
    StreamMapAllInfinite(ops, Sum);
  }

  /** The integers from 1 satisfy the equation of `integers`. */
  lemma IntegersFixedPoint()
    ensures Same(Integers(), Prepend(1, IntegersBody(Integers())))
  {
    AddOnes(Integers());
  }

  /** `[a, b].map(&:rest)` forces both tails, or stops at the first that
      raises or hangs. */
  lemma RestsOfTwo<T>(a: Stream<T>, b: Stream<T>)
    ensures Rest(a).Value? && Rest(b).Value? ==>
              Rests([StreamRef(a), StreamRef(b)]) == Value([Rest(a).get, Rest(b).get])
    ensures !Rest(a).Value? || !Rest(b).Value? ==> !Rests([StreamRef(a), StreamRef(b)]).Value?
  {
    var ops := [StreamRef(a), StreamRef(b)];
    var last := [StreamRef(b)];
    assert ops[1..] == last && last[1..] == [];
    if Rest(b).Value? {
      assert Rests(last) == Value([Rest(b).get] + []);
      if Rest(a).Value? {
        assert ops != [] && ops[0].s == a;
        assert Rest(ops[0].s) == Value(Rest(a).get);
        assert [Rest(b).get] + [] == [Rest(b).get];
        assert Rests(last) == Value([Rest(b).get]);
        assert Rests(ops[1..]) == Value([Rest(b).get]);
        assert [Rest(a).get] + [Rest(b).get] == [Rest(a).get, Rest(b).get];
        assert Rests(ops) == Value([Rest(a).get] + [Rest(b).get]);
      }
    } else {
      assert !Rests(last).Value?;
    }
    assert ops[0].s == a && ops[1].s == b;
  }

  /** Adding an infinite stream to a finite one: the nil that the finite one
      hands over once its elements run out makes `+` raise, so the sum lists
      exactly as many elements as the finite argument. */
  lemma {:induction false} AddInfiniteToFinite(u: Stream<int>, items: seq<int>, e: Ending)
    requires u.Infinite?
    ensures items == [] ==> AddStreams([StreamRef(u), StreamRef(Finite(items, e))]) == Raises
    ensures items != [] ==>
              AddStreams([StreamRef(u), StreamRef(Finite(items, e))]).Value? &&
              AddStreams([StreamRef(u), StreamRef(Finite(items, e))]).get.Finite? &&
              |AddStreams([StreamRef(u), StreamRef(Finite(items, e))]).get.items| == |items|
    decreases |items|
  {
    var ops := [StreamRef(u), StreamRef(Finite(items, e))];
    assert LeastFuel(ops[1..]).Some?;
    if items == [] {
      assert Firsts(ops) == [Some(u.elem(0)), None];
    } else {
      assert Firsts(ops) == [Some(u.elem(0)), Some(items[0])];
      SumOfTwo(u.elem(0), items[0]);
      var v := Infinite(Shift(u.elem));
      if |items| > 1 {
        RestsOfTwo(u, Finite(items, e));
        assert Rests(ops) == Value([StreamRef(v), StreamRef(Finite(items[1..], e))]);
        AddInfiniteToFinite(v, items[1..], e);
      } else if e == Stop {
        RestsOfTwo(u, Finite(items, e));
        assert Rests(ops) == Value([StreamRef(v), StreamRef(Finite([], Stop))]);
        AddInfiniteToFinite(v, [], Stop);
      } else if e == NilTail {
        RestsOfTwo(u, Finite(items, e));
        var rs := [StreamRef(v), NilRef];
        assert Rests(ops) == Value(rs);
        assert !AllStreams(rs) && !IsEmpty(v);
        assert StreamMap(rs, Sum) == Raises;
      } else {
        RestsOfTwo(u, Finite(items, e));
        assert !Rests(ops).Value?;
      }
    }
  }

  /** No finite stream satisfies the equation of `integers`: the right-hand
      side always lists one element more than the stream itself. */
  lemma IntegersSolutionInfinite(s: Stream<int>)
    requires Same(s, Prepend(1, IntegersBody(s)))
    ensures s.Infinite?
  {
    if s.Finite? {
      AddInfiniteToFinite(Ones(), s.items, s.ending);
      assert false;
    }
  }

  /** Any stream satisfying the equation of `integers` is 1, 2, 3, ... */
  lemma {:induction false} IntegersUnique(s: Stream<int>, k: nat)
    requires Same(s, Prepend(1, IntegersBody(s)))
    ensures s.Infinite? && s.elem(k) == k + 1
  {
    IntegersSolutionInfinite(s);
    AddOnes(s);
    if k > 0 {
      var j: nat := k - 1;
      IntegersUnique(s, j);
    }
  }

  /** `fibs = Stream.new(0) { Stream.new(1) { add_streams(fibs.rest, fibs) } }`. */
  function Fibs(): (s: Stream<int>)
    ensures s.Infinite?
  {
    Fibgen(0, 1)
  }

  /** The inner block of `fibs`, applied to a candidate stream s. */
  ghost function FibsBody(s: Stream<int>): Outcome<Stream<int>> {
    match Rest(s)
    case Value(r) => AddStreams([r, StreamRef(s)])
    case Raises => Raises
    case Diverges => Diverges
  }

  /** Adding an infinite stream to its own tail sums neighbours. */
  lemma AddShifted(s: Stream<int>)
    requires s.Infinite?
    ensures FibsBody(s).Value? && FibsBody(s).get.Infinite?
    ensures forall k: nat :: FibsBody(s).get.elem(k) == s.elem(k + 1) + s.elem(k)
  {
    var ops := [StreamRef(Infinite(Shift(s.elem))), StreamRef(s)];
    assert Rest(s) == Value(ops[0]);
    forall k: nat ensures Sum(Column(ops, k)) == Value(s.elem(k + 1) + s.elem(k)) {
      assert Column(ops, k) == [Some(s.elem(k + 1)), Some(s.elem(k))];
      SumOfTwo(s.elem(k + 1), s.elem(k));
    }
    StreamMapAllInfinite(ops, Sum);
  }

  /** Two elements in front of an infinite stream. */
  lemma TwoInFront(x: int, y: int, u: Outcome<Stream<int>>)
    requires u.Value? && u.get.Infinite?
    ensures var t := Prepend(x, Value(Prepend(y, u)));
      t.Infinite? && t.elem(0) == x && t.elem(1) == y
      && forall j: nat :: t.elem(j + 2) == u.get.elem(j)
  {
  }

  /** AddShifted at one index. */
  lemma AddShiftedAt(s: Stream<int>, k: nat)
    requires s.Infinite?
    ensures FibsBody(s).Value? && FibsBody(s).get.Infinite?
    ensures FibsBody(s).get.elem(k) == s.elem(k + 1) + s.elem(k)
  {
    AddShifted(s);
  }

  /** TwoInFront at one index. */
  lemma TwoInFrontAt(x: int, y: int, u: Outcome<Stream<int>>, j: nat)
    requires u.Value? && u.get.Infinite?
    ensures Prepend(x, Value(Prepend(y, u))).Infinite?
    ensures Prepend(x, Value(Prepend(y, u))).elem(j + 2) == u.get.elem(j)
  {
    TwoInFront(x, y, u);
  }

  /** Adding a longer stream to a finite one stops where the first argument
      does, so the sum lists exactly as many elements as the first argument. */
  lemma {:induction false} AddFiniteToLonger(a: seq<int>, e: Ending, v: Stream<int>)
    requires v.Infinite? || |v.items| > |a|
    ensures a == [] ==> AddStreams([StreamRef(Finite(a, e)), StreamRef(v)]) == Value(Empty())
    ensures a != [] ==>
              AddStreams([StreamRef(Finite(a, e)), StreamRef(v)]).Value? &&
              AddStreams([StreamRef(Finite(a, e)), StreamRef(v)]).get.Finite? &&
              |AddStreams([StreamRef(Finite(a, e)), StreamRef(v)]).get.items| == |a|
    decreases |a|
  {
    var ops := [StreamRef(Finite(a, e)), StreamRef(v)];
    if a != [] {
      assert Has(v, 0);
      assert Firsts(ops) == [Some(a[0]), Some(Elem(v, 0))];
      SumOfTwo(a[0], Elem(v, 0));
      RestsOfTwo(Finite(a, e), v);
      assert Rest(v).Value? && Rest(v).get.StreamRef?;
      var w := Rest(v).get.s;
      assert w.Infinite? || |w.items| == |v.items| - 1;
      if |a| > 1 {
        assert Rests(ops) == Value([StreamRef(Finite(a[1..], e)), StreamRef(w)]);
        AddFiniteToLonger(a[1..], e, w);
      } else if e == Stop {
        assert Rests(ops) == Value([StreamRef(Finite([], Stop)), StreamRef(w)]);
        AddFiniteToLonger([], Stop, w);
      } else if e == NilTail {
        var rs := [NilRef, StreamRef(w)];
        assert Rests(ops) == Value(rs);
        assert StreamMap(rs, Sum) == Raises;
      } else {
        assert !Rests(ops).Value?;
      }
    }
  }

  /** No finite stream satisfies the equation of `fibs`: the right-hand side
      lists two elements in front of a sum that is one element shorter than
      the stream, so one element more than the stream itself. */
  lemma FibsSolutionInfinite(s: Stream<int>)
    requires Same(s, Prepend(0, Value(Prepend(1, FibsBody(s)))))
    ensures s.Infinite?
  {
    if s.Finite? {
      var r := Prepend(0, Value(Prepend(1, FibsBody(s))));
      assert r.Finite? && r.items[..2] == [0, 1];
      assert |s.items| >= 2;
      assert Rest(s) == Value(StreamRef(Finite(s.items[1..], s.ending)));
      AddFiniteToLonger(s.items[1..], s.ending, s);
      assert false;
    }
  }

  /** `fibgen(0, 1)` satisfies the equation of `fibs`. */
  lemma FibsFixedPoint()
    ensures Same(Fibs(), Prepend(0, Value(Prepend(1, FibsBody(Fibs())))))
  {
    var s := Fibs();
    AddShifted(s);
    TwoInFront(0, 1, FibsBody(s));
    var t := Prepend(0, Value(Prepend(1, FibsBody(s))));
    FibRecurrence(0, 1, 0);
    forall k: nat ensures s.elem(k) == t.elem(k) {
      if k >= 2 {
        var j: nat := k - 2;
        FibRecurrence(0, 1, j);
        assert t.elem(j + 2) == s.elem(j + 1) + s.elem(j);
      }
    }
  }

  /** Element j + 2 of s is the sum of the two before it. */
  ghost predicate FibStep(s: Stream<int>, j: nat)
    requires s.Infinite?
  {
    s.elem(j + 2) == s.elem(j + 1) + s.elem(j)
  }

  /** An infinite stream that starts 0, 1 and then adds neighbours is the
      Fibonacci numbers from 0. */
  lemma {:induction false} FibStepsAreFibs(s: Stream<int>, k: nat)
    requires s.Infinite? && s.elem(0) == 0 && s.elem(1) == 1
    requires forall j: nat :: FibStep(s, j)
    ensures s.elem(k) == FibFrom(0, 1, k)
  {
    FibRecurrence(0, 1, 0);
    if k >= 2 {
      var j: nat := k - 2;
      var i: nat := j + 1;
      FibStepsAreFibs(s, j);
      FibStepsAreFibs(s, i);
      FibRecurrence(0, 1, j);
      assert FibStep(s, j);
    }
  }

  /** Any stream satisfying the equation of `fibs` is the Fibonacci
      numbers from 0. */
  lemma FibsUnique(s: Stream<int>, k: nat)
    requires Same(s, Prepend(0, Value(Prepend(1, FibsBody(s)))))
    ensures s.Infinite? && s.elem(k) == FibFrom(0, 1, k)
  {
    FibsSolutionInfinite(s);
    forall j: nat ensures FibStep(s, j) {
      var j2 := j + 2;
      AddShiftedAt(s, j);
      TwoInFrontAt(0, 1, FibsBody(s), j);
      assert s.elem(j2) == Prepend(0, Value(Prepend(1, FibsBody(s)))).elem(j2);
    }
    FibStepsAreFibs(s, k);
  }

  /** The first ten Fibonacci numbers. */
  lemma FibValues()
    ensures FibFrom(0, 1, 0) == 0 && FibFrom(0, 1, 1) == 1 && FibFrom(0, 1, 2) == 1
    ensures FibFrom(0, 1, 3) == 2 && FibFrom(0, 1, 4) == 3 && FibFrom(0, 1, 5) == 5
    ensures FibFrom(0, 1, 6) == 8 && FibFrom(0, 1, 7) == 13 && FibFrom(0, 1, 8) == 21
    ensures FibFrom(0, 1, 9) == 34
  {
  }

  /** `take` of an infinite stream whose first elements are known. */
  lemma TakeListed<T>(s: Stream<T>, want: seq<T>)
    requires s.Infinite?
    requires forall k :: 0 <= k < |want| ==> s.elem(k) == want[k]
    ensures Take(s, |want|) == Finite(want, Stop)
  {
    TakePrefix(s, |want|);
    if want != [] {
      assert Prefix(s.elem, |want|) == want;
    }
  }

  /** `fibs.take(n)` for n up to 10 lists the first n of
      0, 1, 1, 2, 3, 5, 8, 13, 21, 34. */
  lemma FibsFirstTen(n: nat)
    requires n <= 10
    ensures Take(Fibs(), n) == Finite([0, 1, 1, 2, 3, 5, 8, 13, 21, 34][..n], Stop)
  {
    FibsListed();
    TakeTen(Fibs(), [0, 1, 1, 2, 3, 5, 8, 13, 21, 34], n);
  }

  lemma FibsListed()
    ensures [Fibs().elem(0), Fibs().elem(1), Fibs().elem(2), Fibs().elem(3), Fibs().elem(4),
             Fibs().elem(5), Fibs().elem(6), Fibs().elem(7), Fibs().elem(8), Fibs().elem(9)]
            == [0, 1, 1, 2, 3, 5, 8, 13, 21, 34]
  {
    FibValues();
  }

  /** `take(n)` of an infinite stream whose first ten elements are listed. */
  lemma TakeTen<T>(s: Stream<T>, full: seq<T>, n: nat)
    requires s.Infinite? && n <= 10
    requires full == [s.elem(0), s.elem(1), s.elem(2), s.elem(3), s.elem(4),
                      s.elem(5), s.elem(6), s.elem(7), s.elem(8), s.elem(9)]
    ensures Take(s, n) == Finite(full[..n], Stop)
  {
    TakeListed(s, full[..n]);
  }

  // ----- what the scripts compute from `integers` -----

  /** The block of `reduce(0, &:+)`. */
  function Add(a: int, b: int): int {
    a + b
  }

  /** `integers.take(n)` lists 1..n and stops. */
  lemma IntegersTake(n: int)
    ensures Take(Integers(), n) == Finite(Range(1, n), Stop)
  {
    TakePrefix(Integers(), n);
    if n >= 1 {
      assert Prefix(Integers().elem, n) == Range(1, n);
    }
  }

  /** Twice the sum of 1..n is n * (n + 1). */
  lemma {:induction false} RangeSum(n: nat)
    ensures 2 * FoldLeft(0, Range(1, n), Add) == n * (n + 1)
  {
    if n > 0 {
      var m: nat := n - 1;
      RangeSum(m);
      assert Range(1, n)[..m] == Range(1, m);
    }
  }

  /** `integers.take(n).reduce(0, &:+)` is n * (n + 1) / 2; for n = 10, 55. */
  lemma IntegersTakeSum(n: nat)
    ensures Reduce(Take(Integers(), n), 0, Add).Value?
    ensures 2 * Reduce(Take(Integers(), n), 0, Add).get == n * (n + 1)
    ensures n == 10 ==> Reduce(Take(Integers(), n), 0, Add) == Value(55)
  {
    IntegersTake(n);
    ReduceIsFoldLeft(Take(Integers(), n), 0, Add);
    RangeSum(n);
  }

  /** Adding a stream that lists 1..n to itself doubles each element. */
  lemma AddRangeToItself(n: nat, t: Stream<int>)
    requires t == Finite(Range(1, n), Stop)
    ensures AddStreams([StreamRef(t), StreamRef(t)])
            == Value(Finite(seq(n, (k: int) requires 0 <= k < n => 2 * (k + 1)), Stop))
  {
    var ops := [StreamRef(t), StreamRef(t)];
    if n > 0 {
      forall k | 0 <= k < n ensures AllHave(ops, k) && Sum(Column(ops, k)) == Value(2 * (k + 1)) {
        assert Column(ops, k) == [Some(k + 1), Some(k + 1)];
        SumOfTwo(k + 1, k + 1);
      }
      StreamMapFinite(ops, Sum, n);
      var r := StreamMap(ops, Sum).get.items;
      var doubles := seq(n, (k: int) requires 0 <= k < n => 2 * (k + 1));
      assert |r| == n && forall k :: 0 <= k < n ==> r[k] == doubles[k];
      assert r == doubles;
      assert AddStreams(ops) == StreamMap(ops, Sum);
    } else {
      assert IsEmpty(t);
      assert seq(n, (k: int) requires 0 <= k < n => 2 * (k + 1)) == [];
    }
  }

  /** `add_streams(integers.take(n), integers.take(n))` is 2, 4, ..., 2n. */
  lemma AddStreamsDoubles(n: nat)
    ensures AddStreams([StreamRef(Take(Integers(), n)), StreamRef(Take(Integers(), n))])
            == Value(Finite(seq(n, (k: int) requires 0 <= k < n => 2 * (k + 1)), Stop))
  {
    IntegersTake(n);
    AddRangeToItself(n, Take(Integers(), n));
  }

  /** `add_streams(enumerate_interval(1, n), integers)` is 2, 4, ..., 2n and
      then stops: the infinite later argument is cut short where the first
      one ends. */
  lemma AddIntervalToIntegers(n: nat)
    ensures AddStreams([StreamRef(EnumerateInterval(1, n)), StreamRef(Integers())])
            == Value(Finite(seq(n, (k: int) requires 0 <= k < n => 2 * (k + 1)), Stop))
  {
    EnumerateIntervalIsRange(1, n);
    var ops := [StreamRef(EnumerateInterval(1, n)), StreamRef(Integers())];
    if n > 0 {
      forall k | 0 <= k < n ensures AllHave(ops, k) && Sum(Column(ops, k)) == Value(2 * (k + 1)) {
        assert Column(ops, k) == [Some(k + 1), Some(k + 1)];
        SumOfTwo(k + 1, k + 1);
      }
      StreamMapFinite(ops, Sum, n);
      var r := StreamMap(ops, Sum).get.items;
      var doubles := seq(n, (k: int) requires 0 <= k < n => 2 * (k + 1));
      assert |r| == n && forall k :: 0 <= k < n ==> r[k] == doubles[k];
      assert r == doubles;
      assert AddStreams(ops) == StreamMap(ops, Sum);
    } else {
      assert IsEmpty(EnumerateInterval(1, n));
      assert seq(n, (k: int) requires 0 <= k < n => 2 * (k + 1)) == [];
    }
  }
}
