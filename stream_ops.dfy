/** The recursive methods of the `Stream` class: `at`, `drop`, `each`, `map`,
    `reduce`, `select` and `take`.

    On a stream that lists finitely many elements each function follows the
    method's own recursion: test `empty?`, use `first`, recurse on `rest`.
    On an infinite stream that recursion never bottoms out, so the function
    gives the stream it builds element by element, and a lemma shows that the
    method's recursion equation holds of it. */
module StreamOps {
  import opened StreamCore
  import opened Search

  // ----- at -----

  /** `at(n)`: nil on an empty stream, `first` when n is 0, otherwise
      `rest.at(n - 1)`. A negative n never reaches 0, so the walk runs to the
      end of the stream (forever, on an infinite one). */
  function At<T>(s: Stream<T>, n: int): Outcome<Option<T>>
    decreases Size(s) + (if n > 0 then n else 0)
  {
    if IsEmpty(s) then Value(None)
    else if n == 0 then Value(First(s))
    else if s.Infinite? && n < 0 then Diverges
    else match Tail(s)
      case Value(t) => At(t, n - 1)
      case Raises => Raises
      case Diverges => Diverges
  }

  /** `at(n)` is element n when there is one; past the end it is nil after
      `Stream.new`, and otherwise whatever forcing the missing tail does. */
  lemma {:induction false} AtIndex<T>(s: Stream<T>, n: int)
    ensures At(s, n) ==
      if n >= 0 && Has(s, n) then Value(Some(Elem(s, n)))
      else if s.Infinite? then Diverges
      else if s.items == [] then Value(None)
      else Past(s.ending, None)
    decreases Size(s) + (if n > 0 then n else 0)
  {
    if !IsEmpty(s) && n != 0 && !(s.Infinite? && n < 0) {
      match Tail(s)
      case Value(t) =>
        AtIndex(t, n - 1);
        if s.Finite? && |s.items| == 1 {
          assert t == Empty<T>();
        }
      case Raises =>
      case Diverges =>
    }
  }

  // ----- drop -----

  /** `drop(n)`: the stream itself when it is empty or n < 1, otherwise
      `rest.drop(n - 1)`. */
  function Drop<T>(s: Stream<T>, n: int): Outcome<Stream<T>>
    decreases if n > 0 then n else 0
  {
    if IsEmpty(s) || n < 1 then Value(s)
    else match Tail(s)
      case Value(t) => Drop(t, n - 1)
      case Raises => Raises
      case Diverges => Diverges
  }

  /** Dropping from a finite stream: the elements from index n on, or, when
      all are dropped, whatever the source's tail ends with. */
  lemma {:induction false} DropFinite<T>(s: Stream<T>, n: int)
    requires s.Finite? && s.items != [] && n >= 1
    ensures Drop(s, n) == if n < |s.items| then Value(Finite(s.items[n..], s.ending))
                          else Past(s.ending, Empty())
    decreases n
  {
    match Tail(s)
    case Value(t) =>
      if |s.items| > 1 && n > 1 {
        DropFinite(t, n - 1);
        if n < |s.items| {
          assert t.items[n - 1..] == s.items[n..];
        }
      }
    case Raises =>
    case Diverges =>
  }

  /** Element k of `drop(n)` of an infinite stream is element n + k. */
  lemma {:induction false} DropInfinite<T>(g: nat -> T, n: nat)
    ensures Drop(Infinite(g), n).Value? && Drop(Infinite(g), n).get.Infinite?
    ensures forall k: nat :: Drop(Infinite(g), n).get.elem(k) == g(n + k)
    decreases n
  {
    if n >= 1 {
      var t := Tail(Infinite(g)).get;
      DropInfinite(t.elem, n - 1);
      assert Drop(Infinite(g), n) == Drop(Infinite(t.elem), n - 1);
    }
  }

  // ----- each -----

  /** A run of `each`: the arguments the callback received, in order, and how
      the call ended (it returns the receiver); or a run that never ends. */
  datatype EachRun<T> = Ran(calls: seq<T>, result: Outcome<Stream<T>>) | Forever(endless: nat -> T)

  /** `each(&proc)`: unless empty, call proc on `first`, then `rest.each`;
      return the receiver. */
  function Each<T>(s: Stream<T>): (r: EachRun<T>)
    ensures s.Finite? <==> r.Ran?
    decreases Size(s)
  {
    if IsEmpty(s) then Ran([], Value(s))
    else match s
      case Infinite(g) => Forever(g)
      case Finite(items, _) =>
        match Tail(s)
        case Value(t) =>
          var r := Each(t);
          Ran([items[0]] + r.calls, if r.result.Value? then Value(s) else r.result)
        case Raises => Ran([items[0]], Raises)
        case Diverges => Ran([items[0]], Diverges)
  }

  /** `each` hands the callback every element in order; it returns the receiver
      when the stream ends in `Stream.new`, and otherwise ends like the tail. */
  lemma {:induction false} EachCallsInOrder<T>(s: Stream<T>)
    ensures s.Finite? ==>
      Each(s) == Ran(s.items, if s.items == [] then Value(s) else Past(s.ending, s))
    ensures s.Infinite? ==> Each(s) == Forever(s.elem)
    decreases Size(s)
  {
    if s.Finite? && |s.items| > 0 {
      match Tail(s)
      case Value(t) =>
        EachCallsInOrder(t);
        if |s.items| > 1 {
          assert [s.items[0]] + s.items[1..] == s.items;
        }
      case Raises =>
      case Diverges =>
    }
  }

  // ----- map -----

  /** `map(&proc)`: an empty stream unchanged, otherwise
      `Stream.new(proc.call(first)) { rest.map(&proc) }`. */
  function Map<T, U>(s: Stream<T>, f: T -> U): Stream<U>
    decreases Size(s)
  {
    if IsEmpty(s) then Empty()
    else match s
      case Infinite(g) => Infinite((k: nat) => f(g(k)))
      case Finite(items, _) =>
        Prepend(f(items[0]),
          match Tail(s)
          case Value(t) => Value(Map(t, f))
          case Raises => Raises
          case Diverges => Diverges)
  }

  /** Element k of `map` is proc of element k, the length is kept, and the
      lazy tail turns a nil `rest` into a raising one. */
  lemma {:induction false} MapElements<T, U>(s: Stream<T>, f: T -> U)
    ensures s.Finite? ==>
      Map(s, f) == Finite(seq(|s.items|, (i: int) requires 0 <= i < |s.items| => f(s.items[i])),
                          if s.items == [] then Stop else Later(s.ending))
    ensures s.Infinite? ==> Map(s, f).Infinite? && forall k: nat :: Map(s, f).elem(k) == f(s.elem(k))
    decreases Size(s)
  {
    if s.Finite? && |s.items| > 0 {
      match Tail(s)
      case Value(t) => MapElements(t, f);
      case Raises =>
      case Diverges =>
    }
  }

  /** On an infinite stream, `map` satisfies the method's recursion equation. */
  lemma MapUnfolds<T, U>(g: nat -> T, f: T -> U)
    ensures Same(Map(Infinite(g), f),
                 Prepend(f(g(0)), Value(Map(Tail(Infinite(g)).get, f))))
  {
  }

  // ----- reduce -----

  /** `reduce(initial, &proc)`: initial on an empty stream, otherwise
      `rest.reduce(proc.call(initial, first), &proc)`. */
  function Reduce<T, A>(s: Stream<T>, init: A, f: (A, T) -> A): Outcome<A>
    decreases Size(s)
  {
    if IsEmpty(s) then Value(init)
    else if s.Infinite? then Diverges
    else match Tail(s)
      case Value(t) => Reduce(t, f(init, s.items[0]), f)
      case Raises => Raises
      case Diverges => Diverges
  }

  /** The left fold, defined from the last element backwards. */
  function FoldLeft<T, A>(init: A, xs: seq<T>, f: (A, T) -> A): A {
    if xs == [] then init else f(FoldLeft(init, xs[..|xs| - 1], f), xs[|xs| - 1])
  }

  /** Folding from the front one element at a time agrees with FoldLeft. */
  lemma {:induction false} FoldLeftFront<T, A>(init: A, x: T, xs: seq<T>, f: (A, T) -> A)
    ensures FoldLeft(f(init, x), xs, f) == FoldLeft(init, [x] + xs, f)
    decreases |xs|
  {
    if xs != [] {
      FoldLeftFront(init, x, xs[..|xs| - 1], f);
      assert ([x] + xs)[..|xs|] == [x] + xs[..|xs| - 1];
    }
  }

  /** `reduce` is the left fold of proc over the elements, ending in initial
      on an empty stream; a tail that raises or hangs ends it the same way. */
  lemma {:induction false} ReduceIsFoldLeft<T, A>(s: Stream<T>, init: A, f: (A, T) -> A)
    ensures s.Finite? ==>
      Reduce(s, init, f) == if s.items == [] then Value(init)
                            else Past(s.ending, FoldLeft(init, s.items, f))
    ensures s.Infinite? ==> Reduce(s, init, f) == Diverges
    decreases Size(s)
  {
    if s.Finite? && |s.items| > 0 {
      var x := s.items[0];
      match Tail(s)
      case Value(t) =>
        ReduceIsFoldLeft(t, f(init, x), f);
        FoldLeftFront(init, x, t.items, f);
        if |s.items| > 1 {
          assert [x] + t.items == s.items;
        } else {
          assert [x] == s.items;
        }
      case Raises =>
      case Diverges =>
    }
  }

  // ----- select -----

  /** `select(&pred)`: the stream itself when empty; `Stream.new(first) {
      rest.select(&pred) }` when pred accepts first; otherwise
      `rest.select(&pred)` at once. */
  ghost function Select<T>(s: Stream<T>, p: T -> bool): Outcome<Stream<T>>
    decreases Size(s)
  {
    if IsEmpty(s) then Value(s)
    else match s
      case Infinite(g) => SelectInfinite(g, p)
      case Finite(items, _) =>
        var rest :=
          match Tail(s)
          case Value(t) => Select(t, p)
          case Raises => Raises
          case Diverges => Diverges;
        if p(items[0]) then Value(Prepend(items[0], rest)) else rest
  }

  /** An index past the last accepted one, when there is a last one. */
  ghost function MatchBound<T>(g: nat -> T, p: T -> bool): (n: nat)
    requires !InfinitelyOften(g, p)
    ensures !MatchFrom(g, p, n)
  {
    var n: nat :| !MatchFrom(g, p, n);
    n
  }

  /** `select` on an infinite stream: the accepted elements in order when they
      never run out; when they do, the walk for the next one never returns,
      so the result ends in a hang, or the call itself hangs if none exists. */
  ghost function SelectInfinite<T>(g: nat -> T, p: T -> bool): Outcome<Stream<T>> {
    if InfinitelyOften(g, p) then
      Value(Infinite((k: nat) => g(NthMatch(g, p, k))))
    else
      var found := Filter(Prefix(g, MatchBound(g, p)), p);
      if found == [] then Diverges else Value(Finite(found, Hang))
  }

  /** On a finite stream `select` keeps exactly the accepted elements, in
      order; it returns the empty stream when none remain and the source ends
      in `Stream.new`. */
  lemma {:induction false} SelectFinite<T>(s: Stream<T>, p: T -> bool)
    requires s.Finite?
    ensures Select(s, p) ==
      if s.items == [] then Value(s)
      else if Filter(s.items, p) == [] then Past(s.ending, Empty())
      else Value(Finite(Filter(s.items, p), Later(s.ending)))
    decreases Size(s)
  {
    if s.items != [] {
      match Tail(s)
      case Value(t) =>
        SelectFinite(t, p);
        if |s.items| > 1 {
          var x := s.items[0];
          assert t.items == s.items[1..];
          assert Filter(s.items, p) == (if p(x) then [x] else []) + Filter(t.items, p);
          if Filter(t.items, p) == [] {
            assert Select(t, p) == Past(s.ending, Empty());
            if p(x) {
              assert Select(s, p) == Value(Prepend(x, Past(s.ending, Empty())));
              match s.ending
              case Stop =>
              case NilTail =>
                assert Past(s.ending, Empty<T>()) == Raises;
                assert Select(s, p) == Value(Finite([x], Raise));
                assert Filter(s.items, p) == [x];
              case Raise =>
              case Hang =>
            }
          } else {
            assert Select(t, p) == Value(Finite(Filter(t.items, p), Later(s.ending)));
          }
        } else {
          assert t == Empty<T>();
        }
      case Raises =>
        SelectSingle(s, p);
        assert s.items == [s.items[0]];
        assert Rest(s) == Raises || Rest(s) == Value(NilRef);
      case Diverges =>
        SelectSingle(s, p);
        assert s.items == [s.items[0]];
        assert Rest(s) == Diverges;
    }
  }

  lemma SelectSingle<T>(s: Stream<T>, p: T -> bool)
    requires s.Finite? && |s.items| == 1
    ensures Filter(s.items, p) == if p(s.items[0]) then s.items else []
  {
  }

  /** Every element `select` returns is accepted, wherever it stands. */
  lemma SelectAccepted<T>(s: Stream<T>, p: T -> bool, k: nat)
    requires Select(s, p).Value? && Has(Select(s, p).get, k)
    ensures p(Elem(Select(s, p).get, k))
  {
    if s.Finite? {
      SelectFinite(s, p);
      var r := Select(s, p).get;
      if s.items != [] {
        FilterMembers(s.items, p, r.items[k]);
      }
    } else if !IsEmpty(s) && !InfinitelyOften(s.elem, p) {
      assert Select(s, p) == SelectInfinite(s.elem, p);
      var r := Select(s, p).get;
      assert r.items == Filter(Prefix(s.elem, MatchBound(s.elem, p)), p);
      assert r.items[k] in r.items;
      FilterMembers(Prefix(s.elem, MatchBound(s.elem, p)), p, r.items[k]);
    } else if !IsEmpty(s) {
      assert Select(s, p) == SelectInfinite(s.elem, p);
      assert Elem(Select(s, p).get, k) == s.elem(NthMatch(s.elem, p, k));
    }
  }

  /** On an infinite stream, `select` satisfies the method's recursion
      equation: an accepted first element is kept in front of the selection
      from the rest, a rejected one is skipped. */
  lemma SelectUnfolds<T>(g: nat -> T, p: T -> bool)
    ensures var rest := Select(Tail(Infinite(g)).get, p);
      SameOutcome(Select(Infinite(g), p),
                  if p(g(0)) then Value(Prepend(g(0), rest)) else rest)
  {
    var h := Shift(g);
    assert Select(Infinite(g), p) == SelectInfinite(g, p);
    assert Select(Infinite(h), p) == SelectInfinite(h, p);
    ShiftInfinitelyOften(g, p);
    if InfinitelyOften(g, p) {
      SelectShiftOften(g, p);
    } else {
      SelectShiftBounded(g, p);
    }
  }

  lemma SelectShiftOften<T>(g: nat -> T, p: T -> bool)
    requires InfinitelyOften(g, p) && InfinitelyOften(Shift(g), p)
    ensures var rest := SelectInfinite(Shift(g), p);
      SameOutcome(SelectInfinite(g, p), if p(g(0)) then Value(Prepend(g(0), rest)) else rest)
  {
    var h := Shift(g);
    if p(g(0)) {
      forall k: nat ensures g(NthMatch(g, p, k)) == Prepend(g(0), SelectInfinite(h, p)).elem(k) {
        if k == 0 {
          NthMatchShiftAccepted(g, p, 0, 1);
        } else {
          var j: nat := k - 1;
          NthMatchShiftAccepted(g, p, j, k);
        }
      }
    } else {
      forall k: nat ensures g(NthMatch(g, p, k)) == h(NthMatch(h, p, k)) {
        NthMatchShiftRejected(g, p, k);
      }
    }
  }

  lemma SelectShiftBounded<T>(g: nat -> T, p: T -> bool)
    requires !InfinitelyOften(g, p) && !InfinitelyOften(Shift(g), p)
    ensures var rest := SelectInfinite(Shift(g), p);
      SameOutcome(SelectInfinite(g, p), if p(g(0)) then Value(Prepend(g(0), rest)) else rest)
  {
    var h := Shift(g);
    var n := MatchBound(g, p);
    var m := MatchBound(h, p);
    var big: nat := if n < m + 1 then m + 1 else n;
    FilterPrefixStable(g, p, n, big);
    FilterPrefixStable(h, p, m, big - 1);
    assert Prefix(g, big) == [g(0)] + Prefix(h, big - 1);
    FilterAppend([g(0)], Prefix(h, big - 1), p);
  }

  // ----- take -----

  /** `take(n)`: `Stream.new` when empty or n < 1, otherwise
      `Stream.new(first) { rest.take(n - 1) }`. */
  function Take<T>(s: Stream<T>, n: int): (r: Stream<T>)
    ensures r.Finite?
    decreases if n > 0 then n else 0
  {
    if IsEmpty(s) || n < 1 then Empty()
    else
      Prepend(First(s).value,
        match Tail(s)
        case Value(t) => Value(Take(t, n - 1))
        case Raises => Raises
        case Diverges => Diverges)
  }

  function Min(a: int, b: int): int {
    if a < b then a else b
  }

  /** `take(n)` keeps the first min(n, length) elements in order; it ends in
      `Stream.new` when it stopped early, and otherwise like the source's tail. */
  lemma {:induction false} TakePrefix<T>(s: Stream<T>, n: int)
    ensures n < 1 || IsEmpty(s) ==> Take(s, n) == Empty()
    ensures n >= 1 && s.Infinite? ==> Take(s, n) == Finite(Prefix(s.elem, n), Stop)
    ensures n >= 1 && s.Finite? && s.items != [] ==>
      Take(s, n) == Finite(s.items[..Min(n, |s.items|)],
                           if n < |s.items| then Stop else Later(s.ending))
    decreases if n > 0 then n else 0
  {
    if !IsEmpty(s) && n >= 1 {
      match Tail(s)
      case Value(t) =>
        TakePrefix(t, n - 1);
        if s.Infinite? {
          assert Prefix(s.elem, n) == [s.elem(0)] + Prefix(t.elem, n - 1);
        } else if |s.items| > 1 && n > 1 {
          assert s.items[..Min(n, |s.items|)] == [s.items[0]] + t.items[..Min(n - 1, |t.items|)];
        }
      case Raises =>
      case Diverges =>
    }
  }

  /** Taking the same bounded prefix twice changes nothing. */
  lemma TakeTwice<T>(s: Stream<T>, n: int)
    ensures Take(Take(s, n), n) == Take(s, n)
  {
    TakePrefix(s, n);
    TakePrefix(Take(s, n), n);
  }

  // ----- properties every element has -----

  /** Every element of s satisfies q. */
  ghost predicate AllElems<T>(s: Stream<T>, q: T -> bool) {
    forall k: nat :: Has(s, k) ==> q(Elem(s, k))
  }

  /** The tail's elements are elements of the stream. */
  lemma TailKeeps<T>(s: Stream<T>, q: T -> bool)
    requires AllElems(s, q) && Tail(s).Value?
    ensures AllElems(Tail(s).get, q)
  {
    var t := Tail(s).get;
    forall k: nat | Has(t, k) ensures q(Elem(t, k)) {
      var k1: nat := k + 1;
      if s.Finite? {
        assert t.items == s.items[1..];
        assert Elem(t, k) == Elem(s, k1);
      } else {
        assert Elem(t, k) == Elem(s, k1);
      }
    }
  }

  /** What `select` returns is drawn from its receiver, so it keeps every
      property all of the receiver's elements have. */
  lemma SelectKeeps<T>(s: Stream<T>, p: T -> bool, q: T -> bool)
    requires AllElems(s, q) && Select(s, p).Value?
    ensures AllElems(Select(s, p).get, q)
  {
    var r := Select(s, p).get;
    forall k: nat | Has(r, k) ensures q(Elem(r, k)) {
      if s.Finite? {
        SelectFinite(s, p);
        if s.items != [] {
          var x := r.items[k];
          assert x in r.items;
          FilterMembers(s.items, p, x);
          var i :| 0 <= i < |s.items| && s.items[i] == x;
          assert Has(s, i);
        }
      } else if !IsEmpty(s) && !InfinitelyOften(s.elem, p) {
        assert Select(s, p) == SelectInfinite(s.elem, p);
        var pre := Prefix(s.elem, MatchBound(s.elem, p));
        assert r.items == Filter(pre, p);
        var x := r.items[k];
        assert x in r.items;
        FilterMembers(pre, p, x);
        var i :| 0 <= i < |pre| && pre[i] == x;
        assert Has(s, i) && Elem(s, i) == x;
      } else if !IsEmpty(s) {
        assert Select(s, p) == SelectInfinite(s.elem, p);
        var i := NthMatch(s.elem, p, k);
        assert Elem(r, k) == s.elem(i) && Has(s, i);
      }
    }
  }
}
