/** `stream_map(*streams, &proc)` and `add_streams(*streams)`.

    The arguments are Ruby values, so any of them may be nil. The walk stops
    when the FIRST argument is empty; a later argument that runs out first
    does not stop it: its `first` is nil (handed to proc), and one step later
    its `rest` is nil, so asking it for `first` raises NoMethodError. */
module MapStreams {
  import opened StreamCore
  import opened Search
  import StreamOps

  /** No argument is nil. */
  predicate AllStreams<T>(ops: seq<Ref<T>>) {
    forall i :: 0 <= i < |ops| ==> ops[i].StreamRef?
  }

  /** Every argument is an infinite stream. */
  predicate AllInfinite<T>(ops: seq<Ref<T>>) {
    forall i :: 0 <= i < |ops| ==> ops[i].StreamRef? && ops[i].s.Infinite?
  }

  /** `streams.map(&:first)`. */
  function Firsts<T>(ops: seq<Ref<T>>): (r: seq<Option<T>>)
    requires AllStreams(ops)
    ensures |r| == |ops| && forall i :: 0 <= i < |ops| ==> r[i] == First(ops[i].s)
  {
    seq(|ops|, (i: int) requires 0 <= i < |ops| => First(ops[i].s))
  }

  /** `streams.map(&:rest)`: each tail is forced in turn, left to right; the
      first one that raises or hangs ends the whole map that way. */
  function Rests<T>(ops: seq<Ref<T>>): (r: Outcome<seq<Ref<T>>>)
    requires AllStreams(ops)
    ensures r.Value? <==> forall i :: 0 <= i < |ops| ==> Rest(ops[i].s).Value?
    ensures r.Value? ==>
              |r.get| == |ops| && forall i :: 0 <= i < |ops| ==> Rest(ops[i].s) == Value(r.get[i])
    ensures r.Raises? ==> exists i :: 0 <= i < |ops| && Rest(ops[i].s) == Raises
  {
    if ops == [] then Value([])
    else match Rest(ops[0].s)
      case Raises => Raises
      case Diverges => Diverges
      case Value(x) =>
        match Rests(ops[1..])
        case Value(xs) => Value([x] + xs)
        case Raises => Raises
        case Diverges => Diverges
  }

  /** How many more steps an argument can take before it is nil: none for an
      infinite stream. Used only to show that the walk ends. */
  function Fuel<T>(r: Ref<T>): Option<nat> {
    match r
    case NilRef => Some(0)
    case StreamRef(Finite(items, _)) => Some(|items| + 1)
    case StreamRef(Infinite(_)) => None
  }

  /** The least fuel among the arguments; None when all are infinite streams. */
  function LeastFuel<T>(ops: seq<Ref<T>>): (r: Option<nat>)
    ensures r.None? <==> AllInfinite(ops)
  {
    if ops == [] then None
    else
      var here := Fuel(ops[0]);
      var there := LeastFuel(ops[1..]);
      if here.None? then there
      else if there.None? || here.value <= there.value then here
      else there
  }

  /** Forcing the tail of a finite argument lowers its fuel. */
  lemma FuelAfterRest<T>(r: Ref<T>, x: Ref<T>)
    requires r.StreamRef? && Rest(r.s) == Value(x)
    ensures Fuel(r).None? <==> Fuel(x).None?
    ensures Fuel(r).Some? ==> Fuel(x).value < Fuel(r).value
  {
  }

  lemma {:induction false} LeastFuelDecreases<T>(ops: seq<Ref<T>>, rs: seq<Ref<T>>)
    requires AllStreams(ops) && |rs| == |ops|
    requires forall i :: 0 <= i < |ops| ==> Rest(ops[i].s) == Value(rs[i])
    requires LeastFuel(ops).Some?
    ensures LeastFuel(rs).Some? && LeastFuel(rs).value < LeastFuel(ops).value
  {
    FuelAfterRest(ops[0], rs[0]);
    if LeastFuel(ops[1..]).Some? {
      LeastFuelDecreases(ops[1..], rs[1..]);
    } else {
      assert AllInfinite(ops[1..]);
      assert forall i :: 0 <= i < |rs| - 1 ==> rs[1..][i] == rs[i + 1];
      forall i | 0 <= i < |rs| - 1 ensures rs[1..][i].StreamRef? && rs[1..][i].s.Infinite? {
        assert Rest(ops[i + 1].s) == Value(rs[i + 1]);
      }
    }
  }

  function Measure<T>(ops: seq<Ref<T>>): nat {
    if ops == [] || ops[0].NilRef? then 0
    else if ops[0].s.Finite? then |ops[0].s.items|
    else match LeastFuel(ops[1..]) case Some(n) => n case None => 0
  }

  lemma MeasureDecreases<T>(ops: seq<Ref<T>>, rs: seq<Ref<T>>)
    requires ops != [] && AllStreams(ops) && !IsEmpty(ops[0].s)
    requires ops[0].s.Finite? || LeastFuel(ops[1..]).Some?
    requires Rests(ops) == Value(rs)
    ensures Measure(rs) < Measure(ops)
    ensures !AllInfinite(rs)
  {
    assert Rest(ops[0].s) == Value(rs[0]);
    if ops[0].s.Finite? {
      if rs[0].StreamRef? {
        assert Tail(ops[0].s) == Value(rs[0].s);
      }
      assert !(rs[0].StreamRef? && rs[0].s.Infinite?);
    } else {
      var tail, rtail := ops[1..], rs[1..];
      forall i | 0 <= i < |tail| ensures tail[i].StreamRef? && Rest(tail[i].s) == Value(rtail[i]) {
        assert tail[i] == ops[i + 1] && rtail[i] == rs[i + 1];
      }
      LeastFuelDecreases(tail, rtail);
    }
  }

  /** Every argument is a stream with an element at index k. */
  predicate AllHave<T>(ops: seq<Ref<T>>, k: nat) {
    forall i :: 0 <= i < |ops| ==> ops[i].StreamRef? && Has(ops[i].s, k)
  }

  /** Element k of every argument. */
  function Column<T>(ops: seq<Ref<T>>, k: nat): (r: seq<Option<T>>)
    requires AllHave(ops, k)
    ensures |r| == |ops| && forall i :: 0 <= i < |ops| ==> r[i] == Some(Elem(ops[i].s, k))
  {
    seq(|ops|, (i: int) requires 0 <= i < |ops| => Some(Elem(ops[i].s, k)))
  }

  /** A call of proc that does not return a value. */
  predicate Fails<U>(o: Outcome<U>) {
    !o.Value?
  }

  /** proc on column k of infinite arguments. */
  function Outputs<T, U>(ops: seq<Ref<T>>, f: seq<Option<T>> -> Outcome<U>): (ys: nat -> Outcome<U>)
    requires AllInfinite(ops)
    ensures forall k: nat :: AllHave(ops, k) && ys(k) == f(Column(ops, k))
  {
    (k: nat) => f(Column(ops, k))
  }

  /** `stream_map` over infinite streams only: proc applied column by column,
      up to the first column on which proc raises or hangs. */
  ghost function MapInfinite<T, U>(ops: seq<Ref<T>>, f: seq<Option<T>> -> Outcome<U>): Outcome<Stream<U>>
    requires AllInfinite(ops)
  {
    var ys := Outputs(ops, f);
    if !MatchFrom(ys, Fails, 0) then Value(Infinite((k: nat) => ys(k).get))
    else
      var stop := NextMatch(ys, Fails, 0);
      var ending := if ys(stop).Raises? then Raise else Hang;
      if stop == 0 then (if ys(0).Raises? then Raises else Diverges)
      else Value(Finite(seq(stop, (k: int) requires 0 <= k < stop => ys(k).get), ending))
  }

  /** `stream_map(*streams, &proc)`. With no arguments, or a nil first one,
      `streams.first.empty?` raises; an empty first argument gives
      `Stream.new`; a nil later argument makes `streams.map(&:first)` raise.
      Otherwise proc gets the first elements and the tail maps the tails. */
  ghost function StreamMap<T, U>(ops: seq<Ref<T>>, f: seq<Option<T>> -> Outcome<U>): Outcome<Stream<U>>
    decreases Measure(ops)
  {
    if ops == [] || ops[0].NilRef? then Raises
    else if IsEmpty(ops[0].s) then Value(Empty())
    else if !AllStreams(ops) then Raises
    else if ops[0].s.Infinite? && LeastFuel(ops[1..]).None? then MapInfinite(ops, f)
    else match f(Firsts(ops))
      case Raises => Raises
      case Diverges => Diverges
      case Value(y) =>
        Value(Prepend(y,
          match Rests(ops)
          case Raises => Raises
          case Diverges => Diverges
          case Value(rs) => MeasureDecreases(ops, rs); StreamMap(rs, f)))
  }

  /** Argument r does not end the walk within n steps: it is an infinite
      stream, lists more than n elements, or lists exactly n and then gives
      `Stream.new` or nil. */
  predicate Outlasts<T>(r: Ref<T>, n: nat) {
    n == 0 ||
    (r.StreamRef? &&
     (r.s.Infinite? || n < |r.s.items| ||
      (n == |r.s.items| && (r.s.ending == Stop || r.s.ending == NilTail))))
  }

  /** The first argument lists exactly n elements and then stops as
      `Stream.new` does, and every later argument outlasts it. */
  predicate StopsAfter<T>(ops: seq<Ref<T>>, n: nat) {
    ops != [] && ops[0].StreamRef? && ops[0].s.Finite? &&
    |ops[0].s.items| == n && ops[0].s.ending == Stop &&
    forall i :: 1 <= i < |ops| ==> Outlasts(ops[i], n)
  }

  /** The tails of arguments whose `rest` all return. */
  function Dropped<T>(ops: seq<Ref<T>>): (rs: seq<Ref<T>>)
    requires AllStreams(ops) && forall i :: 0 <= i < |ops| ==> Rest(ops[i].s).Value?
    ensures |rs| == |ops| && forall i :: 0 <= i < |ops| ==> Rest(ops[i].s) == Value(rs[i])
  {
    seq(|ops|, (i: int) requires 0 <= i < |ops| => Rest(ops[i].s).get)
  }

  /** Forcing the tail of an argument that outlasts n >= 1 steps returns an
      argument that outlasts n - 1. */
  lemma RestOutlasts<T>(r: Ref<T>, n: nat)
    requires n >= 1 && Outlasts(r, n)
    ensures r.StreamRef? && Rest(r.s).Value? && Outlasts(Rest(r.s).get, n - 1)
  {
  }

  /** That tail holds the argument's element k + 1 at index k. */
  lemma RestShifts<T>(r: Ref<T>, n: nat, k: nat)
    requires n >= 1 && Outlasts(r, n) && k < n - 1
    ensures r.StreamRef? && Has(r.s, k + 1)
    ensures Rest(r.s).Value? && Rest(r.s).get.StreamRef? && Has(Rest(r.s).get.s, k)
    ensures Elem(Rest(r.s).get.s, k) == Elem(r.s, k + 1)
  {
    if r.s.Finite? {
      assert Rest(r.s) == Value(StreamRef(Finite(r.s.items[1..], r.s.ending)));
      assert r.s.items[1..][k] == r.s.items[k + 1];
    } else {
      assert Rest(r.s) == Value(StreamRef(Infinite(Shift(r.s.elem))));
    }
  }

  /** Forcing every tail of arguments that stop after n >= 1 elements gives
      arguments that stop after n - 1, shifted by one column. */
  lemma RestsDropped<T>(ops: seq<Ref<T>>, n: nat)
    requires n >= 1 && StopsAfter(ops, n)
    ensures AllStreams(ops) && forall i :: 0 <= i < |ops| ==> Rest(ops[i].s).Value?
    ensures Rests(ops) == Value(Dropped(ops))
    ensures StopsAfter(Dropped(ops), n - 1)
    ensures forall k :: 0 <= k < n - 1 ==> AllHave(Dropped(ops), k) && AllHave(ops, k + 1) &&
                                            Column(Dropped(ops), k) == Column(ops, k + 1)
  {
    forall i | 0 <= i < |ops|
      ensures Outlasts(ops[i], n) && ops[i].StreamRef? && Rest(ops[i].s).Value?
    {
      RestOutlasts(ops[i], n);
    }
    var rs := Dropped(ops);
    var r := Rests(ops);
    assert |r.get| == |rs|;
    assert forall i :: 0 <= i < |ops| ==> r.get[i] == rs[i];
    assert r.get == rs;
    var items := ops[0].s.items;
    if |items| == 1 {
      assert rs[0] == StreamRef(Finite([], Stop));
    } else {
      assert rs[0] == StreamRef(Finite(items[1..], Stop));
    }
    forall k | 0 <= k < n - 1
      ensures AllHave(rs, k) && AllHave(ops, k + 1) && Column(rs, k) == Column(ops, k + 1)
    {
      forall i | 0 <= i < |ops|
        ensures rs[i].StreamRef? && Has(rs[i].s, k) && Has(ops[i].s, k + 1)
        ensures Elem(rs[i].s, k) == Elem(ops[i].s, k + 1)
      {
        RestShifts(ops[i], n, k);
      }
      assert AllHave(rs, k);
      assert AllHave(ops, k + 1);
    }
  }

  /** When the first argument lists n elements and then stops, every later
      argument outlasts it, and proc returns on every column, `stream_map` is
      proc applied column by column: n elements, then `Stream.new`. */
  lemma {:induction false} StreamMapFinite<T, U>(ops: seq<Ref<T>>, f: seq<Option<T>> -> Outcome<U>, n: nat)
    requires StopsAfter(ops, n)
    requires forall k :: 0 <= k < n ==> AllHave(ops, k) && f(Column(ops, k)).Value?
    ensures StreamMap(ops, f).Value? && StreamMap(ops, f).get.Finite?
    ensures StreamMap(ops, f).get.ending == Stop && |StreamMap(ops, f).get.items| == n
    ensures forall k :: 0 <= k < n ==> StreamMap(ops, f).get.items[k] == f(Column(ops, k)).get
    decreases n
  {
    if n > 0 {
      assert AllHave(ops, 0);
      assert Firsts(ops) == Column(ops, 0);
      RestsDropped(ops, n);
      var rs := Dropped(ops);
      StreamMapFinite(rs, f, n - 1);
      var y := f(Column(ops, 0)).get;
      StreamMapStep(ops, f, rs, y);
      var tail := StreamMap(rs, f).get;
      var items := StreamMap(ops, f).get.items;
      assert items == [y] + tail.items;
      forall k | 0 <= k < n ensures items[k] == f(Column(ops, k)).get {
        if k > 0 {
          var k0: nat := k - 1;
          assert items[k] == tail.items[k0];
        }
      }
    } else {
      assert IsEmpty(ops[0].s);
    }
  }

  /** One step of `stream_map` over arguments the first of which is finite
      and non-empty. */
  lemma StreamMapStep<T, U>(ops: seq<Ref<T>>, f: seq<Option<T>> -> Outcome<U>, rs: seq<Ref<T>>, y: U)
    requires ops != [] && AllStreams(ops) && ops[0].s.Finite? && !IsEmpty(ops[0].s)
    requires f(Firsts(ops)) == Value(y) && Rests(ops) == Value(rs)
    ensures StreamMap(ops, f) == Value(Prepend(y, StreamMap(rs, f)))
  {
  }

  /** The result of `stream_map` is infinite only when every argument is an
      infinite stream. */
  lemma {:induction false} StreamMapInfiniteOnlyIfAll<T, U>(ops: seq<Ref<T>>, f: seq<Option<T>> -> Outcome<U>)
    ensures StreamMap(ops, f).Value? && StreamMap(ops, f).get.Infinite? ==> AllInfinite(ops)
    decreases Measure(ops)
  {
    if ops != [] && ops[0].StreamRef? && !IsEmpty(ops[0].s) && AllStreams(ops)
       && !(ops[0].s.Infinite? && LeastFuel(ops[1..]).None?) && f(Firsts(ops)).Value? {
      match Rests(ops)
      case Value(rs) =>
        MeasureDecreases(ops, rs);
        StreamMapInfiniteOnlyIfAll(rs, f);
        assert !AllInfinite(ops) by {
          assert ops[0].s.Finite? || !AllInfinite(ops[1..]);
        }
      case Raises =>
      case Diverges =>
    }
  }

  /** Over infinite streams on which proc always returns, `stream_map` is
      infinite and element k is proc applied to the k-th elements. */
  lemma StreamMapAllInfinite<T, U>(ops: seq<Ref<T>>, f: seq<Option<T>> -> Outcome<U>)
    requires ops != [] && AllInfinite(ops)
    requires forall k: nat :: f(Column(ops, k)).Value?
    ensures StreamMap(ops, f).Value? && StreamMap(ops, f).get.Infinite?
    ensures forall k: nat :: StreamMap(ops, f).get.elem(k) == f(Column(ops, k)).get
  {
    assert AllInfinite(ops[1..]);
    assert !MatchFrom(Outputs(ops, f), Fails, 0);
  }

  /** Forcing the tails of infinite arguments shifts every one of them. */
  lemma RestsShift<T>(ops: seq<Ref<T>>) returns (rs: seq<Ref<T>>)
    requires AllInfinite(ops)
    ensures AllStreams(ops) && Rests(ops) == Value(rs) && AllInfinite(rs)
    ensures forall k: nat :: Column(rs, k) == Column(ops, k + 1)
  {
    assert AllStreams(ops);
    assert Rests(ops).Value?;
    rs := Rests(ops).get;
    forall i | 0 <= i < |ops| ensures rs[i] == StreamRef(Infinite(Shift(ops[i].s.elem))) {
      assert Rest(ops[i].s) == Value(rs[i]);
    }
    forall k: nat ensures Column(rs, k) == Column(ops, k + 1) {
      assert AllHave(rs, k) && AllHave(ops, k + 1);
      var a, b := Column(rs, k), Column(ops, k + 1);
      forall i | 0 <= i < |ops| ensures a[i] == b[i] {
        assert Shift(ops[i].s.elem)(k) == ops[i].s.elem(k + 1);
      }
      assert |a| == |b|;
      assert a == b;
    }
  }

  /** Over infinite streams, `stream_map` satisfies the function's recursion
      equation: proc on the first elements, in front of the map of the tails. */
  lemma StreamMapUnfolds<T, U>(ops: seq<Ref<T>>, f: seq<Option<T>> -> Outcome<U>)
    requires ops != [] && AllInfinite(ops)
    ensures AllStreams(ops) && Rests(ops).Value?
    ensures SameOutcome(StreamMap(ops, f),
              match f(Firsts(ops))
              case Value(y) => Value(Prepend(y, StreamMap(Rests(ops).get, f)))
              case Raises => Raises
              case Diverges => Diverges)
  {
    var rs := RestsShift(ops);
    assert AllInfinite(ops[1..]) && AllInfinite(rs[1..]);
    assert StreamMap(ops, f) == MapInfinite(ops, f);
    assert StreamMap(rs, f) == MapInfinite(rs, f);
    assert Firsts(ops) == Column(ops, 0);
    MapInfiniteShift(ops, rs, f);
  }

  /** The closed form of `stream_map` over infinite streams satisfies the
      recursion equation, given the tails' arguments rs. */
  lemma MapInfiniteShift<T, U>(ops: seq<Ref<T>>, rs: seq<Ref<T>>, f: seq<Option<T>> -> Outcome<U>)
    requires AllInfinite(ops) && AllInfinite(rs)
    requires forall k: nat :: Column(rs, k) == Column(ops, k + 1)
    ensures AllHave(ops, 0)
    ensures SameOutcome(MapInfinite(ops, f),
              match f(Column(ops, 0))
              case Value(y) => Value(Prepend(y, MapInfinite(rs, f)))
              case Raises => Raises
              case Diverges => Diverges)
  {
    var ys, zs := Outputs(ops, f), Outputs(rs, f);
    assert forall k: nat :: zs(k) == ys(k + 1);
    if !MatchFrom(ys, Fails, 0) {
      assert Same(MapInfinite(ops, f).get, Prepend(ys(0).get, MapInfinite(rs, f)));
    } else {
      var stop := NextMatch(ys, Fails, 0);
      if stop > 0 {
        var last: nat := stop - 1;
        assert NoneBetween(zs, Fails, 0, last) by {
          forall l | 0 <= l < last ensures !Fails(zs(l)) {
            assert zs(l) == ys(l + 1);
          }
        }
        NextMatchIs(zs, Fails, 0, last);
        if last > 0 {
          var front := seq(stop, (k: int) requires 0 <= k < stop => ys(k).get);
          var back := seq(last, (k: int) requires 0 <= k < last => zs(k).get);
          assert front == [ys(0).get] + back;
        }
      }
    }
  }

  // ----- add_streams -----

  function Total(xs: seq<int>): int {
    if xs == [] then 0 else Total(xs[..|xs| - 1]) + xs[|xs| - 1]
  }

  /** The block of `add_streams`: `args.reduce(&:+)`. A nil argument after
      the first makes `Integer#+` raise TypeError. */
  function Sum(args: seq<Option<int>>): (r: Outcome<int>)
    ensures r.Raises? <==> exists i :: 0 <= i < |args| && args[i].None?
    ensures r.Value? ==> r.get == Total(seq(|args|, (i: int) requires 0 <= i < |args| => args[i].value))
  {
    if forall i :: 0 <= i < |args| ==> args[i].Some? then
      Value(Total(seq(|args|, (i: int) requires 0 <= i < |args| => args[i].value)))
    else Raises
  }

  /** The values of arguments none of which is nil. */
  function Values(args: seq<Option<int>>): (xs: seq<int>)
    requires forall i :: 0 <= i < |args| ==> args[i].Some?
    ensures |xs| == |args| && forall i :: 0 <= i < |args| ==> args[i] == Some(xs[i])
  {
    seq(|args|, (i: int) requires 0 <= i < |args| => args[i].value)
  }

  /** Adding up a non-empty list is folding `+` over the rest from the first. */
  lemma {:induction false} TotalIsFold(xs: seq<int>)
    requires xs != []
    ensures Total(xs) == StreamOps.FoldLeft(xs[0], xs[1..], (a: int, b: int) => a + b)
    decreases |xs|
  {
    var n := |xs|;
    if n == 1 {
      assert xs[..0] == [] && xs[1..] == [];
    } else {
      var front := xs[..n - 1];
      TotalIsFold(front);
      assert front[0] == xs[0];
      assert xs[1..][..n - 2] == front[1..];
      assert xs[1..][n - 2] == xs[n - 1];
    }
  }

  /** The block of `add_streams` is Ruby's `reduce(&:+)` without an initial
      value: the first argument, then `+` with each later one in turn. */
  lemma SumIsReduce(args: seq<Option<int>>)
    requires |args| >= 1 && forall i :: 0 <= i < |args| ==> args[i].Some?
    ensures Sum(args) == Value(StreamOps.FoldLeft(args[0].value, Values(args)[1..], (a: int, b: int) => a + b))
  {
    var xs := Values(args);
    assert xs == seq(|args|, (i: int) requires 0 <= i < |args| => args[i].value);
    TotalIsFold(xs);
  }

  /** `add_streams(*streams)`. */
  ghost function AddStreams(ops: seq<Ref<int>>): Outcome<Stream<int>> {
    StreamMap(ops, Sum)
  }

  /** Only the first argument decides where the sum stops: a shorter later
      argument contributes nil, and `Integer#+` raises on it. */
  lemma AddStreamsShorterLater()
    ensures AddStreams([StreamRef(Finite([1, 2], Stop)), StreamRef(Finite([10], Stop))])
            == Value(Finite([11], Raise))
  {
    var short := [StreamRef(Finite([1, 2], Stop)), StreamRef(Finite([10], Stop))];
    assert Firsts(short) == [Some(1), Some(10)];
    SumOfTwo(1, 10);
    var after := [StreamRef(Finite([2], Stop)), StreamRef(Empty<int>())];
    assert [1, 2][1..] == [2];
    assert Rest(short[0].s) == Value(after[0]) && Rest(short[1].s) == Value(after[1]);
    assert Rests(short).get == after;
    assert Firsts(after) == [Some(2), None];
    assert Sum([Some(2), None]) == Raises;
    assert StreamMap(after, Sum) == Raises;
  }

  lemma SumOfTwo(a: int, b: int)
    ensures Sum([Some(a), Some(b)]) == Value(a + b)
  {
    var args := [Some(a), Some(b)];
    assert forall i :: 0 <= i < |args| ==> args[i].Some?;
    assert seq(2, (i: int) requires 0 <= i < 2 => args[i].value) == [a, b];
    assert [a, b][..1] == [a] && [a][..0] == [];
    assert Total([a]) == a;
  }

  /** A longer later argument is cut short where the first one ends. */
  lemma AddStreamsLongerLater()
    ensures AddStreams([StreamRef(Finite([10], Stop)), StreamRef(Finite([1, 2], Stop))])
            == Value(Finite([11], Stop))
  {
    var long := [StreamRef(Finite([10], Stop)), StreamRef(Finite([1, 2], Stop))];
    assert AllHave(long, 0);
    assert Column(long, 0) == [Some(10), Some(1)];
    SumOfTwo(10, 1);
    StreamMapFinite(long, Sum, 1);
    var items := StreamMap(long, Sum).get.items;
    assert |items| == 1 && items[0] == Sum(Column(long, 0)).get;
    assert items == [11];
  }

  /** An empty first argument gives `Stream.new` whatever the others are;
      no arguments, or a nil first one, raise. */
  lemma AddStreamsNoFirst()
    ensures AddStreams([StreamRef(Empty()), NilRef]) == Value(Empty())
    ensures AddStreams([]) == Raises && AddStreams([NilRef, StreamRef(Empty())]) == Raises
  {
  }
}
