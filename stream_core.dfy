/** Values of the stream model: what a Ruby `Stream` object stands for once
    every tail it can produce is known.

    A stream either lists finitely many elements and then says what forcing
    the tail after the last one does, or it has an element at every index.
    Ruby's `nil` is `None`; element values themselves are never nil here. */
module StreamCore {
  import opened Search

  datatype Option<T> = None | Some(value: T)

  /** How a Ruby call ends: with a value, by raising, or not at all. */
  datatype Outcome<R> = Value(get: R) | Raises | Diverges

  /** What forcing the tail after the last listed element does. */
  datatype Ending =
    | Stop     // the tail is `Stream.new`, the empty stream
    | NilTail  // the node was built by `Stream.new(x)` without a block: `rest` is nil
    | Raise    // forcing the tail raises
    | Hang     // forcing the tail never returns

  datatype Stream<T> = Finite(items: seq<T>, ending: Ending) | Infinite(elem: nat -> T)

  /** A Ruby value that is either a stream object or nil. */
  datatype Ref<T> = StreamRef(s: Stream<T>) | NilRef

  /** `Stream.new`: no first element and no block. */
  function Empty<T>(): Stream<T> {
    Finite([], Stop)
  }

  /** `Stream.new(x)` without a block: the tail lambda returns nil. */
  function Single<T>(x: T): Stream<T> {
    Finite([x], NilTail)
  }

  /** `Stream.new(x) { block }`, where `tail` is how the block's call ends. */
  function Prepend<T>(x: T, tail: Outcome<Stream<T>>): (r: Stream<T>)
    ensures r.Finite? <==> !(tail.Value? && tail.get.Infinite?)
    ensures r.Finite? ==> r.items != [] && r.items[0] == x
    ensures r.Infinite? ==> r.elem(0) == x
    // a block that raises or hangs leaves x as the only element, followed by that outcome
    ensures tail == Raises ==> r == Finite([x], Raise)
    ensures tail == Diverges ==> r == Finite([x], Hang)
    // after x come the elements of the block's stream, and then its ending
    ensures tail.Value? && tail.get.Finite? ==>
              r.items == [x] + tail.get.items &&
              (tail.get.items != [] ==> r.ending == tail.get.ending) &&
              (tail.get.items == [] ==> r.ending == Stop)
  {
    match tail
    case Value(Finite(items, e)) => Finite([x] + items, if items == [] then Stop else e)
    case Value(Infinite(g)) => Infinite((k: nat) => if k == 0 then x else g(k - 1))
    case Raises => Finite([x], Raise)
    case Diverges => Finite([x], Hang)
  }

  /** Number of listed elements; infinite streams count as 0 (used for termination). */
  function Size<T>(s: Stream<T>): nat {
    if s.Finite? then |s.items| else 0
  }

  /** Whether the stream has an element at index k. */
  predicate Has<T>(s: Stream<T>, k: nat) {
    s.Infinite? || k < |s.items|
  }

  function Elem<T>(s: Stream<T>, k: nat): T
    requires Has(s, k)
  {
    if s.Infinite? then s.elem(k) else s.items[k]
  }

  /** `first`: the `@first` field, nil on an empty stream. */
  function First<T>(s: Stream<T>): (r: Option<T>)
    ensures r.Some? <==> Has(s, 0)
    ensures r.Some? ==> r.value == Elem(s, 0)
  {
    match s
    case Finite(items, _) => if items == [] then None else Some(items[0])
    case Infinite(g) => Some(g(0))
  }

  /** `empty?`: the first element is nil. */
  predicate IsEmpty<T>(s: Stream<T>) {
    First(s).None?
  }

  /** `rest`: calls the tail lambda. On `Stream.new` that lambda returns nil. */
  function Rest<T>(s: Stream<T>): Outcome<Ref<T>> {
    match s
    case Infinite(g) => Value(StreamRef(Infinite(Shift(g))))
    case Finite(items, e) =>
      if |items| == 0 then Value(NilRef)
      else if |items| > 1 then Value(StreamRef(Finite(items[1..], e)))
      else match e
        case Stop => Value(StreamRef(Empty()))
        case NilTail => Value(NilRef)
        case Raise => Raises
        case Hang => Diverges
  }

  /** `rest.m(...)`: the tail, as the receiver of a further method call;
      a nil tail makes that call raise NoMethodError. */
  function Tail<T>(s: Stream<T>): (r: Outcome<Stream<T>>)
    ensures s.Finite? && r.Value? ==> r.get.Finite? && Size(r.get) < Size(s)
    // on `Stream.new` the tail is nil, so the call raises
    ensures s.Finite? && s.items == [] ==> r == Raises
    ensures s.Finite? && |s.items| > 1 ==> r == Value(Finite(s.items[1..], s.ending))
    ensures s.Finite? && |s.items| == 1 ==> r == Past(s.ending, Empty())
    ensures s.Infinite? ==> r.Value? && r.get.Infinite?
    ensures s.Infinite? ==> forall k: nat :: r.get.elem(k) == s.elem(k + 1)
  {
    match Rest(s)
    case Value(StreamRef(t)) => Value(t)
    case Value(NilRef) => Raises
    case Raises => Raises
    case Diverges => Diverges
  }

  /** What a walk that runs past the listed elements ends with. */
  function Past<R>(e: Ending, atStop: R): Outcome<R> {
    match e
    case Stop => Value(atStop)
    case NilTail => Raises
    case Raise => Raises
    case Hang => Diverges
  }

  /** The ending of a stream built lazily from one with ending `e`: the lazy
      tail calls a method on the original tail, so a nil tail now raises. */
  function Later(e: Ending): (r: Ending)
    ensures r != NilTail
    ensures e == NilTail ==> r == Raise
    ensures e != NilTail ==> r == e
  {
    if e == NilTail then Raise else e
  }

  /** Observational equality: same elements, and same behaviour past them. */
  ghost predicate Same<T>(s: Stream<T>, t: Stream<T>) {
    match (s, t)
    case (Finite(a, e), Finite(b, f)) => a == b && (a == [] || e == f)
    case (Infinite(g), Infinite(h)) => forall k :: g(k) == h(k)
    case _ => false
  }

  ghost predicate SameOutcome<T>(o: Outcome<Stream<T>>, p: Outcome<Stream<T>>) {
    match (o, p)
    case (Value(s), Value(t)) => Same(s, t)
    case (Raises, Raises) => true
    case (Diverges, Diverges) => true
    case _ => false
  }

  lemma {:induction false} SameIsEquivalence<T>(s: Stream<T>, t: Stream<T>, u: Stream<T>)
    ensures Same(s, s)
    ensures Same(s, t) ==> Same(t, s)
    ensures Same(s, t) && Same(t, u) ==> Same(s, u)
  {
  }

  /** Two observationally equal streams behave the same under Prepend. */
  lemma PrependRespectsSame<T>(x: T, o: Outcome<Stream<T>>, p: Outcome<Stream<T>>)
    requires SameOutcome(o, p)
    ensures Same(Prepend(x, o), Prepend(x, p))
  {
  }

  /** The law of `Stream.new(x) { blk }`: `first` is x, and the tail is what
      the block returns, raises or hangs with. */
  lemma TailOfPrepend<T>(x: T, o: Outcome<Stream<T>>)
    ensures First(Prepend(x, o)) == Some(x)
    ensures SameOutcome(Tail(Prepend(x, o)), o)
  {
  }

  /** `empty?` holds exactly of the streams that list no element, such as `Stream.new`. */
  lemma EmptyIffNoFirst<T>(s: Stream<T>)
    ensures IsEmpty(s) <==> s.Finite? && s.items == []
    ensures IsEmpty(Empty<T>())
  {
  }

  /** `Stream.new(x)` without a block is not empty, but its `rest` is nil,
      and any method called on that rest raises. */
  lemma SingleHasNilRest<T>(x: T)
    ensures !IsEmpty(Single(x)) && First(Single(x)) == Some(x)
    ensures Rest(Single(x)) == Value(NilRef)
    ensures Tail(Single(x)) == Raises
    ensures Rest(Empty<T>()) == Value(NilRef)
  {
  }
}
