# SICP lazy streams in Ruby, modelled in Dafny

This project models the memoised lazy streams of chapter 3.5 of *Structure
and Interpretation of Computer Programs*, as the Ruby files `stream.rb`,
`number.rb` and `streams.rb` implement them, and proves what the code
promises about them.

The pieces are:

- `memo_proc`, a lambda that runs its block until the block first returns
  and then only hands back the remembered result;
- the `Stream` class, a cons cell whose tail is such a lambda, with its
  recursive methods `at`, `drop`, `each`, `map`, `reduce`, `select` and
  `take`;
- the variadic `stream_map` and `add_streams`;
- the integer generators built on them: `enumerate_interval`,
  `integers_starting_from`, `no_sevens`, `fibgen`, the self-referential
  `ones`, `integers`, `fibs` and `primes`, trial division in `iter_primes` /
  `prime?`, `prime_enumerate_interval` and the sieve of Eratosthenes;
- from the `lazy_stream` version: `interleave` and `pairs`, `make_tableau` /
  `accelerated_sequence`, `gcd` and the pass/fail counting of `monte_carlo`.

## How a stream is modelled

A Ruby stream is a chain of objects whose tails are computed on demand.
Once every tail it can produce is known, such a chain is one of two values
(`StreamCore.Stream`):

- `Finite(items, ending)`: finitely many elements, then an `ending` that
  says what forcing the next tail does. It can give `Stream.new`, the empty
  stream (`Stop`). It can be nil, as for `Stream.new(x)` without a block
  (`NilTail`). It can raise (`Raise`), or never return (`Hang`).
- `Infinite(elem)`: an element at every index.

Every call that can fail returns an `Outcome`: `Value(v)`, `Raises` or
`Diverges`.

**Recursive methods.** On finite streams the functions of `StreamOps` follow
each Ruby method's own recursion: test `empty?`, use `first`, recurse on
`rest`. On infinite streams each one gives the stream it builds in closed
form, and a lemma shows that the method's recursion equation holds of it.
Two streams that agree element by element are "the same" (`Same`), the
equality those equations use.

**Self-referential streams.** `ones`, `integers`, `fibs` and `primes` are
each shown to satisfy their defining equation. For `ones`, `integers` and
`fibs` the model also proves that theirs is the only stream that does: no finite
stream satisfies any of the three equations, and the infinite solution is unique. The sieve of Eratosthenes, `prime_sieve`, is proved to list exactly the
primes in increasing order.

**`memo_proc` as an object.** It is a class (`Memo.MemoProc`) whose fields
`alreadyRun` and `result` are the two captured variables. The block is given
as the outcome of its i-th invocation, so a block that raises and is retried
can be described.

The modules, in dependency order:

| file | module | what it models |
|---|---|---|
| `search.dfy` | `Search` | first and n-th index at which a predicate holds; filters on sequences |
| `stream_core.dfy` | `StreamCore` | stream values, `Stream.new`, `first`, `rest`, `empty?` |
| `arith.dfy` | `Arith` | Ruby's `%`, primality |
| `stream_ops.dfy` | `StreamOps` | `at`, `drop`, `each`, `map`, `reduce`, `select`, `take` |
| `stream_map.dfy` | `MapStreams` | `stream_map`, `add_streams` |
| `generators.dfy` | `Generators` | `enumerate_interval`, `integers_starting_from`, `no_sevens`, `fibgen`, `ones`, `integers`, `fibs` |
| `primes.dfy` | `PrimeStreams` | `iter_primes` / `prime?`, `primes` / `@primes`, `is_prime`, `prime_enumerate_interval` |
| `sieve.dfy` | `Sieve` | `sieve`, `prime_sieve` |
| `lazy_streams.dfy` | `LazyStreams` | `to_a`, `interleave`, `pairs`, `make_tableau`, `accelerated_sequence`, `gcd`, `monte_carlo` |
| `memo.dfy` | `Memo` | `memo_proc` and the `Stream` node as objects |

`number.rb` repeats the generators of `stream.rb` over the same `Stream`
class, and `streams.rb` repeats them over `lazy_stream`. Each generator is
modelled once. Where a row below cites one file, the same definition sits
at the lines named in its third column.

## Model

| member | source | states |
|---|---|---|
| StreamCore.Prepend | stream.rb:25-28 | `Stream.new(x) { block }` has x as its first element. It is infinite exactly when the block returns an infinite stream. A block that raises or hangs leaves x as the only element, followed by that raise or hang. When the block returns a finite stream, x is followed by that stream's elements and then its ending; when that stream is empty, by `Stream.new`. |
| StreamCore.First | stream.rb:30 | `first` is nil exactly when the stream has no element 0; otherwise it is element 0. |
| StreamCore.Tail | stream.rb:32-34 | The stream a method call on `rest` reaches. On `Stream.new` the tail is nil, so the call raises. With two or more elements it is the stream of the elements after the first, with the same ending. With one element it is `Stream.new` when the stream ends in `Stream.new`, a raise when the tail is nil or raises, and a hang when the tail hangs. The tail of an infinite stream is infinite, and its element k is element k + 1 of the stream. |
| StreamCore.Later | stream.rb:70-76 | A stream built lazily from another never has a nil tail. Where the original tail is nil, the lazy block calls a method on it, which raises. A raise, a hang or `Stream.new` carries over unchanged. |
| StreamCore.EmptyIffNoFirst | stream.rb:25-38 | `empty?` holds exactly when no element is listed, and `Stream.new` with no arguments is empty. |
| StreamCore.SingleHasNilRest | stream.rb:25-34 | `Stream.new(x)` without a block is not empty and its first is x, but its `rest` is nil (so `rest.m` raises). The `rest` of `Stream.new` is nil too. |
| StreamCore.TailOfPrepend | stream.rb:25-34 | The law connecting `Stream.new` with `first` and `rest`: `Stream.new(x) { block }.first` is x, and its tail is what the block returns, raises or hangs with (the same stream element by element). |
| Arith.RubyMod | stream.rb:159 | Ruby's `n % p`: for p > 0 the remainder lies in [0, p), for p < 0 it lies in (p, 0], and n == q * p + remainder for Ruby's floored quotient q. |
| StreamOps.AtIndex | stream.rb:40-48 | `at(n)` is element n when there is one. Past the last element it is nil if the stream ends in `Stream.new`, and otherwise whatever forcing the missing tail does. It is nil on an empty stream. A negative n walks an infinite stream forever. |
| StreamOps.DropFinite | stream.rb:54-60 | For n >= 1 on a non-empty finite stream, `drop(n)` lists the elements from index n on. Dropping all of them gives the empty stream if the source ends in `Stream.new`, and otherwise raises or hangs as its tail does. |
| StreamOps.DropInfinite | stream.rb:54-60 | On an infinite stream, element k of `drop(n)` is element n + k. |
| StreamOps.Each | stream.rb:62-68 | `each` walks every listed element exactly when the stream is finite, and then returns, raises or hangs as the last tail does. On an infinite stream it never finishes the walk. |
| StreamOps.EachCallsInOrder | stream.rb:62-68 | The callback receives every element once, in order. `each` returns the receiver when the stream ends in `Stream.new`, and otherwise raises or hangs as the tail does. On an infinite stream the callback is called forever. |
| StreamOps.MapElements | stream.rb:70-76 | Element k of `map(&proc)` is `proc` applied to element k, and the length is preserved. An empty stream maps to the empty stream. A finite result ends as the source does, except that a nil tail becomes a raise. |
| StreamOps.MapUnfolds | stream.rb:74 | On an infinite stream the result satisfies `Stream.new(proc.call(first)) { rest.map(&proc) }`. |
| StreamOps.ReduceIsFoldLeft | stream.rb:78-84 | `reduce(initial)` is initial on an empty stream. Otherwise it is the left fold of `proc` over the elements when the stream ends in `Stream.new`, and raises or hangs as the tail does otherwise. It never returns on an infinite stream. |
| StreamOps.SelectFinite | stream.rb:86-94 | On a finite stream, `select` keeps exactly the accepted elements, in their order. It returns the empty stream when none remain and the source ends in `Stream.new`, and returns an empty receiver itself. |
| StreamOps.SelectAccepted | stream.rb:86-94 | Every element `select` returns satisfies `pred`. |
| StreamOps.SelectKeeps | stream.rb:86-94 | A property of every element of the source holds of every element `select` returns. |
| StreamOps.SelectUnfolds | stream.rb:89-92 | On an infinite stream, `select` satisfies its recursion: an accepted first element in front of the selected rest, otherwise the selected rest itself. |
| StreamOps.Take | stream.rb:96-102 | `take(n)` is always a finite stream. |
| StreamOps.TakePrefix | stream.rb:96-102 | `take(n)` is `Stream.new` when n < 1 or the stream is empty. Otherwise it lists the first min(n, length) elements in order, ending in `Stream.new` when it stopped early. |
| StreamOps.TakeTwice | stream.rb:96-102 | `take(n).take(n) == take(n)`. |
| MapStreams.Rests | stream.rb:140 | `streams.map(&:rest)` returns exactly when every argument's `rest` returns, and then gives each argument's tail by position. It raises only if some `rest` raises. |
| MapStreams.StreamMapFinite | stream.rb:135-143 | Suppose the first argument lists exactly n elements and then `Stream.new`. Suppose every later argument is an infinite stream, lists more than n elements, or lists exactly n and then `Stream.new` or a nil tail. Suppose also that proc returns on each column. Then `stream_map` lists n elements, element k is proc applied to column k, and the result ends in `Stream.new`. |
| MapStreams.StreamMapStep | stream.rb:139-141 | A finite, non-empty first argument gives proc's result on the firsts, in front of `stream_map` over the rests. |
| MapStreams.RestsDropped | stream.rb:140 | Under those conditions, for n >= 1, `streams.map(&:rest)` returns. The tails again meet the conditions for n - 1, and column k of the tails is column k + 1 of the arguments. |
| MapStreams.StreamMapInfiniteOnlyIfAll | stream.rb:135-143 | The result is infinite only if every argument is an infinite stream. |
| MapStreams.StreamMapAllInfinite | stream.rb:135-143 | Over infinite arguments on which proc always returns, the result is infinite and element k is proc applied to column k. |
| MapStreams.StreamMapUnfolds | stream.rb:139-141 | Over infinite arguments, `stream_map` satisfies its own recursion: proc on the firsts, in front of `stream_map` over the rests, or proc's raise or hang. |
| MapStreams.SumIsReduce | stream.rb:146 | When no argument is nil, the block `args.reduce(&:+)` of `add_streams` returns the fold of `+` over the later arguments, starting from the first: Ruby's `reduce` without an initial value. |
| MapStreams.AddStreamsShorterLater | stream.rb:136 | Only the first argument decides where `add_streams` stops. A later argument that runs out first contributes nil, and `+` raises on it: [1, 2] added to [10] gives 11, then raises. |
| MapStreams.AddStreamsLongerLater | stream.rb:136 | [10] added to [1, 2] stops after 11, when the first argument ends. |
| MapStreams.AddStreamsNoFirst | stream.rb:135-137 | An empty first argument gives `Stream.new`, even with a nil argument after it. No arguments, or a nil first argument, raise. |
| Generators.EnumerateIntervalIsRange | stream.rb:105-111 | `enumerate_interval(low, high)` is `Stream.new` when low > high, and otherwise lists low, low + 1, ..., high and stops (also number.rb:5-11 and streams.rb:6-9). |
| Generators.IntegersFrom | stream.rb:113-115 | `integers_starting_from(n)` never ends (also number.rb:13-15 and streams.rb:11-13). |
| Generators.IntegersFromUnfolds | stream.rb:113-115 | The stream whose element k is n + k satisfies `Stream.new(n) { integers_starting_from(n + 1) }`, and its tail is the integers from n + 1. |
| Generators.NoSevensElements | stream.rb:117-119 | `no_sevens` is infinite, and element k is k + k / 6 + 1, so it skips exactly the multiples of 7 (also number.rb:17-19 and streams.rb:15-17). |
| Generators.NoSevensHasNoMultipleOfSeven | stream.rb:117-119 | No element of `no_sevens` is a multiple of 7. |
| Generators.NoSevensFirstTen | streams.rb:133 | `no_sevens.take(10)` is [1, 2, 3, 4, 5, 6, 8, 9, 10, 11]. |
| Generators.Fibgen | stream.rb:121-123 | `fibgen(a, b)` never ends and starts with a (also number.rb:21-23 and streams.rb:19-21). |
| Generators.FibgenUnfolds | stream.rb:121-123 | The model of `fibgen(a, b)` satisfies `Stream.new(a) { fibgen(b, a + b) }`. |
| Generators.FibRecurrence | stream.rb:121-123 | Element 1 of `fibgen(a, b)` is b, and element k + 2 is the sum of elements k and k + 1. |
| Generators.Ones | stream.rb:149 | `ones` never ends. |
| Generators.OnesFixedPoint | stream.rb:149 | The stream of ones satisfies `ones = Stream.new(1) { ones }` (also number.rb:35 and streams.rb:33). |
| Generators.OnesUnique | stream.rb:149 | Every stream satisfying that equation is infinite and all ones. |
| Generators.Integers | stream.rb:151 | `integers` never ends. |
| Generators.AddOnes | stream.rb:151 | `add_streams(ones, s)` over an infinite s is infinite, with element k equal to 1 + element k of s. |
| Generators.IntegersFixedPoint | stream.rb:151 | 1, 2, 3, ... satisfies `integers = Stream.new(1) { add_streams(ones, integers) }` (also number.rb:37 and streams.rb:35). |
| Generators.AddInfiniteToFinite | stream.rb:135-146 | `add_streams(u, t)` with u infinite and t finite raises at once when t is empty. Otherwise it lists exactly as many elements as t: after them t hands over nil, and `+` raises on it. |
| Generators.IntegersSolutionInfinite | stream.rb:151 | No finite stream satisfies the equation of `integers`: its right-hand side lists one element more than the stream. |
| Generators.IntegersUnique | stream.rb:151 | Every stream satisfying that equation is infinite and has element k equal to k + 1. |
| Generators.Fibs | stream.rb:153 | `fibs` never ends. |
| Generators.AddShifted | stream.rb:153 | `add_streams(s.rest, s)` over an infinite s has element k equal to element k + 1 of s plus element k. |
| Generators.FibsFixedPoint | stream.rb:153 | `fibgen(0, 1)` satisfies `fibs = Stream.new(0) { Stream.new(1) { add_streams(fibs.rest, fibs) } }` (also number.rb:39 and streams.rb:37). |
| Generators.AddFiniteToLonger | stream.rb:135-146 | `add_streams(t, v)` with t finite and v infinite or longer is `Stream.new` when t is empty, and otherwise lists exactly as many elements as t. |
| Generators.FibsSolutionInfinite | stream.rb:153 | No finite stream satisfies the equation of `fibs`: its right-hand side lists one element more than the stream. |
| Generators.FibsUnique | stream.rb:153 | Every stream satisfying that equation is infinite and is `fibgen(0, 1)`, element by element. |
| Generators.FibsFirstTen | streams.rb:138 | For n <= 10, `fibs.take(n)` is the first n of [0, 1, 1, 2, 3, 5, 8, 13, 21, 34] and then stops. |
| Generators.IntegersTake | streams.rb:137 | `integers.take(n)` is 1, 2, ..., n. |
| Generators.IntegersTakeSum | stream.rb:183 | `integers.take(n).reduce(0, &:+)` returns, and twice its value is n * (n + 1). It is 55 for n == 10 (also number.rb:67). |
| Generators.AddStreamsDoubles | streams.rb:135-136 | `add_streams(integers.take(n), integers.take(n))` is 2, 4, ..., 2n (for n == 10 the listed [2, 4, ..., 20]). |
| Generators.AddIntervalToIntegers | stream.rb:135-143 | `add_streams(enumerate_interval(1, n), integers)` is 2, 4, ..., 2n and then `Stream.new`: an infinite later argument is cut short where the first argument ends. |
| PrimeStreams.IterPrimesUnfolds | stream.rb:156-165 | On an infinite stream, `iter` answers at the first element when that element decides, and otherwise recurses on the tail (also number.rb:41-52 and streams.rb:41-52). |
| PrimeStreams.IterPrimesFinds | stream.rb:155-166 | `iter_primes` answers with the verdict of the first element that decides, scanning in order. |
| PrimeStreams.IterPrimesExhausted | stream.rb:155-166 | With no deciding element, `iter_primes` raises on a finite stream (it reaches nil), unless its last tail hangs, and then it hangs. It hangs on an infinite stream. |
| PrimeStreams.PrimeAt | stream.rb:168-170 | Element k of `primes` is a prime of at least k + 2. |
| PrimeStreams.PrimesIncrease | stream.rb:168-170 | The elements of `primes` strictly increase. |
| PrimeStreams.PrimesCover | stream.rb:168-170 | Every prime is an element of `primes`. |
| PrimeStreams.IterPrimesOnPrime | stream.rb:155-166 | `iter_primes(primes, n)` is true for every prime n. |
| PrimeStreams.IterPrimesOnComposite | stream.rb:155-166 | `iter_primes(primes, n)` is false for every composite n >= 2. |
| PrimeStreams.IterPrimesOnPrimes | stream.rb:155-166 | `iter_primes(primes, n)` always returns, and it is true exactly when n < 2 or n is prime. |
| PrimeStreams.IterPrimesBelowFour | stream.rb:157 | For n < 4, `iter_primes(primes, n)` answers true at the first element 2. |
| PrimeStreams.SelectFromThree | stream.rb:169 | `integers_starting_from(3).select { ... iter_primes(primes, n) }` lists every prime from the second one on. |
| PrimeStreams.PrimesFixedPoint | stream.rb:168-170 | The stream of all primes satisfies the self-referential definition of `primes` (also number.rb:54-56 and streams.rb:39). |
| PrimeStreams.PrimesFirstTen | streams.rb:140 | For n <= 10, `@primes.take(n)` is the first n of [2, 3, 5, 7, 11, 13, 17, 19, 23, 29] and then stops. |
| PrimeStreams.IsPrimeAnswers | stream.rb:172-174 | `is_prime.call(n)` is true exactly when n < 2 or n is prime. |
| PrimeStreams.PrimeEnumerateIntervalLists | stream.rb:176-178 | `prime_enumerate_interval(low, high)` lists exactly the members of low..high that `is_prime` accepts, in increasing order, and stops (also number.rb:62-64 and streams.rb:54-56). |
| PrimeStreams.PrimeEnumerateIntervalFromTwo | stream.rb:176-178 | For low >= 2 it lists exactly the primes between low and high, in increasing order. |
| PrimeStreams.PrimeEnumerateTenToThirty | streams.rb:141 | `prime_enumerate_interval(10, 30)` is [11, 13, 17, 19, 23, 29]. |
| PrimeStreams.PrimeEnumerateListsOne | number.rb:72 | As written, `prime_enumerate_interval(1, high)` lists 1, which is not prime, before the primes up to high. |
| PrimeStreams.CheckedPrimeIsPrime | number.rb:58-60 | The corrected test, which rejects every n < 2, accepts exactly the primes. |
| PrimeStreams.CheckedPrimeEnumerateIntervalLists | number.rb:62-64 | With the corrected test, the interval's primes, and only they, are listed in increasing order for every lower bound. |
| Sieve.SieveElem | stream.rb:125-129 | Element k of `sieve(s)` is the first element of the k-th round. It exists exactly when rounds 0..k all yield a non-empty stream (also number.rb:25-29 and streams.rb:23-27). |
| Sieve.SieveFirst | stream.rb:126 | `sieve(s)` starts with the source's first element. |
| Sieve.SieveUnfolds | stream.rb:125-129 | The modelled stream satisfies `Stream.new(s.first) { sieve(s.rest.select { \|e\| e % s.first > 0 }) }`. |
| Sieve.NextAvoids | stream.rb:127 | The stream handed to the recursive `sieve` holds no multiple of the current first element. |
| Sieve.NextKeeps | stream.rb:127 | Every property of all the elements of a round holds for the next round. |
| Sieve.SieveNoLaterMultiple | stream.rb:125-129 | Every element of `sieve(s)` that has a later one is nonzero, and no later element is divisible by it. |
| Sieve.NextListsSurvivors | stream.rb:125-129 | If a stream lists, in increasing order, exactly the integers >= 2 that no prime among the first k divides, then the stream `sieve` recurses on lists exactly those that no prime among the first k + 1 divides, in increasing order. |
| Sieve.RoundsListSurvivors | stream.rb:125-133 | Round k of `prime_sieve` returns, and lists in increasing order exactly the integers >= 2 that no prime among the first k divides. |
| Sieve.PrimeSieveIsPrimes | stream.rb:131-133 | `prime_sieve` never ends, and element k is the k-th prime: it is the stream of all primes, in increasing order (also number.rb:31-33 and streams.rb:29-31). |
| LazyStreams.ToAElements | streams.rb:130-131 | `to_a` lists the elements in order when the stream ends in the empty stream. It raises or hangs as the tail does otherwise, and hangs on an infinite stream. |
| LazyStreams.LiteralStreams | streams.rb:130-131 | The nested literals give [1, 2] and [1, 2, 3]. With `Stream.new(3)` in place of `lazy_stream(3)`, `to_a` would raise. |
| LazyStreams.InterleaveUnfolds | streams.rb:90 | `interleave(s1, s2)` is `s1.first` in front of `interleave(s2, s1.rest)`. |
| LazyStreams.PairIndex | streams.rb:88-93 | Every index pair (i, j) that `pairs` produces has i <= j. |
| LazyStreams.PairsUnfolds | streams.rb:88-93 | The modelled stream satisfies the recursion of `pairs`: [s.first, t.first] in front of the interleaving of `t.rest.map { [s.first, x] }` with `pairs(s.rest, t.rest)`. |
| LazyStreams.PairsCoverAll | streams.rb:88-93 | Every index pair with i <= j appears in `pairs`, at a computed position. |
| LazyStreams.PairsListOnce | streams.rb:88-93 | Each position holds the pair whose computed position it is, so no pair appears twice. |
| LazyStreams.IntegerPairsOrdered | streams.rb:159 | Every element [i, j] of `pairs(integers, integers)` has 1 <= i <= j. |
| LazyStreams.IntegerPairsComplete | streams.rb:159 | Every [i, j] with 1 <= i <= j is an element of `pairs(integers, integers)`. |
| LazyStreams.IntegerPairsFirstFive | streams.rb:159-160 | For n <= 5, `pairs(integers, integers).take(n)` is the first n of [[1, 1], [1, 2], [2, 2], [1, 3], [2, 3]]. |
| LazyStreams.PrimeSumOften | streams.rb:161 | Infinitely many pairs have a prime sum, so the `select` over them never hangs. |
| LazyStreams.PrimeSumPairsFirstFive | streams.rb:161-162 | For n <= 5, `pairs(integers, integers).select { \|i, j\| prime?(i + j) }.take(n)` is the first n of [[1, 1], [1, 2], [2, 3], [1, 4], [1, 6]]. |
| LazyStreams.MakeTableauUnfolds | streams.rb:80-82 | The stream of repeated transforms satisfies `lazy_stream(s) { make_tableau(transform.call(s), &transform) }`. |
| LazyStreams.AcceleratedSequenceElem | streams.rb:84-86 | In `make_tableau(s, &t).map(&:first)`, the first of an empty row is nil, and a node whose first is nil is the empty stream, so the sequence stops at the first empty row. Element n, when there is one, is the first of t applied n times to s, and no row up to n is empty. An infinite sequence means no row is empty. A finite one ends in `Stream.new`, and the row at its length is empty. |
| LazyStreams.AcceleratedSequenceUnfolds | streams.rb:84-86 | The sequence satisfies the recursion that `make_tableau` and `map` give it: `Stream.new` when s is empty, and otherwise the first of s in front of the sequence for t applied to s. |
| LazyStreams.GcdDivides | streams.rb:107-109 | `gcd(a, b)` divides both a and b. |
| LazyStreams.GcdGreatest | streams.rb:107-109 | Every common divisor of a and b divides `gcd(a, b)`. |
| LazyStreams.MonteCarloCounts | streams.rb:115-123 | Element k of `monte_carlo(e, passed, failed)` has counted k + 1 more experiments than at the start. |
| LazyStreams.MonteCarloUnfolds | streams.rb:115-123 | A true first experiment adds one to passed and a false one adds one to failed. The stream then goes on from the new counts with the rest of the experiments. |
| Memo.Start | stream.rb:11-12 | A new closure has not run, holds no result and has invoked the block 0 times. |
| Memo.Step | stream.rb:13-21 | A call sets `already_run` exactly when it returns a value. Once set, the state never changes again. |
| Memo.CallsMemoised | stream.rb:13-21 | Every call answers the first result the block returned. Until the block has returned, each call invokes it afresh and answers what that invocation does. |
| Memo.RememberedCalls | stream.rb:14-15 | Once the result is remembered, every call returns it and the block is not invoked again. |
| Memo.RunsUntilReturned | stream.rb:13-21 | After n calls the block has run at most n times. `already_run` is set exactly when some invocation returned. The remembered result is that first return, and no earlier invocation returned. |
| Memo.RetriedAfterRaise | stream.rb:17-18 | A block that raises on its first invocation is invoked again by the next call, because `already_run` is set only after the block returns. |
| Memo.MemoProc.constructor | stream.rb:10-12 | `memo_proc` returns a lambda in the start state over the given block. |
| Memo.MemoProc.Call | stream.rb:13-21 | Calling the lambda keeps its fields consistent and performs exactly one `Memo.Step`. |
| Memo.StreamNode.constructor | stream.rb:25-28 | A node stores its first element and a fresh `memo_proc` over the block, or `lambda {}`, which returns nil on every call, when no block is given. |
| Memo.StreamNode.Rest | stream.rb:32-34 | `rest` calls the node's lambda once: one `Memo.Step` on its state. |

## Left out

- Floating-point streams are not modelled: `sqrt_improve`, `sqrt_stream`, `pi_summands`, `pi_stream`, `euler_transform`, `integral` and `solve` (streams.rb:58-78, 95-101). They are IEEE float arithmetic, checked only against exact float literals.
- `random_numbers`, `cesaro` and `monte_carlo_pi` (streams.rb:103-105, 111-113, 125-127) are not modelled. They depend on `rand`.
- `monte_carlo` (streams.rb:115-123) is modelled by its pass/fail counts. The element itself is the float ratio `passed.to_f / (passed + failed)`. Its experiments are an infinite stream of booleans; a nil experiment, which Ruby counts as a failure, is not modelled.
- The `lazy_stream` and `promise` libraries are not part of this model. `lazy_stream` is modelled with the semantics of the `Stream` class, with two differences: `lazy_stream(x)` without a block is a proper one-element stream, and `LazyStream.add` is `add_streams`. Their `partial_sums`, `scale` and `map_successive_pairs` serve only the float and random streams above.
- `interleave`, `pairs` and `monte_carlo` are modelled on infinite streams only, the only streams the code passes them.
- `display`, `puts` and the script sections are output only (stream.rb:50-52, 180-189; streams.rb:129-167; number.rb:66-73). The call at stream.rb:181 names a `prime_stream_enumerate_interval` that is never defined, so it raises NoMethodError.
- `Stream.add` (number.rb:37, 39, 68) is not defined by `stream.rb`. It is modelled as `add_streams`.
- The sums of `prime_enumerate_interval(10000, 40000)` (streams.rb:142, number.rb:73) and the 2000-element displays are not proved for those bounds. `PrimeStreams.PrimeEnumerateIntervalFromTwo` proves the general listing they rely on.
- The `RubyVM` compile options (stream.rb:3-6) are interpreter settings. Deep recursion that would raise SystemStackError is not modelled.
- Streams never hold nil elements in this model, and the code treats a node whose first is nil as the empty stream. In Ruby, `map` with a proc that returns nil therefore ends the stream at that node. `accelerated_sequence` is modelled with that cut: it stops at the first empty row. A general `map` or `stream_map` proc that returns nil is not modelled. No generator in the code produces nil.
- PrimeStreams.PrimesFixedPoint: proves that the stream of all primes satisfies the definition of `primes`, not that it is the only stream that does. Uniqueness needs a prime between p and p * p for every prime p (a weak form of Bertrand's postulate), which is not proved here. `Sieve.PrimeSieveIsPrimes` and `PrimeStreams.PrimesCover` pin the primes down independently.
- Object identity is not modelled. `drop`, `map` and `select` return `self` in some branches, and the value model cannot tell `self` from an equal stream. The value model also does not model memoisation: a tail is the same value however often it is forced. `Memo.StreamNode` models one node's memoised tail as an object, but a chain of nodes is not linked to the stream values.
- Memo.MemoProc.Call: a block that never returns is given as the outcome `Diverges` and counted as one invocation. In Ruby such a call does not return at all.
- StreamOps.Map, StreamOps.Reduce, StreamOps.Select, LazyStreams.MakeTableau and LazyStreams.AcceleratedSequence: their block or transform is a total function, so a block that raises or hangs, which Ruby's `map`, `reduce`, `select` (stream.rb:70-94) and `make_tableau` (streams.rb:81) would pass on, is not modelled. No block the code hands them raises or hangs on the streams it meets: `i % 7 > 0`, `reduce(0, &:+)` over integers and the appending block of `to_a` are total, `iter_primes` over `primes` always returns (`PrimeStreams.IterPrimesOnPrimes`), and the only transform, `euler_transform`, is float arithmetic. The one block that can raise, the sieve's `e % stream.first` on a zero first, is modelled separately by `Sieve.SieveNext`.
- MapStreams.Sum: on an empty argument list it gives 0 and on a lone nil it raises, where Ruby's `reduce` gives nil for both. `stream_map` never calls the block that way.
- LazyStreams.IntegerPairsOrdered follows directly from the contract of `LazyStreams.PairIndex`.

## Findings

| source | as written | input that shows it | evidently intended | confidence | as-written member | corrected member |
|---|---|---|---|---|---|---|
| number.rb:58-64 | `is_prime` is `iter_primes(primes, n)`, which answers true at the first prime 2 whenever 2 * 2 > n, so every n < 2 counts as prime | `prime_enumerate_interval.call(1, 200)` (number.rb:72) lists 1 before 2, 3, 5, ... | 1 is not prime, so the listing starts at 2 | not executed | PrimeStreams.PrimeEnumerateListsOne | PrimeStreams.CheckedPrimeEnumerateIntervalLists |
