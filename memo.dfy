/** `memo_proc` and the node of the Stream class, as objects whose fields
    change when they are called.

    A Ruby block may return a value, raise or never return, and may do
    something different each time it is invoked; the model gives a block as
    the function from the number of earlier invocations to the outcome of
    the next one. The closure memo_proc builds keeps two captured variables,
    `already_run` and `result`; they are the fields of MemoProc, together
    with `runs`, the number of invocations of the block so far. */
module Memo {
  import opened StreamCore
  import opened Search

  /** The captured variables of a memo_proc closure, plus the invocation count. */
  datatype MemoState<R> = MemoState(alreadyRun: bool, result: Option<R>, runs: nat)

  /** `result` holds a value exactly when `already_run` is set. */
  predicate Consistent<R>(st: MemoState<R>) {
    st.alreadyRun <==> st.result.Some?
  }

  /** The state right after `memo_proc` returns its lambda. */
  function Start<R>(): (st: MemoState<R>)
    ensures Consistent(st) && st.runs == 0
  {
    MemoState(false, None, 0)
  }

  predicate Returned<R>(o: Outcome<R>) {
    o.Value?
  }

  /** One call of the memoised lambda: the remembered result once the block
      has returned, otherwise the next invocation of the block, remembered
      only if it returns (a raise leaves `already_run` false). */
  function Step<R>(block: nat -> Outcome<R>, st: MemoState<R>): (r: (Outcome<R>, MemoState<R>))
    requires Consistent(st)
    ensures Consistent(r.1)
    ensures r.1.alreadyRun <==> Returned(r.0)
    ensures st.alreadyRun ==> r.1 == st
  {
    if st.alreadyRun then (Value(st.result.value), st)
    else
      var o := block(st.runs);
      if o.Value? then (o, MemoState(true, Some(o.get), st.runs + 1))
      else (o, MemoState(false, None, st.runs + 1))
  }

  /** The outcomes of n calls in a row, starting in state st. */
  function Calls<R>(block: nat -> Outcome<R>, st: MemoState<R>, n: nat): (r: seq<Outcome<R>>)
    requires Consistent(st)
    ensures |r| == n
    decreases n
  {
    if n == 0 then []
    else
      var (o, next) := Step(block, st);
      [o] + Calls(block, next, n - 1)
  }

  /** The state after n calls in a row, starting in state st. */
  function After<R>(block: nat -> Outcome<R>, st: MemoState<R>, n: nat): (r: MemoState<R>)
    requires Consistent(st)
    ensures Consistent(r)
    decreases n
  {
    if n == 0 then st else After(block, Step(block, st).1, n - 1)
  }

  /** What the i-th call answers when the block's invocations are counted
      from r: the first invocation among r .. r + i that returned, if there
      is one, and otherwise invocation r + i itself. */
  ghost function Memoised<R>(block: nat -> Outcome<R>, r: nat, i: nat): Outcome<R> {
    if exists j: nat :: r <= j <= r + i && Returned(block(j)) then
      var w: nat :| r <= w <= r + i && Returned(block(w));
      block(ScanTo(block, Returned, r, w))
    else block(r + i)
  }

  /** The memoised answer is the first invocation that returned. */
  lemma MemoisedIs<R>(block: nat -> Outcome<R>, r: nat, i: nat, j: nat)
    requires r <= j <= r + i && Returned(block(j)) && NoneBetween(block, Returned, r, j)
    ensures Memoised(block, r, i) == block(j)
  {
    var w: nat :| r <= w <= r + i && Returned(block(w));
    var k := ScanTo(block, Returned, r, w);
    if k < j {
      assert false;
    }
  }

  lemma MemoisedReturned<R>(block: nat -> Outcome<R>, r: nat, i: nat)
    requires Returned(block(r))
    ensures Memoised(block, r, i) == block(r)
  {
    MemoisedIs(block, r, i, r);
  }

  lemma MemoisedRejected<R>(block: nat -> Outcome<R>, r: nat, i: nat, i1: nat)
    requires !Returned(block(r)) && i == i1 + 1
    ensures Memoised(block, r, i) == Memoised(block, r + 1, i1)
  {
    if exists j: nat :: r <= j <= r + i && Returned(block(j)) {
      var w: nat :| r <= w <= r + i && Returned(block(w));
      var j := ScanTo(block, Returned, r + 1, w);
      MemoisedIs(block, r, i, j);
      MemoisedIs(block, r + 1, i1, j);
    }
  }

  /** Every call answers the memoised outcome: calls before the block first
      returns invoke it afresh, and every call from then on gives back what
      it returned. */
  lemma {:induction false} CallsMemoised<R>(block: nat -> Outcome<R>, st: MemoState<R>, n: nat)
    requires Consistent(st) && !st.alreadyRun
    ensures forall i :: 0 <= i < n ==> Calls(block, st, n)[i] == Memoised(block, st.runs, i)
    decreases n
  {
    if n > 0 {
      var r := st.runs;
      var (o, next) := Step(block, st);
      var rest := Calls(block, next, n - 1);
      assert Calls(block, st, n) == [o] + rest;
      if Returned(o) {
        RememberedCalls(block, next, n - 1);
        forall i | 0 <= i < n ensures Calls(block, st, n)[i] == Memoised(block, r, i) {
          MemoisedReturned(block, r, i);
        }
      } else {
        CallsMemoised(block, next, n - 1);
        forall i | 0 <= i < n ensures Calls(block, st, n)[i] == Memoised(block, r, i) {
          if i > 0 {
            var i1: nat := i - 1;
            MemoisedRejected(block, r, i, i1);
          } else {
            assert !(exists j: nat :: r <= j <= r + 0 && Returned(block(j)));
          }
        }
      }
    }
  }

  /** Once the result is remembered every call returns it and the block is
      never invoked again. */
  lemma {:induction false} RememberedCalls<R>(block: nat -> Outcome<R>, st: MemoState<R>, n: nat)
    requires Consistent(st) && st.alreadyRun
    ensures forall i :: 0 <= i < n ==> Calls(block, st, n)[i] == Value(st.result.value)
    ensures After(block, st, n) == st
    decreases n
  {
    if n > 0 {
      RememberedCalls(block, st, n - 1);
    }
  }

  /** The block runs until it first returns and never after: from a fresh
      closure, n calls invoke it once per call up to and including the first
      one that returns. */
  lemma {:induction false} RunsUntilReturned<R>(block: nat -> Outcome<R>, st: MemoState<R>, n: nat)
    requires Consistent(st) && !st.alreadyRun
    ensures var r := After(block, st, n);
      r.runs <= st.runs + n &&
      (r.alreadyRun <==> exists j: nat :: st.runs <= j < st.runs + n && Returned(block(j))) &&
      (r.alreadyRun ==> r.runs > st.runs && Returned(block(r.runs - 1)) && r.result == Some(block(r.runs - 1).get) &&
                        NoneBetween(block, Returned, st.runs, r.runs - 1)) &&
      (!r.alreadyRun ==> r.runs == st.runs + n)
    decreases n
  {
    if n > 0 {
      var next := Step(block, st).1;
      if Returned(block(st.runs)) {
        RememberedCalls(block, next, n - 1);
      } else {
        RunsUntilReturned(block, next, n - 1);
        var r := After(block, st, n);
        if exists j: nat :: st.runs <= j < st.runs + n && Returned(block(j)) {
          var j: nat :| st.runs <= j < st.runs + n && Returned(block(j));
          assert next.runs <= j < next.runs + (n - 1);
        }
      }
    }
  }

  /** A raising block is run again by the next call (`already_run` is set
      only after the block returns). */
  lemma RetriedAfterRaise<R>(block: nat -> Outcome<R>)
    requires block(0) == Raises
    ensures Calls(block, Start(), 2) == [Raises, block(1)]
    ensures After(block, Start(), 2).runs == 2
  {
    var st1 := Step(block, Start()).1;
    assert st1 == MemoState(false, None, 1);
  }

  /** The lambda `memo_proc(&proc)` returns. */
  class MemoProc<R> {
    var alreadyRun: bool
    var result: Option<R>
    var runs: nat
    const block: nat -> Outcome<R>

    function State(): MemoState<R>
      reads this
    {
      MemoState(alreadyRun, result, runs)
    }

    predicate Valid()
      reads this
    {
      Consistent(State())
    }

    constructor (block: nat -> Outcome<R>)
      ensures Valid() && State() == Start() && this.block == block
    {
      alreadyRun := false;
      result := None;
      runs := 0;
      this.block := block;
    }

    /** `call` on the lambda. */
    method Call() returns (o: Outcome<R>)
      requires Valid()
      modifies this
      ensures Valid()
      ensures (o, State()) == Step(block, old(State()))
    {
      if alreadyRun {
        o := Value(result.value);
      } else {
        o := block(runs);
        runs := runs + 1;
        if o.Value? {
          result := Some(o.get);
          alreadyRun := true;
        }
      }
    }
  }

  /** A node of class Stream: `@first` and the lambda `@rest`. A node built
      without a block gets `lambda {}`, which returns nil on every call;
      here it is a MemoProc whose block always returns nil, which answers
      every call the same way. */
  class StreamNode<T> {
    const first: Option<T>
    const rest: MemoProc<StreamNode?<T>>

    /** `Stream.new(first) { ... }`, or `Stream.new(first)` when block is None. */
    constructor (first: Option<T>, block: Option<nat -> Outcome<StreamNode?<T>>>)
      ensures this.first == first && fresh(rest)
      ensures rest.Valid() && rest.State() == Start()
      ensures block.Some? ==> rest.block == block.value
      ensures block.None? ==> forall k: nat :: rest.block(k) == Value(null)
    {
      this.first := first;
      var b := if block.Some? then block.value else (k: nat) => Value(null);
      this.rest := new MemoProc(b);
    }

    /** `empty?`: the node has no first element. */
    predicate IsEmpty()
      reads this
    {
      first.None?
    }

    /** `rest`: calls the memoised lambda. */
    method Rest() returns (o: Outcome<StreamNode?<T>>)
      requires rest.Valid()
      modifies rest
      ensures rest.Valid()
      ensures (o, rest.State()) == Step(rest.block, old(rest.State()))
    {
      o := rest.Call();
    }
  }
}
