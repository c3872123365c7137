/** The middleware chain (`middleware/middleware_manager.cc`). */
module Middlewares {

  datatype Event = Enter(index: nat) | Exit(index: nat)

  type Trace = seq<Event>

  /** How often a middleware calls `next` when it is entered; it may look at all that has happened. */
  datatype Middleware = Middleware(calls: Trace -> nat)

  /** The trace after `execute(index)`. */
  function Executed(ms: seq<Middleware>, index: nat, t: Trace): Trace
    decreases |ms| - index, 0
  {
    if index < |ms| then
      Repeated(ms, index + 1, ms[index].calls(t), t + [Enter(index)]) + [Exit(index)]
    else t
  }

  /** The trace after `n` calls of `execute(index)`. */
  function Repeated(ms: seq<Middleware>, index: nat, n: nat, t: Trace): Trace
    decreases |ms| - index, n
  {
    if n == 0 then t else Executed(ms, index, Repeated(ms, index, n - 1, t))
  }

  class MiddlewareManager {
    var middlewares: seq<Middleware>
    /** The entries and exits so far. */
    var trace: Trace

    constructor ()
      ensures middlewares == [] && trace == []
    {
      middlewares, trace := [], [];
    }

    method Add(middleware: Middleware)
      modifies `middlewares
      ensures middlewares == old(middlewares) + [middleware]
    {
      middlewares := middlewares + [middleware];
    }

    method Execute(index: nat)
      modifies `trace
      ensures trace == Executed(middlewares, index, old(trace))
      decreases |middlewares| - index
    {
      if index < |middlewares| {
        var n := middlewares[index].calls(trace);
        trace := trace + [Enter(index)];
        var i := 0;
        while i < n
          invariant 0 <= i <= n
          invariant trace == Repeated(middlewares, index + 1, i, old(trace) + [Enter(index)])
        {
          Execute(index + 1);
          i := i + 1;
        }
        trace := trace + [Exit(index)];
      }
    }

    method Handle()
      modifies `trace
      ensures trace == Executed(middlewares, 0, old(trace))
    {
      Execute(0);
    }
  }

  /** Entries go one level down and exits one level up, each at the level it names. */
  predicate Nested(s: Trace, from: nat, end: nat) {
    if s == [] then from == end
    else
      match s[0]
      case Enter(k) => k == from && Nested(s[1..], from + 1, end)
      case Exit(k) => k + 1 == from && Nested(s[1..], k, end)
  }

  lemma {:induction false} NestedAppend(s: Trace, t: Trace, from: nat, mid: nat, end: nat)
    requires Nested(s, from, mid) && Nested(t, mid, end)
    ensures Nested(s + t, from, end)
  {
    if s == [] {
      assert s + t == t;
    } else {
      assert (s + t)[1..] == s[1..] + t;
      NestedAppend(s[1..], t, if s[0].Enter? then from + 1 else s[0].index, mid, end);
    }
  }

  /** Whatever the middlewares do, `execute(index)` adds a well-bracketed trace at its level. */
  lemma {:induction false} ExecutedIsNested(ms: seq<Middleware>, index: nat, t: Trace) returns (s: Trace)
    ensures Executed(ms, index, t) == t + s && Nested(s, index, index)
    decreases |ms| - index, 0
  {
    if index < |ms| {
      var n := ms[index].calls(t);
      var inner := RepeatedIsNested(ms, index + 1, n, t + [Enter(index)]);
      s := [Enter(index)] + inner + [Exit(index)];
      assert Nested([Exit(index)], index + 1, index) && Nested([Enter(index)], index, index + 1);
      NestedAppend([Enter(index)], inner, index, index + 1, index + 1);
      NestedAppend([Enter(index)] + inner, [Exit(index)], index, index + 1, index);
      assert Executed(ms, index, t) == t + s;
    } else {
      s := [];
    }
  }

  lemma {:induction false} RepeatedIsNested(ms: seq<Middleware>, index: nat, n: nat, t: Trace) returns (s: Trace)
    ensures Repeated(ms, index, n, t) == t + s && Nested(s, index, index)
    decreases |ms| - index, n
  {
    if n == 0 {
      s := [];
    } else {
      var first := RepeatedIsNested(ms, index, n - 1, t);
      var last := ExecutedIsNested(ms, index, Repeated(ms, index, n - 1, t));
      s := first + last;
      NestedAppend(first, last, index, index, index);
    }
  }

  function Entries(s: Trace, k: nat): nat {
    if s == [] then 0 else Entries(s[..|s| - 1], k) + if s[|s| - 1] == Enter(k) then 1 else 0
  }

  /** Middleware `i` calls `next` `counts[i]` times, whenever it is entered. */
  ghost predicate Fixed(ms: seq<Middleware>, counts: seq<nat>) {
    |counts| == |ms| && forall i, t :: 0 <= i < |ms| ==> ms[i].calls(t) == counts[i]
  }

  /** `counts[from] * ... * counts[end - 1]`. */
  function Product(counts: seq<nat>, from: nat, end: nat): nat
    requires from <= end <= |counts|
    decreases end - from
  {
    if from == end then 1 else counts[from] * Product(counts, from + 1, end)
  }

  /** How often `execute(index)` enters middleware `k`. */
  function EntriesOf(counts: seq<nat>, index: nat, k: nat): nat {
    if index <= k < |counts| then Product(counts, index, k) else 0
  }

  lemma EntriesSnoc(s: Trace, e: Event, k: nat)
    ensures Entries(s + [e], k) == Entries(s, k) + if e == Enter(k) then 1 else 0
  {
    assert (s + [e])[..|s|] == s;
  }

  lemma {:induction false} ExecutedEntries(ms: seq<Middleware>, counts: seq<nat>, index: nat, t: Trace, k: nat)
    requires Fixed(ms, counts)
    ensures Entries(Executed(ms, index, t), k) == Entries(t, k) + EntriesOf(counts, index, k)
    decreases |ms| - index, 0
  {
    if index < |ms| {
      var n := ms[index].calls(t);
      var inner := Repeated(ms, index + 1, n, t + [Enter(index)]);
      RepeatedEntries(ms, counts, index + 1, n, t + [Enter(index)], k);
      EntriesSnoc(t, Enter(index), k);
      EntriesSnoc(inner, Exit(index), k);
    }
  }

  lemma {:induction false} RepeatedEntries(ms: seq<Middleware>, counts: seq<nat>, index: nat, n: nat, t: Trace, k: nat)
    requires Fixed(ms, counts)
    ensures Entries(Repeated(ms, index, n, t), k) == Entries(t, k) + n * EntriesOf(counts, index, k)
    decreases |ms| - index, n
  {
    if n > 0 {
      RepeatedEntries(ms, counts, index, n - 1, t, k);
      ExecutedEntries(ms, counts, index, Repeated(ms, index, n - 1, t), k);
      assert n * EntriesOf(counts, index, k) == (n - 1) * EntriesOf(counts, index, k) + EntriesOf(counts, index, k);
    }
  }

  /** The chain law: one `Handle` enters middleware `k` as often as the product of the counts before it. */
  lemma HandleEntries(ms: seq<Middleware>, counts: seq<nat>, k: nat)
    requires Fixed(ms, counts) && k < |ms|
    ensures Entries(Executed(ms, 0, []), k) == Product(counts, 0, k)
  {
    ExecutedEntries(ms, counts, 0, [], k);
  }

  function Down(from: nat, end: nat): Trace
    decreases end - from
  {
    if from >= end then [] else [Enter(from)] + Down(from + 1, end)
  }

  /** `Enter(from)` to `Enter(end - 1)`, then the exits in reverse. */
  function ThereAndBack(from: nat, end: nat): Trace
    decreases end - from
  {
    if from >= end then [] else [Enter(from)] + ThereAndBack(from + 1, end) + [Exit(from)]
  }

  lemma CalledOnce(ms: seq<Middleware>, index: nat, t: Trace)
    requires index < |ms| && ms[index].calls(t) == 1
    ensures Executed(ms, index, t) == Executed(ms, index + 1, t + [Enter(index)]) + [Exit(index)]
  {
    var u := t + [Enter(index)];
    assert Repeated(ms, index + 1, 0, u) == u;
    assert Repeated(ms, index + 1, 1, u) == Executed(ms, index + 1, Repeated(ms, index + 1, 0, u));
  }

  lemma NotCalled(ms: seq<Middleware>, index: nat, t: Trace)
    requires index < |ms| && ms[index].calls(t) == 0
    ensures Executed(ms, index, t) == t + ThereAndBack(index, index + 1) && t + Down(index, index) == t
  {
  }

  lemma OneFurther(index: nat, stop: nat, t: Trace)
    requires index < stop
    ensures t + [Enter(index)] + ThereAndBack(index + 1, stop) + [Exit(index)] == t + ThereAndBack(index, stop)
    ensures index + 1 < stop ==> t + [Enter(index)] + Down(index + 1, stop - 1) == t + Down(index, stop - 1)
  {
  }

  /**
   * When no middleware calls `next` twice, the entries are a prefix of the chain in order and the
   * exits are their reverse; the chain stops early only behind a middleware that did not call `next`.
   */
  lemma {:induction false} AtMostOnce(ms: seq<Middleware>, index: nat, t: Trace) returns (stop: nat)
    requires index <= |ms| && forall i, u :: 0 <= i < |ms| ==> ms[i].calls(u) <= 1
    ensures index <= stop <= |ms|
    ensures Executed(ms, index, t) == t + ThereAndBack(index, stop)
    ensures stop < |ms| ==> index < stop && ms[stop - 1].calls(t + Down(index, stop - 1)) == 0
    decreases |ms| - index
  {
    hide Repeated;
    if index == |ms| {
      stop := index;
    } else if ms[index].calls(t) == 0 {
      stop := index + 1;
      NotCalled(ms, index, t);
    } else {
      stop := AtMostOnce(ms, index + 1, t + [Enter(index)]);
      CalledOnce(ms, index, t);
      OneFurther(index, stop, t);
    }
  }
}
