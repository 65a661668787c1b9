/**
 * A for loop written as recursion over one global counter. Each call
 * initialises the counter to `start` when it is 0, stops and resets it to
 * 0 once it reaches `end`, and otherwise runs the action on it, adds
 * `step` and recurses. The action is either recording the index it gets
 * or recording it and then running a nested loop on the same counter.
 * The Python call stack is bounded: `depth` is the number of frames still
 * available, and running out is a RecursionError.
 */
module CursiveFor {
  import opened Wrappers

  datatype Action =
    /** Records (tag, index). */
    | Record(tag: string)
    /** Records (tag, index), then runs cursive_for(start, end, step, inner). */
    | RecordThenLoop(tag: string, start: int, end: int, step: int, inner: Action)

  /** The global counter and everything the actions recorded so far. */
  datatype LoopState = LoopState(index: int, trace: seq<(string, int)>)

  datatype Run = Run(state: LoopState, result: Result<()>)

  const StackExhausted := Error(RecursionError, "maximum recursion depth exceeded")

  /** One call of cursive_for(start, end, step, action) from state st. */
  function Loop(st: LoopState, start: int, end: int, step: int, action: Action, depth: nat): Run
    decreases depth, 0
  {
    if depth == 0 then Run(st, Failure(StackExhausted))
    else
      var i := if st.index == 0 then start else st.index;
      if i >= end then Run(LoopState(0, st.trace), Success(()))
      else
        var acted := Act(LoopState(i, st.trace), action, i, depth - 1);
        if acted.result.Failure? then acted
        else Loop(LoopState(acted.state.index + step, acted.state.trace), start, end, step, action, depth - 1)
  }

  /** action(i) from state st. */
  function Act(st: LoopState, action: Action, i: int, depth: nat): Run
    decreases depth, 1
  {
    match action
    case Record(tag) => Run(LoopState(st.index, st.trace + [(tag, i)]), Success(()))
    case RecordThenLoop(tag, start, end, step, inner) =>
      Loop(LoopState(st.index, st.trace + [(tag, i)]), start, end, step, inner, depth)
  }

  class CursiveForLoop {
    /** The module-level `current_index`. */
    var currentIndex: int
    /** What the actions did, in order. */
    var trace: seq<(string, int)>

    constructor ()
      ensures currentIndex == 0 && trace == []
    {
      currentIndex := 0;
      trace := [];
    }

    method CursiveFor(start: int, end: int, step: int, action: Action, depth: nat) returns (r: Result<()>)
      modifies this
      ensures Run(LoopState(currentIndex, trace), r) == Loop(old(LoopState(currentIndex, trace)), start, end, step, action, depth)
      decreases depth, 0
    {
      if depth == 0 {
        return Failure(StackExhausted);
      }
      if currentIndex == 0 {
        currentIndex := start;
      }
      if currentIndex >= end {
        currentIndex := 0;
        return Success(());
      }
      r := RunAction(action, currentIndex, depth - 1);
      if r.Failure? {
        return;
      }
      currentIndex := currentIndex + step;
      r := CursiveFor(start, end, step, action, depth - 1);
    }

    method RunAction(action: Action, i: int, depth: nat) returns (r: Result<()>)
      modifies this
      ensures Run(LoopState(currentIndex, trace), r) == Act(old(LoopState(currentIndex, trace)), action, i, depth)
      decreases depth, 1
    {
      match action
      case Record(tag) =>
        trace := trace + [(tag, i)];
        r := Success(());
      case RecordThenLoop(tag, start, end, step, inner) =>
        trace := trace + [(tag, i)];
        r := CursiveFor(start, end, step, inner, depth);
    }
  }

  // ---------------------------------------------------------------------
  // What a plain loop does
  // ---------------------------------------------------------------------

  /** The indices i, i + step, ... below end, each tagged. */
  function Visits(tag: string, i: int, end: int, step: int): (v: seq<(string, int)>)
    requires step > 0
    ensures forall k :: 0 <= k < |v| ==> v[k] == (tag, i + k * step) && v[k].1 < end
    decreases end - i
  {
    if i >= end then []
    else
      var rest := Visits(tag, i + step, end, step);
      assert forall k :: 1 <= k < |rest| + 1 ==> (i + step) + (k - 1) * step == i + k * step;
      [(tag, i)] + rest
  }

  /** Iterations that a range(i, end, step) loop has. */
  function Count(i: int, end: int, step: int): nat
    requires step > 0
    decreases end - i
  {
    if i >= end then 0 else 1 + Count(i + step, end, step)
  }

  /**
   * From a positive counter and with step > 0, the loop records exactly the
   * range from the counter (start is not used) and resets the counter, if
   * the stack has more frames than there are iterations; otherwise it
   * raises RecursionError.
   */
  lemma {:induction false} FromPositiveIndex(i: int, t: seq<(string, int)>, start: int, end: int, step: int, tag: string, depth: nat)
    requires i > 0 && step > 0
    ensures depth > Count(i, end, step) ==>
      Loop(LoopState(i, t), start, end, step, Record(tag), depth) == Run(LoopState(0, t + Visits(tag, i, end, step)), Success(()))
    ensures depth <= Count(i, end, step) ==>
      Loop(LoopState(i, t), start, end, step, Record(tag), depth).result == Failure(StackExhausted)
    decreases depth
  {
    if depth > 0 && i < end {
      FromPositiveIndex(i + step, t + [(tag, i)], start, end, step, tag, depth - 1);
      assert t + [(tag, i)] + Visits(tag, i + step, end, step) == t + Visits(tag, i, end, step);
    }
  }

  /** Starting from a zero counter with start >= 0 and step > 0: action runs on range(start, end, step). */
  lemma PlainLoop(t: seq<(string, int)>, start: int, end: int, step: int, tag: string, depth: nat)
    requires start >= 0 && step > 0 && depth > Count(start, end, step)
    ensures Loop(LoopState(0, t), start, end, step, Record(tag), depth) == Run(LoopState(0, t + Visits(tag, start, end, step)), Success(()))
  {
    if start > 0 {
      FromPositiveIndex(start, t, start, end, step, tag, depth);
    } else if start < end {
      FromPositiveIndex(step, t + [(tag, 0)], start, end, step, tag, depth - 1);
      assert t + [(tag, 0)] + Visits(tag, step, end, step) == t + Visits(tag, 0, end, step);
    }
  }

  /** An empty range never calls the action and leaves the counter at 0. */
  lemma EmptyRange(t: seq<(string, int)>, start: int, end: int, step: int, action: Action, depth: nat)
    requires start >= end && depth > 0
    ensures Loop(LoopState(0, t), start, end, step, action, depth) == Run(LoopState(0, t), Success(()))
  {
  }

  /** The demo loop over range(0, 5): 0, 1, 2, 3, 4, given six frames. */
  lemma FiveValues()
    ensures Loop(LoopState(0, []), 0, 5, 1, Record("Value"), 6).state.trace
      == [("Value", 0), ("Value", 1), ("Value", 2), ("Value", 3), ("Value", 4)]
  {
    PlainLoop([], 0, 5, 1, "Value", 6);
    var v := Visits("Value", 0, 5, 1);
    assert |v| == 5 by {
      assert v[4] == ("Value", 4);
      assert Count(0, 5, 1) == 5;
      CountIsVisits("Value", 0, 5, 1);
    }
  }

  lemma {:induction false} CountIsVisits(tag: string, i: int, end: int, step: int)
    requires step > 0
    ensures |Visits(tag, i, end, step)| == Count(i, end, step)
    decreases end - i
  {
    if i < end {
      CountIsVisits(tag, i + step, end, step);
    }
  }

  /** A range with too many iterations for the stack raises RecursionError, as 2000 does. */
  lemma TooDeep(depth: nat)
    requires depth <= 2000
    ensures Loop(LoopState(0, []), 0, 2000, 1, Record("x"), depth).result == Failure(StackExhausted)
  {
    if depth > 0 {
      CountFromOne(2000);
      assert [] + [("x", 0)] == [("x", 0)];
      assert Loop(LoopState(0, []), 0, 2000, 1, Record("x"), depth)
        == Loop(LoopState(1, [("x", 0)]), 0, 2000, 1, Record("x"), depth - 1);
      FromPositiveIndex(1, [("x", 0)], 0, 2000, 1, "x", depth - 1);
    }
  }

  lemma {:induction false} CountFromOne(end: int)
    requires end >= 1
    ensures Count(1, end, 1) == end - 1
    decreases end
  {
    if end > 1 {
      CountShift(1, end - 1, 1);
      CountFromOne(end - 1);
    }
  }

  lemma {:induction false} CountShift(i: int, end: int, step: int)
    requires step > 0
    ensures Count(i + step, end + step, step) == Count(i, end, step)
    decreases end - i
  {
    if i < end {
      CountShift(i + step, end, step);
    }
  }

  // ---------------------------------------------------------------------
  // Loops that never finish
  // ---------------------------------------------------------------------

  /** With step <= 0 the counter never reaches end, so every stack is exhausted. */
  lemma {:induction false} NonPositiveStepDiverges(i: int, t: seq<(string, int)>, start: int, end: int, step: int, tag: string, depth: nat)
    requires step <= 0 && start < end && i < end
    ensures Loop(LoopState(i, t), start, end, step, Record(tag), depth).result == Failure(StackExhausted)
    decreases depth
  {
    if depth > 0 {
      var j := if i == 0 then start else i;
      NonPositiveStepDiverges(j + step, t + [(tag, j)], start, end, step, tag, depth - 1);
    }
  }

  /**
   * A negative start that passes through 0 re-initialises the counter: with
   * step > 0 and start == -(c * step), the counter runs start, start + step,
   * ..., 0 and is then set back to start, so every stack is exhausted. The
   * counter is start + m * step for some m <= c.
   */
  lemma {:induction false} NegativeStartCycles(i: int, t: seq<(string, int)>, start: int, end: int, step: int, c: nat, m: nat, tag: string, depth: nat)
    requires step > 0 && c >= 1 && start == -(c * step) && end > 0
    requires m <= c && i == start + m * step
    ensures Loop(LoopState(i, t), start, end, step, Record(tag), depth).result == Failure(StackExhausted)
    decreases depth
  {
    if depth > 0 {
      assert m * step <= c * step by { MulMono(m, c, step); }
      var j := if i == 0 then start else i;
      var m' := if i == 0 then 0 else m;
      assert m' < c;
      assert j + step == start + (m' + 1) * step;
      NegativeStartCycles(j + step, t + [(tag, j)], start, end, step, c, m' + 1, tag, depth - 1);
    }
  }

  lemma MulMono(a: nat, b: nat, k: int)
    requires a <= b && k > 0
    ensures a * k <= b * k
  {
  }

  /** range(-2, 3): the counter cycles -2, -1, 0 forever, from a start of -2, -1 or 0. */
  lemma NegativeStartCyclesExample(i: int, t: seq<(string, int)>, tag: string, depth: nat)
    requires -2 <= i <= 0
    ensures Loop(LoopState(i, t), -2, 3, 1, Record(tag), depth).result == Failure(StackExhausted)
  {
    NegativeStartCycles(i, t, -2, 3, 1, 2, i + 2, tag, depth);
  }

  /** The nested demo: outer range(0, 3) whose action runs an inner range(0, 2). */
  const Nested := RecordThenLoop("outer", 0, 2, 1, Record("inner"))

  /**
   * The inner loop entered with the counter at 1 records only index 1 and
   * resets the counter, or runs out of stack.
   */
  lemma InnerFromOne(t: seq<(string, int)>, depth: nat)
    ensures var r := Loop(LoopState(1, t), 0, 2, 1, Record("inner"), depth);
      r.result.Failure? || r == Run(LoopState(0, t + [("inner", 1)]), Success(()))
  {
    FromPositiveIndex(1, t, 0, 2, 1, "inner", depth);
    assert Count(2, 2, 1) == 0;
    assert Visits("inner", 1, 2, 1) == [("inner", 1)];
  }

  /**
   * Once the outer counter is 1, every outer step runs the inner loop, which
   * resets the counter to 0, and the outer `+= step` puts it back to 1.
   */
  lemma {:induction false} OuterStuckAtOne(t: seq<(string, int)>, depth: nat)
    ensures Loop(LoopState(1, t), 0, 3, 1, Nested, depth).result.Failure?
    decreases depth
  {
    if depth > 0 {
      var t' := t + [("outer", 1)];
      InnerFromOne(t', depth - 1);
      var acted := Act(LoopState(1, t), Nested, 1, depth - 1);
      assert acted == Loop(LoopState(1, t'), 0, 2, 1, Record("inner"), depth - 1);
      if acted.result.Success? {
        OuterStuckAtOne(t' + [("inner", 1)], depth - 1);
      }
    }
  }

  /** The nested demo never finishes, however deep the stack. */
  lemma NestedNeverFinishes(depth: nat)
    ensures Loop(LoopState(0, []), 0, 3, 1, Nested, depth).result.Failure?
  {
    if depth > 0 {
      var inner := Loop(LoopState(0, [("outer", 0)]), 0, 2, 1, Record("inner"), depth - 1);
      assert [] + [("outer", 0)] == [("outer", 0)];
      assert Act(LoopState(0, []), Nested, 0, depth - 1) == inner;
      PlainLoopOrFail([("outer", 0)], depth - 1);
      if inner.result.Success? {
        assert Loop(LoopState(0, []), 0, 3, 1, Nested, depth)
          == Loop(LoopState(1, inner.state.trace), 0, 3, 1, Nested, depth - 1);
        OuterStuckAtOne(inner.state.trace, depth - 1);
      }
    }
  }

  /** The first inner loop, started with the counter at 0, records 0 and 1, or runs out of stack. */
  lemma PlainLoopOrFail(t: seq<(string, int)>, depth: nat)
    ensures var r := Loop(LoopState(0, t), 0, 2, 1, Record("inner"), depth);
      r.result.Failure? || r.state.index == 0
  {
    if depth > 0 {
      FromPositiveIndex(1, t + [("inner", 0)], 0, 2, 1, "inner", depth - 1);
    }
  }
}
