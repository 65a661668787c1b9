/**
 * A "stack implemented with a queue" that simply uses a deque from its
 * right end: push appends on the right, pop and peek use the right end.
 */
module DequeStack {
  import opened Wrappers

  const PopEmpty := Error(IndexError, "pop from empty stack")
  const PeekEmpty := Error(IndexError, "peek from empty stack")

  class StackUsingQueueWrongEnd {
    /** The deque, left end first. */
    var queue: seq<int>

    constructor ()
      ensures queue == []
    {
      queue := [];
    }

    /** `deque.append(value)`: the value goes to the right end. */
    method Push(value: int)
      modifies this
      ensures queue == old(queue) + [value]
    {
      queue := queue + [value];
    }

    /** `deque.pop()`: removes and returns the right end, the last value pushed. */
    method Pop() returns (r: Result<int>)
      modifies this
      ensures old(queue) == [] ==> r == Failure(PopEmpty) && queue == old(queue)
      ensures old(queue) != [] ==>
        r == Success(old(queue)[|old(queue)| - 1]) && queue == old(queue)[..|old(queue)| - 1]
    {
      if queue == [] {
        return Failure(PopEmpty);
      }
      r := Success(queue[|queue| - 1]);
      queue := queue[..|queue| - 1];
    }

    /** `deque[-1]`: the value pop would return, with nothing removed. */
    method Peek() returns (r: Result<int>)
      ensures queue == [] ==> r == Failure(PeekEmpty)
      ensures queue != [] ==> r == Success(queue[|queue| - 1])
    {
      if queue == [] {
        return Failure(PeekEmpty);
      }
      r := Success(queue[|queue| - 1]);
    }

    function IsEmpty(): (b: bool)
      reads this
      ensures b <==> |queue| == 0
    {
      queue == []
    }
  }

  /** Pushing 1, 2, 3 and popping three times yields 3, 2, 1, then the stack is empty. */
  method PushPopDemo() returns (popped: seq<Result<int>>, emptyAfter: bool)
    ensures popped == [Success(3), Success(2), Success(1)]
    ensures emptyAfter
  {
    var stack := new StackUsingQueueWrongEnd();
    stack.Push(1);
    stack.Push(2);
    stack.Push(3);
    var a := stack.Pop();
    var b := stack.Pop();
    var c := stack.Pop();
    popped := [a, b, c];
    emptyAfter := stack.IsEmpty();
  }
}
