/**
 * Two queues built from two Python lists used as stacks (append / pop at
 * the right end). The "fighting" queue moves every element across on each
 * operation; the correct one refills the output stack only when it is empty.
 */
module TwoStackQueues {
  import opened Wrappers
  import opened PyStr

  const DequeueEmpty := Error(IndexError, "dequeue from empty queue")
  const PeekEmpty := Error(IndexError, "peek from empty queue")

  /** The reversed-transfer step: pop the top of `a`, push it onto `b`. */
  lemma MoveTop(a: seq<int>, b: seq<int>)
    requires a != []
    ensures a[..|a| - 1] + Reverse(b + [a[|a| - 1]]) == a + Reverse(b)
  {
    ReverseSnoc(b, a[|a| - 1]);
    assert a[..|a| - 1] + [a[|a| - 1]] == a;
  }

  /** The same step seen from the other side: the top x of `rest + [x]` joins `a`. */
  lemma MoveBack(a: seq<int>, rest: seq<int>, x: int)
    ensures a + [x] + Reverse(rest) == a + Reverse(rest + [x])
  {
    ReverseSnoc(rest, x);
    assert a + [x] + Reverse(rest) == a + ([x] + Reverse(rest));
  }

  class QueueUsingTwoFightingStacks {
    var stackA: seq<int>
    var stackB: seq<int>

    /** Every operation ends with stack B drained. */
    predicate Valid()
      reads this
    {
      stackB == []
    }

    constructor ()
      ensures Valid() && stackA == []
    {
      stackA := [];
      stackB := [];
    }

    /** Pour all of A onto B: afterwards B is A reversed. */
    method PourAToB()
      modifies this
      requires stackB == []
      ensures stackA == [] && Reverse(stackB) == old(stackA)
    {
      while stackA != []
        invariant stackA + Reverse(stackB) == old(stackA)
      {
        MoveTop(stackA, stackB);
        stackB := stackB + [stackA[|stackA| - 1]];
        stackA := stackA[..|stackA| - 1];
      }
    }

    /** Pour all of B back onto A. */
    method PourBToA()
      modifies this
      ensures stackB == [] && stackA == old(stackA) + Reverse(old(stackB))
    {
      while stackB != []
        invariant stackA + Reverse(stackB) == old(stackA) + Reverse(old(stackB))
      {
        assert stackB == stackB[..|stackB| - 1] + [stackB[|stackB| - 1]];
        MoveBack(stackA, stackB[..|stackB| - 1], stackB[|stackB| - 1]);
        stackA := stackA + [stackB[|stackB| - 1]];
        stackB := stackB[..|stackB| - 1];
      }
    }

    /** The reverse/push/reverse sequence puts the new value at index 0 of A. */
    method Enqueue(value: int)
      requires Valid()
      modifies this
      ensures Valid() && stackA == [value] + old(stackA)
    {
      PourAToB();
      stackA := stackA + [value];
      PourBToA();
    }

    /**
     * Returns A[0], which is the value enqueued last: the queue is LIFO.
     * An empty queue raises IndexError and nothing changes.
     */
    method Dequeue() returns (r: Result<int>)
      requires Valid()
      modifies this
      ensures Valid()
      ensures old(stackA) == [] ==> r == Failure(DequeueEmpty) && stackA == old(stackA)
      ensures old(stackA) != [] ==> r == Success(old(stackA)[0]) && stackA == old(stackA)[1..]
    {
      if stackA == [] {
        return Failure(DequeueEmpty);
      }
      ghost var a0 := stackA;
      PourAToB();
      ghost var full := stackB;
      var value := stackB[|stackB| - 1];
      stackB := stackB[..|stackB| - 1];
      assert full == stackB + [value];
      ReverseSnoc(stackB, value);
      assert a0 == [value] + Reverse(stackB);
      PourBToA();
      assert stackA == a0[1..];
      r := Success(value);
    }

    /** The value Dequeue would return; both stacks end as they started. */
    method Peek() returns (r: Result<int>)
      requires Valid()
      modifies this
      ensures Valid() && stackA == old(stackA)
      ensures old(stackA) == [] ==> r == Failure(PeekEmpty)
      ensures old(stackA) != [] ==> r == Success(old(stackA)[0])
    {
      if stackA == [] {
        return Failure(PeekEmpty);
      }
      ghost var a0 := stackA;
      PourAToB();
      ReverseAt(stackB, 0);
      var value := stackB[|stackB| - 1];
      PourBToA();
      assert stackA == a0;
      r := Success(value);
    }

    function IsEmpty(): (b: bool)
      reads this
      ensures b <==> Size() == 0
    {
      stackA == []
    }

    function Size(): (n: nat)
      reads this
      ensures n == |stackA|
    {
      |stackA|
    }
  }

  /** Enqueueing 1, 2, 3 and dequeuing once yields 3, the newest value. */
  method FightingDemo() returns (first: Result<int>, rest: seq<int>)
    ensures first == Success(3) && rest == [2, 1]
  {
    var q := new QueueUsingTwoFightingStacks();
    q.Enqueue(1);
    q.Enqueue(2);
    q.Enqueue(3);
    first := q.Dequeue();
    rest := q.stackA;
  }

  class QueueUsingTwoStacksCorrect {
    var stackIn: seq<int>
    var stackOut: seq<int>
    /** Values ever enqueued, and single moves from stackIn to stackOut. */
    ghost var enqueued: nat
    ghost var transferred: nat

    /** Every value still in stackIn has never been moved. */
    ghost predicate Valid()
      reads this
    {
      transferred + |stackIn| == enqueued
    }

    /** The queue front first: stackOut's top, down its stack, then stackIn bottom to top. */
    function Contents(): seq<int>
      reads this
    {
      Reverse(stackOut) + stackIn
    }

    constructor ()
      ensures Valid() && Contents() == [] && enqueued == 0 && transferred == 0
    {
      stackIn := [];
      stackOut := [];
      enqueued := 0;
      transferred := 0;
    }

    method Enqueue(value: int)
      requires Valid()
      modifies this
      ensures Valid() && Contents() == old(Contents()) + [value]
      ensures enqueued == old(enqueued) + 1 && transferred == old(transferred)
    {
      stackIn := stackIn + [value];
      enqueued := enqueued + 1;
    }

    /** Moves stackIn onto stackOut, but only when stackOut is empty. */
    method Refill()
      requires Valid()
      modifies this
      ensures Valid() && Contents() == old(Contents()) && enqueued == old(enqueued)
      ensures old(stackOut) != [] ==> stackOut == old(stackOut) && stackIn == old(stackIn)
      ensures old(stackOut) == [] ==> stackIn == []
      ensures transferred <= enqueued
    {
      if stackOut == [] {
        while stackIn != []
          invariant Valid() && enqueued == old(enqueued)
          invariant stackIn + Reverse(stackOut) == old(stackIn)
        {
          MoveTop(stackIn, stackOut);
          stackOut := stackOut + [stackIn[|stackIn| - 1]];
          stackIn := stackIn[..|stackIn| - 1];
          transferred := transferred + 1;
        }
      }
    }

    /** Values leave in the order they were enqueued (FIFO). */
    method Dequeue() returns (r: Result<int>)
      requires Valid()
      modifies this
      ensures Valid() && enqueued == old(enqueued)
      ensures old(Contents()) == [] ==> r == Failure(DequeueEmpty) && Contents() == []
      ensures old(Contents()) != [] ==> r == Success(old(Contents())[0]) && Contents() == old(Contents())[1..]
    {
      Refill();
      if stackOut == [] {
        return Failure(DequeueEmpty);
      }
      var value := stackOut[|stackOut| - 1];
      ghost var full := stackOut;
      stackOut := stackOut[..|stackOut| - 1];
      assert full == stackOut + [value];
      ReverseSnoc(stackOut, value);
      assert old(Contents()) == [value] + Contents();
      r := Success(value);
    }

    /** The value the next Dequeue returns; the abstract queue is unchanged. */
    method Peek() returns (r: Result<int>)
      requires Valid()
      modifies this
      ensures Valid() && Contents() == old(Contents()) && enqueued == old(enqueued)
      ensures old(Contents()) == [] ==> r == Failure(PeekEmpty)
      ensures old(Contents()) != [] ==> r == Success(old(Contents())[0])
    {
      Refill();
      if stackOut == [] {
        return Failure(PeekEmpty);
      }
      ReverseIsIndexwise(stackOut);
      r := Success(stackOut[|stackOut| - 1]);
    }
  }

  /** Enqueueing 1, 2, 3 and dequeuing three times yields 1, 2, 3. */
  method CorrectDemo() returns (out: seq<Result<int>>)
    ensures out == [Success(1), Success(2), Success(3)]
  {
    var q := new QueueUsingTwoStacksCorrect();
    q.Enqueue(1);
    q.Enqueue(2);
    q.Enqueue(3);
    var a := q.Dequeue();
    var b := q.Dequeue();
    var c := q.Dequeue();
    out := [a, b, c];
  }
}
