/**
 * Naive doubly recursive Fibonacci, with the number of calls it makes
 * counted explicitly, next to an iterative version and the memoised
 * `fib_fast`.
 */
module Fibonacci {
  import opened Wrappers

  /** The Fibonacci recurrence: F(0) = 0, F(1) = 1, F(n) = F(n-1) + F(n-2). */
  function Fib(n: nat): nat {
    if n == 0 then 0 else if n == 1 then 1 else Fib(n - 1) + Fib(n - 2)
  }

  /**
   * `fibonacci(n)` for any Python int, run with at most `depth` nested
   * calls left: None when the recursion does not reach a base case within
   * that depth.
   */
  function Fibonacci(n: int, depth: nat): (r: Option<int>)
    ensures r.Some? ==> n >= 0 && r.value == Fib(n)
    decreases depth
  {
    if depth == 0 then None
    else if n == 0 then Some(0)
    else if n == 1 then Some(1)
    else
      match (Fibonacci(n - 1, depth - 1), Fibonacci(n - 2, depth - 1))
      case (Some(x), Some(y)) => Some(x + y)
      case _ => None
  }

  /** Given more depth than n, the recursion returns F(n). */
  lemma {:induction false} FibonacciTerminates(n: nat, depth: nat)
    requires depth > n
    ensures Fibonacci(n, depth) == Some(Fib(n))
  {
    if n >= 2 {
      FibonacciTerminates(n - 1, depth - 1);
      FibonacciTerminates(n - 2, depth - 1);
    }
  }

  /** A negative n never reaches a base case, however deep the stack. */
  lemma {:induction false} FibonacciNegativeDiverges(n: int, depth: nat)
    requires n < 0
    ensures Fibonacci(n, depth) == None
    decreases depth
  {
    if depth > 0 {
      FibonacciNegativeDiverges(n - 1, depth - 1);
    }
  }

  /** Number of calls `fibonacci(n)` makes, itself included. */
  function Calls(n: nat): nat {
    if n <= 1 then 1 else 1 + Calls(n - 1) + Calls(n - 2)
  }

  /**
   * `fibonacci(n)` instrumented with a call counter: the same recursion,
   * returning the value together with the number of calls it made. It
   * succeeds exactly when `Fibonacci` does, with the same value, and the
   * count is `Calls(n)`.
   */
  function FibonacciCounted(n: int, depth: nat): (r: Option<(int, nat)>)
    ensures r.Some? <==> Fibonacci(n, depth).Some?
    ensures r.Some? ==> n >= 0 && r.value == (Fibonacci(n, depth).value, Calls(n))
    decreases depth
  {
    if depth == 0 then None
    else if n == 0 || n == 1 then Some((n, 1))
    else
      match (FibonacciCounted(n - 1, depth - 1), FibonacciCounted(n - 2, depth - 1))
      case (Some((x, cx)), Some((y, cy))) => Some((x + y, 1 + cx + cy))
      case _ => None
  }

  /** The call count is 2·F(n+1) − 1. */
  lemma {:induction false} CallsFormula(n: nat)
    ensures Calls(n) == 2 * Fib(n + 1) - 1
  {
    if n >= 2 {
      CallsFormula(n - 1);
      CallsFormula(n - 2);
    }
  }

  /** With more depth than n, the instrumented recursion returns F(n) after 2·F(n+1) − 1 calls. */
  lemma CountedCalls(n: nat, depth: nat)
    requires depth > n
    ensures FibonacciCounted(n, depth) == Some((Fib(n), 2 * Fib(n + 1) - 1))
  {
    FibonacciTerminates(n, depth);
    CallsFormula(n);
  }

  /** F(6), F(11) and F(21), step by step. */
  lemma SmallFibs()
    ensures Fib(6) == 8 && Fib(11) == 89 && Fib(21) == 10946
  {
    assert Fib(2) == 1 && Fib(3) == 2 && Fib(4) == 3 && Fib(5) == 5 && Fib(6) == 8;
    assert Fib(7) == 13 && Fib(8) == 21 && Fib(9) == 34 && Fib(10) == 55 && Fib(11) == 89;
    assert Fib(12) == 144 && Fib(13) == 233 && Fib(14) == 377 && Fib(15) == 610 && Fib(16) == 987;
    assert Fib(17) == 1597 && Fib(18) == 2584 && Fib(19) == 4181 && Fib(20) == 6765;
  }

  /** The table of call counts: 15, 177 and 21,891 calls for n = 5, 10, 20. */
  lemma CallTable()
    ensures Calls(5) == 15 && Calls(10) == 177 && Calls(20) == 21891
  {
    SmallFibs();
    CallsFormula(5);
    CallsFormula(10);
    CallsFormula(20);
  }

  /** The count the docstring's "mathematical insight" claims: F(n+1) − 1. */
  function ClaimedCalls(n: nat): int {
    Fib(n + 1) - 1
  }

  /** The claim disagrees with the table: for n = 5 it gives 7, not 15. */
  lemma ClaimedCallsWrong()
    ensures ClaimedCalls(5) == 7 && Calls(5) == 15
  {
    CallTable();
  }

  /** The claim undercounts for every n >= 1: the true count is one less than twice as many. */
  lemma ClaimedCallsUndercount(n: nat)
    requires n >= 1
    ensures Calls(n) == 2 * ClaimedCalls(n) + 1
    ensures Calls(n) > ClaimedCalls(n)
  {
    CallsFormula(n);
    assert Fib(n + 1) >= 1 by {
      FibPositive(n + 1);
    }
  }

  lemma {:induction false} FibPositive(n: nat)
    requires n >= 1
    ensures Fib(n) >= 1
  {
    if n >= 3 {
      FibPositive(n - 1);
    }
  }

  /** How many times `fibonacci(k)` is evaluated while computing `fibonacci(n)`. */
  function CountOf(n: nat, k: nat): nat {
    (if n == k then 1 else 0) + (if n <= 1 then 0 else CountOf(n - 1, k) + CountOf(n - 2, k))
  }

  lemma {:induction false} CountOfAbove(n: nat, k: nat)
    requires k > n
    ensures CountOf(n, k) == 0
  {
    if n >= 2 {
      CountOfAbove(n - 1, k);
      CountOfAbove(n - 2, k);
    }
  }

  /** For 1 <= k <= n, `fibonacci(k)` is evaluated F(n−k+1) times. */
  lemma {:induction false} CountOfFormula(n: nat, k: nat)
    requires 1 <= k <= n
    ensures CountOf(n, k) == Fib(n - k + 1)
  {
    if n == k {
      if n >= 2 {
        CountOfAbove(n - 1, k);
        CountOfAbove(n - 2, k);
      }
    } else if k == n - 1 {
      CountOfFormula(n - 1, k);
      CountOfAbove(n - 2, k);
    } else {
      CountOfFormula(n - 1, k);
      CountOfFormula(n - 2, k);
    }
  }

  /** For n = 6: fib(1) 8 times, fib(2) 5, fib(3) 3, fib(4) 2, fib(5) once. */
  lemma CountsForSix()
    ensures CountOf(6, 1) == 8 && CountOf(6, 2) == 5 && CountOf(6, 3) == 3
    ensures CountOf(6, 4) == 2 && CountOf(6, 5) == 1
  {
    SmallFibs();
    CountOfFormula(6, 1);
    CountOfFormula(6, 2);
    CountOfFormula(6, 3);
    CountOfFormula(6, 4);
    CountOfFormula(6, 5);
  }

  /** The iterative version with two running variables. */
  method FibIterative(n: int) returns (b: int)
    ensures n <= 1 ==> b == n
    ensures n >= 0 ==> b == Fib(n)
  {
    if n <= 1 {
      return n;
    }
    var a := 0;
    b := 1;
    var i := 2;
    while i <= n
      invariant 2 <= i <= n + 1
      invariant a == Fib(i - 2) && b == Fib(i - 1)
    {
      a, b := b, a + b;
      i := i + 1;
    }
  }

  /** `fib_fast`: the same recursion behind a cache, so `n <= 1` returns n itself. */
  function FibFast(n: int): (r: int)
    decreases if n < 0 then 0 else n
    ensures n <= 1 ==> r == n
    ensures n >= 0 ==> r == Fib(n)
  {
    if n <= 1 then n else FibFast(n - 1) + FibFast(n - 2)
  }
}
