/**
 * FizzBuzz written as one nested conditional expression per number. The
 * printed lines are collected into a sequence instead of written out.
 */
module FizzBuzz {
  import opened PyStr

  /** 15 divides i exactly when both 3 and 5 do. */
  lemma Divisible15(i: int)
    ensures i % 15 == 0 <==> i % 3 == 0 && i % 5 == 0
  {
    if i % 15 == 0 {
      var q := i / 15;
      assert i == 3 * (5 * q);
      assert i == 5 * (3 * q);
    }
    if i % 3 == 0 && i % 5 == 0 {
      var a := i / 3;
      var r := a % 5;
      assert i == 15 * (a / 5) + 3 * r;
      assert (3 * r) % 5 == 0 by {
        assert 3 * r == i - 5 * (3 * (a / 5));
      }
      assert r == 0;
    }
  }

  /**
   * The line printed for i: "FizzBuzz" when 15 divides i, else "Fizz" when
   * 3 does, else "Buzz" when 5 does, else str(i). The checks are the same
   * whether written as the nested ternary or as an if/elif chain.
   */
  function Classify(i: int): (s: string)
    ensures s == "FizzBuzz" <==> i % 3 == 0 && i % 5 == 0
    ensures s == "Fizz" <==> i % 3 == 0 && i % 5 != 0
    ensures s == "Buzz" <==> i % 5 == 0 && i % 3 != 0
    ensures i % 3 != 0 && i % 5 != 0 ==> s == IntToStr(i)
  {
    Divisible15(i);
    if i % 15 == 0 then "FizzBuzz"
    else if i % 3 == 0 then "Fizz"
    else if i % 5 == 0 then "Buzz"
    else
      var t := IntToStr(i);
      assert !IsDigit('F') && !IsDigit('B');
      assert t[0] == '-' || IsDigit(t[0]);
      t
  }

  /** The lines for 1..n in order; none when n <= 0. */
  method FizzBuzz(n: int) returns (lines: seq<string>)
    ensures |lines| == if n < 0 then 0 else n
    ensures forall k :: 0 <= k < |lines| ==> lines[k] == Classify(k + 1)
  {
    lines := [];
    var i := 1;
    while i <= n
      invariant 1 <= i <= if n < 1 then 1 else n + 1
      invariant |lines| == i - 1
      invariant forall k :: 0 <= k < |lines| ==> lines[k] == Classify(k + 1)
    {
      lines := lines + [Classify(i)];
      i := i + 1;
    }
  }
}
