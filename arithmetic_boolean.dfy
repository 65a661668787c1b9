/**
 * Boolean operators computed with integer arithmetic: AND as a product,
 * OR as a + b - ab, NOT as 1 - a and XOR as (a + b) % 2. They agree with
 * the truth tables when given 0 and 1, and not otherwise.
 */
module ArithmeticBoolean {

  predicate IsBit(a: int) {
    a == 0 || a == 1
  }

  /** The 0/1 encoding of a truth value. */
  function Bit(b: bool): int {
    if b then 1 else 0
  }

  function BoolAnd(a: int, b: int): (r: int)
    ensures IsBit(a) && IsBit(b) ==> r == Bit(a == 1 && b == 1)
  {
    a * b
  }

  function BoolOr(a: int, b: int): (r: int)
    ensures IsBit(a) && IsBit(b) ==> r == Bit(a == 1 || b == 1)
  {
    a + b - a * b
  }

  function BoolNot(a: int): (r: int)
    ensures IsBit(a) ==> r == Bit(a == 0)
  {
    1 - a
  }

  /** Python's % with divisor 2 is never negative, so the result is a bit for any input. */
  function BoolXor(a: int, b: int): (r: int)
    ensures IsBit(r)
    ensures IsBit(a) && IsBit(b) ==> r == Bit(a != b)
  {
    (a + b) % 2
  }

  /** One of the alternative OR formulas the source names. */
  lemma BoolOrIsMin(a: int, b: int)
    requires IsBit(a) && IsBit(b)
    ensures BoolOr(a, b) == if a + b < 1 then a + b else 1
  {
    if a == 0 {
      assert BoolOr(a, b) == b;
    } else {
      assert BoolOr(a, b) == 1;
    }
  }

  /** NOT is an involution on every integer, not only on bits. */
  lemma BoolNotNot(a: int)
    ensures BoolNot(BoolNot(a)) == a
  {
  }

  /** Outside {0, 1} the results are not Booleans. */
  lemma InvalidInputs()
    ensures BoolAnd(5, 7) == 35
    ensures BoolOr(3, 4) == -5
    ensures !IsBit(BoolAnd(5, 7)) && !IsBit(BoolOr(3, 4))
  {
  }
}
