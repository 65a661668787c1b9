/**
 * A calculator that keeps every number as a string of decimal digits with
 * at most one '.', and adds, subtracts, multiplies and divides them digit
 * by digit the way it is done on paper.
 *
 * A numeral's meaning is given by two numbers: `Value`, the integer its
 * digits spell when the point is ignored, and `Scale`, the count of
 * characters after the point. `Scaled(s, k)` is the numeral read at k
 * decimal places, so two numerals are compared, added or subtracted by
 * reading both at a common k.
 */
module StringCalculator {
  import opened Wrappers
  import opened PyStr

  /** Digits a division produces after the last digit of the dividend. */
  const Precision: nat := 5

  function Max(a: nat, b: nat): nat {
    if a < b then b else a
  }

  // ---------------------------------------------------------------------
  // Numerals and their values
  // ---------------------------------------------------------------------

  predicate NumChars(s: string) {
    forall k :: 0 <= k < |s| ==> IsDigit(s[k]) || s[k] == '.'
  }

  predicate OneDot(s: string) {
    forall i, j :: 0 <= i < j < |s| && s[i] == '.' ==> s[j] != '.'
  }

  /** The strings the arithmetic is written for: digits with at most one point. */
  predicate Numeral(s: string) {
    NumChars(s) && OneDot(s)
  }

  function Pow10(k: nat): (p: nat)
    ensures p >= 1
  {
    if k == 0 then 1 else 10 * Pow10(k - 1)
  }

  lemma {:induction false} Pow10Add(i: nat, j: nat)
    ensures Pow10(i + j) == Pow10(i) * Pow10(j)
  {
    if i > 0 {
      Pow10Add(i - 1, j);
    }
  }

  /** The number of digits (every character but the point). */
  function Dig(s: string): (n: nat)
    ensures n <= |s|
  {
    if s == [] then 0 else (if s[0] == '.' then 0 else 1) + Dig(s[1..])
  }

  /** The integer the digits spell with the point ignored: each digit counts ten to the number of digits after it. */
  function Value(s: string): nat
    requires NumChars(s)
  {
    if s == [] then 0
    else (if s[0] == '.' then 0 else DigitValue(s[0]) * Pow10(Dig(s[1..]))) + Value(s[1..])
  }

  /** len(s) - s.index(".") - 1 when s holds a point, and 0 otherwise. */
  function Scale(s: string): (n: nat)
    ensures '.' !in s ==> n == 0
  {
    if s == [] then 0 else if s[0] == '.' then |s| - 1 else Scale(s[1..])
  }

  /** The numeral read at k decimal places. */
  function Scaled(s: string, k: nat): nat
    requires NumChars(s) && Scale(s) <= k
  {
    Value(s) * Pow10(k - Scale(s))
  }

  function Zeros(n: nat): (z: string)
    ensures |z| == n && forall k :: 0 <= k < n ==> z[k] == '0'
  {
    if n == 0 then [] else Zeros(n - 1) + "0"
  }

  // Facts of integer arithmetic that the solver finds only in small contexts.

  lemma MulDistrib(a: int, b: int, c: int)
    ensures (a + b) * c == a * c + b * c
  {
  }

  lemma MulAssoc(a: int, b: int, c: int)
    ensures a * (b * c) == (a * b) * c
  {
  }

  lemma MulAtMostNine(w: int, p: int)
    requires 0 <= w <= 9 && p >= 0
    ensures w * p <= 9 * p
  {
  }

  lemma {:induction false} DigAppend(s: string, t: string)
    ensures Dig(s + t) == Dig(s) + Dig(t)
  {
    if s != [] {
      assert (s + t)[0] == s[0];
      assert (s + t)[1..] == s[1..] + t;
      DigAppend(s[1..], t);
    } else {
      assert s + t == t;
    }
  }

  /** The weight of a numeral's first character: its digit value, or 0 for the point. */
  function Lead(s: string): (w: nat)
    requires s != [] && NumChars(s)
    ensures w <= 9
  {
    if s[0] == '.' then 0 else DigitValue(s[0])
  }

  lemma ValueCons(s: string)
    requires s != [] && NumChars(s)
    ensures NumChars(s[1..])
    ensures Value(s) == Lead(s) * Pow10(Dig(s[1..])) + Value(s[1..])
    ensures Dig(s) == Dig(s[1..]) + (if s[0] == '.' then 0 else 1)
  {
  }

  lemma {:induction false} ValueAppend(s: string, t: string)
    requires NumChars(s) && NumChars(t)
    ensures NumChars(s + t)
    ensures Value(s + t) == Value(s) * Pow10(Dig(t)) + Value(t)
  {
    if s != [] {
      var st := s + t;
      assert st[0] == s[0];
      assert st[1..] == s[1..] + t;
      ValueCons(st);
      ValueCons(s);
      ValueAppend(s[1..], t);
      DigAppend(s[1..], t);
      Pow10Add(Dig(s[1..]), Dig(t));
      var w, v := Lead(s), Value(s[1..]);
      var p, q := Pow10(Dig(s[1..])), Pow10(Dig(t));
      assert Lead(st) == w;
      assert Value(st) == w * (p * q) + (v * q + Value(t));
      MulAssoc(w, p, q);
      MulDistrib(w * p, v, q);
    } else {
      assert s + t == t;
    }
  }

  lemma {:induction false} ScaleAppend(s: string, t: string)
    ensures '.' in s ==> Scale(s + t) == Scale(s) + |t|
    ensures '.' !in s ==> Scale(s + t) == Scale(t)
  {
    if s != [] {
      assert (s + t)[0] == s[0];
      assert (s + t)[1..] == s[1..] + t;
      ScaleAppend(s[1..], t);
    } else {
      assert s + t == t;
    }
  }

  /** A numeral is below ten to the number of its digits. */
  lemma {:induction false} ValueBound(s: string)
    requires NumChars(s)
    ensures Value(s) < Pow10(Dig(s))
  {
    if s != [] {
      ValueCons(s);
      ValueBound(s[1..]);
      var p := Pow10(Dig(s[1..]));
      MulAtMostNine(Lead(s), p);
      if s[0] != '.' {
        assert Pow10(Dig(s)) == 10 * p;
      }
    }
  }

  lemma {:induction false} NoDot(s: string)
    requires '.' !in s
    ensures Dig(s) == |s| && Scale(s) == 0
  {
    if s != [] {
      NoDot(s[1..]);
    }
  }

  lemma {:induction false} ZerosValue(n: nat)
    ensures NumChars(Zeros(n)) && '.' !in Zeros(n)
    ensures Value(Zeros(n)) == 0 && Dig(Zeros(n)) == n && Scale(Zeros(n)) == 0
  {
    if n > 0 {
      ZerosValue(n - 1);
      ValueAppend(Zeros(n - 1), "0");
      DigAppend(Zeros(n - 1), "0");
      ScaleAppend(Zeros(n - 1), "0");
    }
  }

  /** The point of a numeral sits Scale(s) characters from its end. */
  lemma {:induction false} DotScale(s: string, p: nat)
    requires Numeral(s) && p < |s| && s[p] == '.'
    ensures Scale(s) == |s| - 1 - p
  {
    if p > 0 {
      assert s[0] != '.';
      DotScale(s[1..], p - 1);
    }
  }

  /** Counted from the end, the point of a numeral is at position Scale(s) and nowhere else. */
  lemma DotFromEnd(s: string, k: nat)
    requires Numeral(s) && k < |s|
    ensures s[|s| - 1 - k] == '.' <==> '.' in s && k == Scale(s)
  {
    if s[|s| - 1 - k] == '.' {
      DotScale(s, |s| - 1 - k);
    }
    if '.' in s && k == Scale(s) {
      var p :| 0 <= p < |s| && s[p] == '.';
      DotScale(s, p);
    }
  }

  lemma DotInside(s: string)
    requires Numeral(s) && '.' in s
    ensures Scale(s) < |s|
  {
    var p :| 0 <= p < |s| && s[p] == '.';
    DotScale(s, p);
  }

  /** Reading at more places multiplies by the extra power of ten. */
  lemma Rescale(s: string, k: nat, m: nat)
    requires NumChars(s) && Scale(s) <= k <= m
    ensures Scaled(s, m) == Scaled(s, k) * Pow10(m - k)
  {
    Pow10Add(k - Scale(s), m - k);
    MulAssoc(Value(s), Pow10(k - Scale(s)), Pow10(m - k));
  }

  /** A common positive factor cancels. */
  lemma Unscale(x: int, y: int, p: int)
    requires p >= 1 && x * p == y * p
    ensures x == y
  {
  }

  lemma SliceNumeral(s: string, i: nat, j: nat)
    requires Numeral(s) && i <= j <= |s|
    ensures Numeral(s[i..j])
  {
    var t := s[i..j];
    forall x, y | 0 <= x < y < |t| && t[x] == '.' ensures t[y] != '.' {
      assert t[x] == s[i + x] && t[y] == s[i + y];
    }
  }

  /** Joining two numerals of which at most one has a point gives a numeral. */
  lemma AppendNumeral(s: string, t: string)
    requires Numeral(s) && Numeral(t) && ('.' !in s || '.' !in t)
    ensures Numeral(s + t)
  {
    var st := s + t;
    forall x, y | 0 <= x < y < |st| && st[x] == '.' ensures st[y] != '.' {
      if y < |s| {
        assert st[x] == s[x] && st[y] == s[y];
      } else if x >= |s| {
        assert st[x] == t[x - |s|] && st[y] == t[y - |s|];
      } else {
        assert st[x] == s[x] && st[y] == t[y - |s|];
      }
    }
  }

  /** Zeros in front change neither the number nor the scale. */
  lemma ZerosThen(m: nat, t: string)
    requires NumChars(t)
    ensures NumChars(Zeros(m) + t) && ('.' in Zeros(m) + t <==> '.' in t)
    ensures Value(Zeros(m) + t) == Value(t) && Scale(Zeros(m) + t) == Scale(t)
  {
    ZerosValue(m);
    ValueAppend(Zeros(m), t);
    ScaleAppend(Zeros(m), t);
  }

  /** Zeros behind multiply the digits by a power of ten and, after a point, raise the scale. */
  lemma PadZeros(s: string, m: nat)
    requires NumChars(s)
    ensures NumChars(s + Zeros(m)) && ('.' in s + Zeros(m) <==> '.' in s)
    ensures Value(s + Zeros(m)) == Value(s) * Pow10(m) && Dig(s + Zeros(m)) == Dig(s) + m
    ensures '.' in s ==> Scale(s + Zeros(m)) == Scale(s) + m
    ensures Numeral(s) ==> Numeral(s + Zeros(m))
  {
    ZerosValue(m);
    ValueAppend(s, Zeros(m));
    ScaleAppend(s, Zeros(m));
    DigAppend(s, Zeros(m));
    if Numeral(s) {
      SliceNumeral(Zeros(m), 0, m);
      assert Zeros(m)[0..m] == Zeros(m);
      AppendNumeral(s, Zeros(m));
    }
  }

  // ---------------------------------------------------------------------
  // strip_leading_zeros and normalize_decimal
  // ---------------------------------------------------------------------

  /** s.lstrip("0") or "0". */
  function StripLeadingZeros(s: string): (r: string)
    ensures r != [] && (r[0] == '0' ==> r == "0")
    ensures r == "0" || (|r| <= |s| && r == s[|s| - |r|..])
    ensures forall k :: 0 <= k < |s| - |r| ==> s[k] == '0'
  {
    var t := LStripChar(s, '0');
    if t == [] then "0" else t
  }

  /** Stripping leading zeros keeps the number, its scale and its point. */
  lemma StripKeepsNumber(s: string)
    requires Numeral(s)
    ensures var r := StripLeadingZeros(s);
      Numeral(r) && Value(r) == Value(s) && Scale(r) == Scale(s) && ('.' in r <==> '.' in s)
  {
    var t := LStripChar(s, '0');
    var m := |s| - |t|;
    assert t == s[m..|s|];
    assert s == Zeros(m) + t;
    SliceNumeral(s, m, |s|);
    ZerosThen(m, t);
    if t == [] {
      ValueCons("0");
      assert "0"[1..] == [];
    }
  }

  /** s.rstrip("0").rstrip(".") when s holds a point; s unchanged otherwise. */
  function NormalizeDecimal(s: string): (r: string)
    ensures '.' !in s ==> r == s
    ensures '.' in s ==> r == [] || r[|r| - 1] != '.'
    ensures |r| <= |s| && r == s[..|r|]
  {
    if '.' !in s then s else RStripChar(RStripChar(s, '0'), '.')
  }

  /** A numeral with a point does not end in a zero. */
  predicate NoTrailingZero(r: string) {
    '.' in r ==> r[|r| - 1] != '0'
  }

  /**
   * Normalising keeps the number: read at the scale it had before, the
   * result spells the same integer, and its own scale is no larger.
   */
  lemma NormalizeKeepsNumber(s: string)
    requires Numeral(s)
    ensures var r := NormalizeDecimal(s);
      && Numeral(r) && Scale(r) <= Scale(s) && Scaled(r, Scale(s)) == Value(s)
      && NoTrailingZero(r)
  {
    if '.' in s {
      var t := RStripChar(s, '0');
      TrailingZeros(s, t);
      NormalizeTail(s, t);
      assert NormalizeDecimal(s) == RStripChar(t, '.');
    } else {
      assert NormalizeDecimal(s) == s;
      assert Pow10(0) == 1;
    }
  }

  /** What is left once the trailing zeros are gone loses at most its point. */
  lemma NormalizeTail(s: string, t: string)
    requires NumChars(s) && Numeral(t) && (t == [] || t[|t| - 1] != '0')
    requires Scale(t) <= Scale(s) && Scaled(t, Scale(s)) == Value(s)
    ensures var u := RStripChar(t, '.');
      && Numeral(u) && Scale(u) <= Scale(s) && Scaled(u, Scale(s)) == Value(s)
      && NoTrailingZero(u)
  {
    var u := RStripChar(t, '.');
    if u != t {
      StripPoint(t, u);
    }
  }

  /** Trailing zeros after the point of a numeral only rescale it. */
  lemma TrailingZeros(s: string, t: string)
    requires Numeral(s) && '.' in s && t == RStripChar(s, '0')
    ensures Numeral(t) && (t == [] || t[|t| - 1] != '0')
    ensures Scale(t) <= Scale(s) && Scaled(t, Scale(s)) == Value(s)
  {
    ZerosShape(s, t);
    PadScaled(t, |s| - |t|, s);
  }

  lemma ZerosShape(s: string, t: string)
    requires Numeral(s) && '.' in s && t == RStripChar(s, '0')
    ensures |t| <= |s| && Numeral(t) && '.' in t && s == t + Zeros(|s| - |t|)
  {
    var p :| 0 <= p < |s| && s[p] == '.';
    assert p < |t|;
    assert s == t + Zeros(|s| - |t|);
    SliceNumeral(s, 0, |t|);
    assert t == s[0..|t|];
    assert t[p] == '.';
  }

  lemma PadScaled(t: string, m: nat, s: string)
    requires Numeral(t) && '.' in t && s == t + Zeros(m)
    ensures NumChars(s) && Scale(t) <= Scale(s) && Scaled(t, Scale(s)) == Value(s)
  {
    PadZeros(t, m);
  }

  /** Removing the trailing point of a numeral keeps its number. */
  lemma StripPoint(t: string, u: string)
    requires Numeral(t) && u == RStripChar(t, '.') && u != t
    ensures Numeral(u) && '.' !in u && Scale(u) == 0 && Scale(t) == 0 && Value(u) == Value(t)
  {
    PointShape(t, u);
    SliceNumeral(t, 0, |u|);
    assert u == t[0..|u|];
    PointAppended(u);
  }

  lemma PointAppended(u: string)
    requires NumChars(u) && '.' !in u
    ensures Value(u + ".") == Value(u) && Scale(u + ".") == 0 && Scale(u) == 0
  {
    ValueAppend(u, ".");
    ValueCons(".");
    assert "."[1..] == [];
    ScaleAppend(u, ".");
  }

  /** A numeral loses at most one trailing point, and what remains has none. */
  lemma PointShape(t: string, u: string)
    requires OneDot(t) && u == RStripChar(t, '.') && u != t
    ensures t == u + "." && '.' !in u
  {
    var n := |t| - 1;
    assert t[n] == '.';
    assert |u| >= n;
    forall k | 0 <= k < |u| ensures u[k] != '.' {
      assert u[k] == t[k];
    }
  }

  // ---------------------------------------------------------------------
  // align_decimals
  // ---------------------------------------------------------------------

  /** The operand with ".0" appended when it has no point. */
  function WithPoint(s: string): (r: string)
    ensures '.' in r && |s| <= |r| && r[..|s|] == s
    ensures '.' in s ==> r == s
    ensures '.' !in s ==> r == s + ".0"
  {
    if '.' in s then s else s + ".0"
  }

  lemma WithPointFacts(s: string)
    requires Numeral(s)
    ensures var r := WithPoint(s);
      && Numeral(r) && Scale(r) == (if '.' in s then Scale(s) else 1)
      && Scaled(s, Scale(r)) == Value(r) && Dig(r) == Dig(s) + Scale(r) - Scale(s)
  {
    if '.' !in s {
      AddPoint(s);
      assert Pow10(1 - Scale(s)) == 10;
    } else {
      assert Pow10(Scale(s) - Scale(s)) == 1;
    }
  }

  /** Appending ".0" to a numeral without a point keeps its number. */
  lemma AddPoint(s: string)
    requires Numeral(s) && '.' !in s
    ensures Numeral(s + ".0") && '.' in s + ".0"
    ensures Value(s + ".0") == 10 * Value(s) && Scale(s + ".0") == 1 && Dig(s + ".0") == Dig(s) + 1
  {
    ValueAppend(s, ".0");
    ScaleAppend(s, ".0");
    DigAppend(s, ".0");
    ValueCons(".0");
    ValueCons("0");
    assert ".0"[1..] == "0" && "0"[1..] == [];
    assert Numeral(".0");
    AppendNumeral(s, ".0");
    assert (s + ".0")[|s|] == '.';
  }

  /** One operand of align_decimals brought to t decimals. */
  function PadTo(x: string, t: nat): string {
    var x1 := WithPoint(x);
    if Scale(x1) <= t then x1 + Zeros(t - Scale(x1)) else x1
  }

  /** PadTo only appends: a point when there was none, then zeros. */
  lemma PadToShape(x: string, t: nat)
    ensures var r := PadTo(x, t);
      && '.' in r && |x| <= |r| && r[..|x|] == x
      && (forall k :: |x| <= k < |r| ==> r[k] == '0' || (k == |x| && r[k] == '.' && '.' !in x))
      && (Scale(WithPoint(x)) <= t ==> Scale(r) == t)
  {
    var x1 := WithPoint(x);
    var m := if Scale(x1) <= t then t - Scale(x1) else 0;
    assert x1 + Zeros(0) == x1;
    assert PadTo(x, t) == x1 + Zeros(m);
    ScaleAppend(x1, Zeros(m));
    PadToAppended(x, x1, m);
  }

  lemma PadToAppended(x: string, x1: string, m: nat)
    requires x1 == WithPoint(x)
    ensures var r := x1 + Zeros(m);
      && |x| <= |r| && r[..|x|] == x
      && (forall k :: |x| <= k < |r| ==> r[k] == '0' || (k == |x| && r[k] == '.' && '.' !in x))
  {
    var r := x1 + Zeros(m);
    assert r[..|x|] == x1[..|x|];
    forall k | |x| <= k < |r| ensures r[k] == '0' || (k == |x| && r[k] == '.' && '.' !in x) {
      if k >= |x1| {
        assert r[k] == Zeros(m)[k - |x1|];
      } else {
        assert x1 == x + ".0" && r[k] == x1[k];
        assert (x + ".0")[k] == ".0"[k - |x|];
      }
    }
  }

  /** PadTo keeps the number of a numeral. */
  lemma PadToValue(x: string, t: nat)
    requires Numeral(x) && Scale(WithPoint(x)) <= t
    ensures var r := PadTo(x, t);
      && Numeral(r) && Scale(r) == t && Scale(x) <= t
      && Value(r) == Scaled(x, t) && Dig(r) == Dig(x) + t - Scale(x)
  {
    var x1 := WithPoint(x);
    WithPointFacts(x);
    PadZeros(x1, t - Scale(x1));
    Rescale(x, Scale(x1), t);
  }

  /** An aligned pair: both hold a point or neither does, at the same scale. */
  predicate Aligned(a: string, b: string) {
    Numeral(a) && Numeral(b) && ('.' in a <==> '.' in b) && Scale(a) == Scale(b)
  }

  /**
   * Both operands get a point, and the one with fewer decimals gets zeros
   * appended until the two have equally many.
   */
  function AlignDecimals(a: string, b: string): (r: (string, string))
    ensures r == (PadTo(a, Max(Scale(WithPoint(a)), Scale(WithPoint(b)))), PadTo(b, Max(Scale(WithPoint(a)), Scale(WithPoint(b)))))
  {
    var a1 := WithPoint(a);
    var b1 := WithPoint(b);
    var da, db := Scale(a1), Scale(b1);
    assert a1 + Zeros(0) == a1 && b1 + Zeros(0) == b1;
    if da > db then (a1, b1 + Zeros(da - db))
    else if db > da then (a1 + Zeros(db - da), b1)
    else (a1, b1)
  }

  /**
   * align_decimals only appends: to each operand a point when it had none,
   * then zeros, and both end with a point and equally many decimals.
   */
  lemma AlignShape(a: string, b: string)
    ensures var r := AlignDecimals(a, b);
      && '.' in r.0 && '.' in r.1 && Scale(r.0) == Scale(r.1)
      && |a| <= |r.0| && r.0[..|a|] == a && |b| <= |r.1| && r.1[..|b|] == b
      && (forall k :: |a| <= k < |r.0| ==> r.0[k] == '0' || (k == |a| && r.0[k] == '.' && '.' !in a))
      && (forall k :: |b| <= k < |r.1| ==> r.1[k] == '0' || (k == |b| && r.1[k] == '.' && '.' !in b))
  {
    var t := Max(Scale(WithPoint(a)), Scale(WithPoint(b)));
    PadToShape(a, t);
    PadToShape(b, t);
  }

  /**
   * On numerals, align_decimals keeps both numbers: each result read at the
   * common scale spells the operand read at that scale, and the common
   * scale is the larger of the two, or 1 when neither had decimals.
   */
  lemma AlignKeepsNumbers(a: string, b: string)
    requires Numeral(a) && Numeral(b)
    ensures var r := AlignDecimals(a, b);
      && Aligned(r.0, r.1)
      && Scale(a) <= Scale(r.0) && Scale(b) <= Scale(r.0) && Scale(r.0) <= Max(1, Max(Scale(a), Scale(b)))
      && Value(r.0) == Scaled(a, Scale(r.0)) && Value(r.1) == Scaled(b, Scale(r.0))
      && Dig(r.0) == Dig(a) + Scale(r.0) - Scale(a) && Dig(r.1) == Dig(b) + Scale(r.0) - Scale(b)
  {
    var t := Max(Scale(WithPoint(a)), Scale(WithPoint(b)));
    var r0, r1 := PadTo(a, t), PadTo(b, t);
    assert AlignDecimals(a, b) == (r0, r1);
    WithPointFacts(a);
    WithPointFacts(b);
    PadToValue(a, t);
    PadToValue(b, t);
    PadToShape(a, t);
    PadToShape(b, t);
    assert '.' in r0 && '.' in r1 && Scale(r0) == t == Scale(r1);
  }

  /** The scale both operands are read at once add_strings or subtract_strings has aligned them. */
  function CommonScale(a: string, b: string): nat {
    if '.' in a || '.' in b then Max(Scale(WithPoint(a)), Scale(WithPoint(b))) else 0
  }

  /**
   * The step both add_strings and subtract_strings take first: align the
   * operands when either holds a point, and leave them alone otherwise.
   * Either way both are then read at the common scale.
   */
  method AlignOperands(a: string, b: string) returns (x: string, y: string)
    requires Numeral(a) && Numeral(b)
    ensures Aligned(x, y) && Scale(x) == CommonScale(a, b)
    ensures Scale(a) <= Scale(x) && Scale(b) <= Scale(x)
    ensures Value(x) == Scaled(a, Scale(x)) && Value(y) == Scaled(b, Scale(x))
    ensures Dig(x) == Dig(a) + Scale(x) - Scale(a) && Dig(y) == Dig(b) + Scale(x) - Scale(b)
    ensures '.' !in a && '.' !in b ==> x == a && y == b
  {
    x, y := a, b;
    if '.' in a || '.' in b {
      var pair := AlignDecimals(a, b);
      x, y := pair.0, pair.1;
      AlignKeepsNumbers(a, b);
      PadToValue(a, CommonScale(a, b));
    } else {
      NoDot(a);
      NoDot(b);
      assert Pow10(0) == 1;
    }
  }

  // ---------------------------------------------------------------------
  // Walking a numeral from its last character
  // ---------------------------------------------------------------------

  /** The last i characters of s, or all of it when it is shorter. */
  function Tail(s: string, i: nat): (r: string)
    ensures |r| == if i <= |s| then i else |s|
  {
    if i <= |s| then s[|s| - i..] else s
  }

  lemma ConsValue(c: char, t: string)
    requires NumChars(t) && (IsDigit(c) || c == '.')
    ensures NumChars([c] + t)
    ensures Value([c] + t) == (if c == '.' then 0 else DigitValue(c)) * Pow10(Dig(t)) + Value(t)
    ensures Dig([c] + t) == Dig(t) + (if c == '.' then 0 else 1)
  {
    assert ([c] + t)[0] == c && ([c] + t)[1..] == t;
    ValueCons([c] + t);
  }

  /** One more character from the end of s. */
  lemma TailCons(s: string, i: nat)
    requires NumChars(s) && i < |s|
    ensures NumChars(Tail(s, i)) && Tail(s, i + 1) == [s[|s| - 1 - i]] + Tail(s, i)
    ensures var c := s[|s| - 1 - i];
      && Value(Tail(s, i + 1)) == (if c == '.' then 0 else DigitValue(c)) * Pow10(Dig(Tail(s, i))) + Value(Tail(s, i))
      && Dig(Tail(s, i + 1)) == Dig(Tail(s, i)) + (if c == '.' then 0 else 1)
  {
    assert Tail(s, i + 1) == [s[|s| - 1 - i]] + Tail(s, i);
    ConsValue(s[|s| - 1 - i], Tail(s, i));
  }

  lemma TailAll(s: string, i: nat)
    requires |s| <= i
    ensures Tail(s, i) == s
  {
    assert s[0..] == s;
  }

  lemma NoDotDigits(s: string)
    requires NumChars(s) && '.' !in s
    ensures AllDigits(s)
  {
  }

  lemma CarryStep(t: int, p: int)
    ensures (t % 10) * p + (t / 10) * (10 * p) == t * p
  {
    var q, r := t / 10, t % 10;
    assert t == 10 * q + r;
    MulDistrib(10 * q, r, p);
    MulAssoc(q, 10, p);
  }

  lemma MulDistrib3(a: int, b: int, c: int, p: int)
    ensures (a + b + c) * p == a * p + b * p + c * p
  {
    MulDistrib(a + b, c, p);
    MulDistrib(a, b, p);
  }

  // ---------------------------------------------------------------------
  // add_strings
  // ---------------------------------------------------------------------

  /** What an aligned pair looks like at position i from the end. */
  lemma AlignedAt(a: string, b: string, i: nat)
    requires Aligned(a, b)
    ensures '.' in a ==> Scale(a) < |a| && Scale(a) < |b|
    ensures i < |a| ==> (a[|a| - 1 - i] == '.' <==> '.' in a && i == Scale(a))
    ensures i < |b| ==> (b[|b| - 1 - i] == '.' <==> '.' in a && i == Scale(a))
  {
    if '.' in a {
      DotInside(a);
      DotInside(b);
    }
    if i < |a| {
      DotFromEnd(a, i);
    }
    if i < |b| {
      DotFromEnd(b, i);
    }
  }

  /** The result characters, counted from the end, have the point where the operands have it. */
  predicate DotsAt(out: string, dot: bool, f: nat) {
    forall p :: 0 <= p < |out| ==> (out[p] == '.' <==> dot && p == |out| - 1 - f)
  }

  /** A character put in front keeps the point in place when it is the point exactly at position f from the end. */
  lemma DotsAtCons(c: char, out: string, dot: bool, f: nat)
    requires DotsAt(out, dot, f) && (c == '.' <==> dot && |out| == f)
    ensures DotsAt([c] + out, dot, f)
  {
    var r := [c] + out;
    forall q | 0 <= q < |r| ensures (r[q] == '.' <==> dot && q == |r| - 1 - f) {
      if q > 0 {
        assert r[q] == out[q - 1];
      }
    }
  }

  lemma DotsAtNumeral(out: string, dot: bool, f: nat)
    requires NumChars(out) && DotsAt(out, dot, f)
    ensures Numeral(out) && ('.' in out <==> dot && f < |out|)
    ensures '.' in out ==> Scale(out) == f
  {
    if dot && f < |out| {
      assert out[|out| - 1 - f] == '.';
      DotScale(out, |out| - 1 - f);
    }
  }

  /**
   * The state of the digit loop of add_strings after i positions from the
   * end: out holds the result characters so far and carry the carry; the
   * digits of out plus the carry are the digits of both operands read so
   * far.
   */
  ghost predicate AddState(a: string, b: string, i: nat, out: string, carry: int) {
    && |out| == i && 0 <= carry <= 1
    && NumChars(out) && DotsAt(out, '.' in a, Scale(a))
    && NumChars(a) && NumChars(b)
    && (i <= |a| ==> Dig(Tail(a, i)) == Dig(out))
    && (i <= |b| ==> Dig(Tail(b, i)) == Dig(out))
    && Value(out) + (if carry == 1 then Pow10(Dig(out)) else 0) == Value(Tail(a, i)) + Value(Tail(b, i))
  }

  /** A position where the operands hold the point adds a point and keeps the carry. */
  lemma AddPointStep(a: string, b: string, i: nat, out: string, carry: int)
    requires Aligned(a, b) && AddState(a, b, i, out, carry)
    requires (i < |a| && a[|a| - 1 - i] == '.') || (i < |b| && b[|b| - 1 - i] == '.')
    ensures AddState(a, b, i + 1, "." + out, carry)
  {
    AlignedAt(a, b, i);
    TailCons(a, i);
    TailCons(b, i);
    ConsValue('.', out);
    DotsAtCons('.', out, '.' in a, Scale(a));
  }

  /** A position of digits adds their sum and the carry, keeping the last digit and carrying the rest. */
  lemma AddDigitStep(a: string, b: string, i: nat, out: string, carry: int, da: int, db: int,
                     out': string, carry': int)
    requires Aligned(a, b) && AddState(a, b, i, out, carry)
    requires i < |a| || i < |b|
    requires !((i < |a| && a[|a| - 1 - i] == '.') || (i < |b| && b[|b| - 1 - i] == '.'))
    requires da == (if i < |a| then DigitValue(a[|a| - 1 - i]) else 0)
    requires db == (if i < |b| then DigitValue(b[|b| - 1 - i]) else 0)
    requires 0 <= da + db + carry < 20
    requires out' == [DigitChar((da + db + carry) % 10)] + out && carry' == (da + db + carry) / 10
    ensures AddState(a, b, i + 1, out', carry')
  {
    AlignedAt(a, b, i);
    var t := da + db + carry;
    ConsDigit(t % 10, out);
    TailDigit(a, i, da, Dig(out));
    TailDigit(b, i, db, Dig(out));
    assert t % 10 + 10 * (t / 10) == t;
    AddDigitValue(a, b, i, out, carry, da, db, t % 10, t / 10, out');
    DotsAtCons(DigitChar(t % 10), out, '.' in a, Scale(a));
  }

  /** The number part of AddDigitStep, with the written digit d and the new carry c. */
  lemma AddDigitValue(a: string, b: string, i: nat, out: string, carry: int, da: int, db: int,
                      d: nat, c: int, out': string)
    requires AddState(a, b, i, out, carry)
    requires !((i < |a| && a[|a| - 1 - i] == '.') || (i < |b| && b[|b| - 1 - i] == '.'))
    requires da == (if i < |a| then DigitValue(a[|a| - 1 - i]) else 0)
    requires db == (if i < |b| then DigitValue(b[|b| - 1 - i]) else 0)
    requires d < 10 && 0 <= c <= 1 && d + 10 * c == da + db + carry && out' == [DigitChar(d)] + out
    ensures Value(out') + (if c == 1 then Pow10(Dig(out')) else 0) == Value(Tail(a, i + 1)) + Value(Tail(b, i + 1))
  {
    ConsDigit(d, out);
    TailDigit(a, i, da, Dig(out));
    TailDigit(b, i, db, Dig(out));
    AddArith(da, db, carry, d, c, Pow10(Dig(out)), Value(out), Value(Tail(a, i)), Value(Tail(b, i)));
  }

  /** One more digit from the end of s, or none once s is used up. */
  lemma TailDigit(s: string, i: nat, d: int, k: nat)
    requires NumChars(s) && (i < |s| ==> s[|s| - 1 - i] != '.')
    requires d == (if i < |s| then DigitValue(s[|s| - 1 - i]) else 0)
    requires i <= |s| ==> Dig(Tail(s, i)) == k
    ensures NumChars(Tail(s, i + 1))
    ensures Value(Tail(s, i + 1)) == d * Pow10(k) + Value(Tail(s, i))
    ensures i + 1 <= |s| ==> Dig(Tail(s, i + 1)) == k + 1
  {
    if i < |s| {
      TailCons(s, i);
    } else {
      TailAll(s, i);
      TailAll(s, i + 1);
      assert d * Pow10(k) == 0;
    }
  }

  /** A digit put in front weighs ten to the number of digits behind it. */
  lemma ConsDigit(d: nat, t: string)
    requires d < 10 && NumChars(t)
    ensures NumChars([DigitChar(d)] + t)
    ensures Value([DigitChar(d)] + t) == d * Pow10(Dig(t)) + Value(t)
    ensures Dig([DigitChar(d)] + t) == Dig(t) + 1
    ensures Pow10(Dig([DigitChar(d)] + t)) == 10 * Pow10(Dig(t))
  {
    ConsValue(DigitChar(d), t);
  }

  lemma AddArith(da: int, db: int, carry: int, d: int, c: int, p: int, vo: int, va: int, vb: int)
    requires vo + (if carry == 1 then p else 0) == va + vb && 0 <= carry <= 1
    requires d + 10 * c == da + db + carry && 0 <= c <= 1
    ensures d * p + vo + (if c == 1 then 10 * p else 0) == (da * p + va) + (db * p + vb)
  {
    MulDistrib3(da, db, carry, p);
    MulDistrib(d, 10 * c, p);
    MulAssoc(10, c, p);
  }

  /** One position of the digit loop of add_strings, read from the end. */
  method AddPosition(a: string, b: string, i: nat, out: string, carry: int) returns (next: string, carry': int)
    requires Aligned(a, b) && AddState(a, b, i, out, carry) && (i < |a| || i < |b|)
    ensures AddState(a, b, i + 1, next, carry')
  {
    if (i < |a| && a[|a| - 1 - i] == '.') || (i < |b| && b[|b| - 1 - i] == '.') {
      AddPointStep(a, b, i, out, carry);
      next, carry' := "." + out, carry;
    } else {
      var da := if i < |a| then DigitValue(a[|a| - 1 - i]) else 0;
      var db := if i < |b| then DigitValue(b[|b| - 1 - i]) else 0;
      var total := da + db + carry;
      var out1, carry1 := [DigitChar(total % 10)] + out, total / 10;
      AddDigitStep(a, b, i, out, carry, da, db, out1, carry1);
      next, carry' := out1, carry1;
    }
  }

  /**
   * The digit loop of add_strings on an aligned pair. Both operands are
   * read from their last character; a position where either has the point
   * yields a point and leaves the carry alone. Each result character is
   * put in front of those already produced, as appending to a list and
   * reversing it at the end does.
   */
  method AddAligned(a: string, b: string) returns (out: string)
    requires Aligned(a, b)
    ensures Numeral(out) && ('.' in out <==> '.' in a) && Scale(out) == Scale(a)
    ensures Value(out) == Value(a) + Value(b)
    ensures |out| >= |a| && |out| >= |b|
  {
    var n := if |a| < |b| then |b| else |a|;
    var carry := 0;
    out := "";
    var i := 0;
    AddStart(a, b);
    while i < n
      invariant i <= n && AddState(a, b, i, out, carry)
    {
      out, carry := AddPosition(a, b, i, out, carry);
      i := i + 1;
    }
    AddFinish(a, b, n, out, carry);
    if carry > 0 {
      out := [DigitChar(carry)] + out;
    }
  }

  /** Before the first position nothing is read and nothing is written. */
  lemma AddStart(a: string, b: string)
    requires Aligned(a, b)
    ensures AddState(a, b, 0, "", 0)
  {
    assert Tail(a, 0) == [] && Tail(b, 0) == [];
  }

  /** After the last position, a remaining carry becomes the leading digit. */
  lemma AddFinish(a: string, b: string, n: nat, out: string, carry: int)
    requires Aligned(a, b) && n == Max(|a|, |b|) && AddState(a, b, n, out, carry)
    ensures var r := if carry > 0 then [DigitChar(carry)] + out else out;
      && Numeral(r) && ('.' in r <==> '.' in a) && Scale(r) == Scale(a)
      && Value(r) == Value(a) + Value(b) && |r| >= |a| && |r| >= |b|
  {
    AlignedAt(a, b, 0);
    TailAll(a, n);
    TailAll(b, n);
    var dot, f := '.' in a, Scale(a);
    if carry > 0 {
      ConsValue(DigitChar(carry), out);
      var r := [DigitChar(carry)] + out;
      assert DotsAt(r, dot, f) by {
        forall p | 0 <= p < |r| ensures (r[p] == '.' <==> dot && p == |r| - 1 - f) {
          if p > 0 {
            assert r[p] == out[p - 1];
          }
        }
      }
      DotsAtNumeral(r, dot, f);
    } else {
      DotsAtNumeral(out, dot, f);
    }
  }

  /** Equal readings at a finer scale are equal at a coarser one. */
  lemma SumAtScale(r: string, a: string, b: string, t: nat, u: nat)
    requires NumChars(r) && NumChars(a) && NumChars(b)
    requires Scale(r) <= t && Scale(a) <= t && Scale(b) <= t && t <= u
    requires Scaled(r, u) == Scaled(a, u) + Scaled(b, u)
    ensures Scaled(r, t) == Scaled(a, t) + Scaled(b, t)
  {
    Rescale(r, t, u);
    Rescale(a, t, u);
    Rescale(b, t, u);
    MulDistrib(Scaled(a, t), Scaled(b, t), Pow10(u - t));
    Unscale(Scaled(r, t), Scaled(a, t) + Scaled(b, t), Pow10(u - t));
  }

  /** A sum read at the aligned scale u holds at every coarser scale the operands and the result allow. */
  lemma SumConclude(a: string, b: string, r: string, vx: nat, vy: nat, u: nat)
    requires NumChars(a) && NumChars(b) && NumChars(r)
    requires Scale(a) <= u && Scale(b) <= u && Scale(r) <= u
    requires vx == Scaled(a, u) && vy == Scaled(b, u) && Scaled(r, u) == vx + vy
    ensures var t := Max(Max(Scale(a), Scale(b)), Scale(r));
      Scaled(r, t) == Scaled(a, t) + Scaled(b, t)
  {
    SumAtScale(r, a, b, Max(Max(Scale(a), Scale(b)), Scale(r)), u);
  }

  /**
   * add_strings: on numerals the result is a numeral whose number is the
   * sum, read at the larger scale of the operands and the result; on
   * integers it is the sum's digits, with no leading zero dropped.
   */
  method AddStrings(a: string, b: string) returns (r: string)
    requires Numeral(a) && Numeral(b)
    ensures Numeral(r)
    ensures var t := Max(Max(Scale(a), Scale(b)), Scale(r));
      Scaled(r, t) == Scaled(a, t) + Scaled(b, t)
    ensures '.' !in a && '.' !in b ==> AllDigits(r) && Value(r) == Value(a) + Value(b) && |r| >= |a| && |r| >= |b|
  {
    var x, y := AlignOperands(a, b);
    var out := AddAligned(x, y);
    r := NormalizeDecimal(out);
    NormalizeKeepsNumber(out);
    SumConclude(a, b, r, Value(x), Value(y), Scale(x));
    if '.' !in a && '.' !in b {
      NoDotDigits(r);
    }
  }

  // ---------------------------------------------------------------------
  // subtract_strings
  // ---------------------------------------------------------------------

  lemma {:induction false} Pow10Mono(i: nat, j: nat)
    requires i <= j
    ensures Pow10(i) <= Pow10(j)
  {
    if i < j {
      Pow10Mono(i, j - 1);
    }
  }

  /** The remainder is determined by any quotient and remainder that fit. */
  lemma ModUnique(x: int, w: int, q: int, r: int)
    requires w >= 1 && 0 <= r < w && x == q * w + r
    ensures x % w == r
  {
    var q', r' := x / w, x % w;
    assert x == q' * w + r';
    MulDistrib(q, -q', w);
    assert (q - q') * w == r' - r;
    if q - q' >= 1 {
      MulAtLeast(q - q', w);
    } else if q - q' <= -1 {
      MulAtLeast(q' - q, w);
      MulDistrib(q, -q', w);
      MulDistrib(q', -q, w);
    }
  }

  lemma MulAtLeast(k: int, w: int)
    requires k >= 1 && w >= 0
    ensures k * w >= w
  {
  }

  /**
   * x brought into [0, w) by adding or taking away w as often as needed:
   * x modulo w, the way a fixed number of digits wraps around.
   */
  function Wrap(x: int, w: nat): (r: nat)
    requires w >= 1
    ensures r < w
    decreases if x < 0 then 1 else 0, if x < 0 then -x else x
  {
    if x < 0 then Wrap(x + w, w) else if x >= w then Wrap(x - w, w) else x
  }

  lemma WrapMod(x: int, w: nat)
    requires w >= 1
    ensures Wrap(x, w) == x % w
    decreases if x < 0 then 1 else 0, if x < 0 then -x else x
  {
    if x < 0 {
      WrapMod(x + w, w);
      ModShift(x, w, 1);
    } else if x >= w {
      WrapMod(x - w, w);
      ModShift(x, w, -1);
    }
  }

  lemma ModShift(x: int, w: nat, k: int)
    requires w >= 1
    ensures (x + k * w) % w == x % w
  {
    var q, m := x / w, x % w;
    assert x == q * w + m;
    MulDistrib(q, k, w);
    ModUnique(x + k * w, w, q + k, m);
  }

  /** A numeral has one digit per character, save the point. */
  lemma {:induction false} DigLen(s: string)
    requires Numeral(s)
    ensures Dig(s) == |s| - (if '.' in s then 1 else 0)
  {
    if s != [] {
      SliceNumeral(s, 1, |s|);
      DigLen(s[1..]);
      if s[0] == '.' {
        assert '.' !in s[1..] by {
          forall k | 0 <= k < |s[1..]| ensures s[1..][k] != '.' {
            assert s[1..][k] == s[k + 1];
          }
        }
      } else {
        assert ('.' in s) == ('.' in s[1..]) by {
          assert s == [s[0]] + s[1..];
        }
      }
    }
  }

  /** The last characters of a numeral spell its number modulo ten to their count of digits. */
  lemma TailModulo(y: string, n: nat, k: nat)
    requires NumChars(y)
    requires n <= |y| ==> Dig(Tail(y, n)) == k
    requires |y| < n ==> Dig(y) <= k
    ensures NumChars(Tail(y, n)) && Value(Tail(y, n)) == Value(y) % Pow10(k)
  {
    if n <= |y| {
      var pre, post := y[..|y| - n], Tail(y, n);
      assert y == pre + post;
      ValueAppend(pre, post);
      ValueBound(post);
      ModUnique(Value(y), Pow10(k), Value(pre), Value(post));
    } else {
      TailAll(y, n);
      ValueBound(y);
      Pow10Mono(Dig(y), k);
      ModUnique(Value(y), Pow10(k), 0, Value(y));
    }
  }

  /**
   * The state of the digit loop of subtract_strings after i positions from
   * the end of a: the digits of out less the borrow are the digits of a
   * read so far less those of b.
   */
  ghost predicate SubState(a: string, b: string, i: nat, out: string, borrow: int) {
    && |out| == i && i <= |a| && 0 <= borrow <= 1
    && NumChars(out) && DotsAt(out, '.' in a, Scale(a))
    && NumChars(a) && NumChars(b)
    && Dig(Tail(a, i)) == Dig(out)
    && (i <= |b| ==> Dig(Tail(b, i)) == Dig(out))
    && Value(out) - (if borrow == 1 then Pow10(Dig(out)) else 0) == Value(Tail(a, i)) - Value(Tail(b, i))
  }

  lemma SubStart(a: string, b: string)
    requires Aligned(a, b)
    ensures SubState(a, b, 0, "", 0)
  {
    assert Tail(a, 0) == [] && Tail(b, 0) == [];
  }

  /** The point of a is copied and the borrow kept. */
  lemma SubPointStep(a: string, b: string, i: nat, out: string, borrow: int)
    requires Aligned(a, b) && SubState(a, b, i, out, borrow)
    requires i < |a| && a[|a| - 1 - i] == '.'
    ensures SubState(a, b, i + 1, "." + out, borrow)
  {
    AlignedAt(a, b, i);
    TailCons(a, i);
    TailCons(b, i);
    ConsValue('.', out);
    DotsAtCons('.', out, '.' in a, Scale(a));
  }

  /** A digit position writes d and borrows c, where d - 10 * c is the digit of a less the borrow less the digit of b. */
  lemma SubDigitStep(a: string, b: string, i: nat, out: string, borrow: int, db: int,
                     d: nat, c: int, out': string)
    requires Aligned(a, b) && SubState(a, b, i, out, borrow)
    requires i < |a| && a[|a| - 1 - i] != '.'
    requires db == (if i < |b| && b[|b| - 1 - i] != '.' then DigitValue(b[|b| - 1 - i]) else 0)
    requires d < 10 && 0 <= c <= 1 && d - 10 * c == DigitValue(a[|a| - 1 - i]) - borrow - db
    requires out' == [DigitChar(d)] + out
    ensures SubState(a, b, i + 1, out', c)
  {
    AlignedAt(a, b, i);
    ConsDigit(d, out);
    TailDigit(a, i, DigitValue(a[|a| - 1 - i]), Dig(out));
    TailDigit(b, i, db, Dig(out));
    SubArith(DigitValue(a[|a| - 1 - i]), db, borrow, d, c, Pow10(Dig(out)), Value(out),
      Value(Tail(a, i)), Value(Tail(b, i)));
    DotsAtCons(DigitChar(d), out, '.' in a, Scale(a));
  }

  lemma SubArith(da: int, db: int, borrow: int, d: int, c: int, p: int, vo: int, va: int, vb: int)
    requires vo - (if borrow == 1 then p else 0) == va - vb && 0 <= borrow <= 1
    requires d - 10 * c == da - borrow - db && 0 <= c <= 1
    ensures d * p + vo - (if c == 1 then 10 * p else 0) == (da * p + va) - (db * p + vb)
  {
    MulDistrib3(da, -borrow, -db, p);
    MulDistrib(d, -10 * c, p);
    MulAssoc(10, c, p);
  }

  /** One position of the digit loop of subtract_strings, read from the end of a. */
  method SubPosition(a: string, b: string, i: nat, out: string, borrow: int) returns (next: string, borrow': int)
    requires Aligned(a, b) && SubState(a, b, i, out, borrow) && i < |a|
    ensures SubState(a, b, i + 1, next, borrow')
  {
    if a[|a| - 1 - i] == '.' {
      SubPointStep(a, b, i, out, borrow);
      next, borrow' := "." + out, borrow;
    } else {
      var da := DigitValue(a[|a| - 1 - i]) - borrow;
      var db := if i < |b| && b[|b| - 1 - i] != '.' then DigitValue(b[|b| - 1 - i]) else 0;
      if da < db {
        da := da + 10;
        borrow' := 1;
      } else {
        borrow' := 0;
      }
      next := [DigitChar(da - db)] + out;
      SubDigitStep(a, b, i, out, borrow, db, da - db, borrow', next);
    }
  }

  /**
   * The digit loop of subtract_strings on an aligned pair. It runs over
   * the characters of a only: digits of b beyond the length of a are never
   * read, and the borrow left after the first digit of a is dropped.
   */
  method SubtractAligned(a: string, b: string) returns (out: string, borrow: int)
    requires Aligned(a, b)
    ensures |out| == |a| && Numeral(out) && ('.' in out <==> '.' in a) && Scale(out) == Scale(a)
    ensures Dig(out) == Dig(a) && 0 <= borrow <= 1
    ensures Value(out) - (if borrow == 1 then Pow10(Dig(a)) else 0) == Value(a) - Value(Tail(b, |a|))
    ensures |a| <= |b| ==> Dig(Tail(b, |a|)) == Dig(a)
  {
    borrow := 0;
    out := "";
    var i := 0;
    SubStart(a, b);
    while i < |a|
      invariant SubState(a, b, i, out, borrow)
    {
      out, borrow := SubPosition(a, b, i, out, borrow);
      i := i + 1;
    }
    SubFinish(a, b, out, borrow);
  }

  lemma SubFinish(a: string, b: string, out: string, borrow: int)
    requires Aligned(a, b) && SubState(a, b, |a|, out, borrow)
    ensures Numeral(out) && ('.' in out <==> '.' in a) && Scale(out) == Scale(a) && Dig(out) == Dig(a)
    ensures Value(out) - (if borrow == 1 then Pow10(Dig(a)) else 0) == Value(a) - Value(Tail(b, |a|))
  {
    AlignedAt(a, b, 0);
    TailAll(a, |a|);
    DotsAtNumeral(out, '.' in a, Scale(a));
  }

  /**
   * What a digit loop with a dropped borrow leaves: v, below w, is a - b
   * modulo w once b is cut to its residue bt.
   */
  lemma SubModulo(a: int, b: int, bt: int, v: int, borrow: int, w: int)
    requires w >= 1 && 0 <= v < w && bt == b % w && 0 <= borrow <= 1
    requires v - (if borrow == 1 then w else 0) == a - bt
    ensures v == Wrap(a - b, w)
  {
    var q := b / w;
    assert b == q * w + bt;
    MulDistrib(-borrow, -q, w);
    ModUnique(a - b, w, -borrow - q, v);
    WrapMod(a - b, w);
  }

  /**
   * subtract_strings: the result is a numeral, never signed. Read at the
   * common scale, it is the difference modulo ten to the number of digits
   * of the aligned a, so it is exact when a is not below b and wraps
   * around otherwise. On integers it has digits only and no leading zero.
   */
  method SubtractStrings(a: string, b: string) returns (r: string)
    requires Numeral(a) && Numeral(b)
    ensures Numeral(r)
    ensures var u := CommonScale(a, b);
      && Scale(r) <= u
      && Scaled(r, u) == Wrap(Scaled(a, u) - Scaled(b, u), Pow10(Dig(a) + u - Scale(a)))
      && (Scaled(b, u) <= Scaled(a, u) ==> Scaled(r, u) == Scaled(a, u) - Scaled(b, u))
    ensures '.' !in a && '.' !in b ==> r != [] && AllDigits(r) && (r[0] == '0' ==> r == "0")
  {
    var x, y := AlignOperands(a, b);
    var out, borrow := SubtractAligned(x, y);
    var s := StripLeadingZeros(out);
    r := NormalizeDecimal(s);
    StripKeepsNumber(out);
    NormalizeKeepsNumber(s);
    DiffConclude(x, y, out, borrow);
    ValueBound(x);
    assert Scaled(r, Scale(x)) == Value(out);
    if '.' !in a && '.' !in b {
      NoDotDigits(r);
    }
  }

  /** The remainder left by SubtractAligned. */
  lemma DiffConclude(x: string, y: string, out: string, borrow: int)
    requires Aligned(x, y) && NumChars(out) && 0 <= borrow <= 1 && Dig(out) == Dig(x)
    requires Value(out) - (if borrow == 1 then Pow10(Dig(x)) else 0) == Value(x) - Value(Tail(y, |x|))
    requires |x| <= |y| ==> Dig(Tail(y, |x|)) == Dig(x)
    ensures Value(out) == Wrap(Value(x) - Value(y), Pow10(Dig(x)))
  {
    if |y| < |x| {
      DigLen(x);
      DigLen(y);
    }
    TailModulo(y, |x|, Dig(x));
    ValueBound(out);
    SubModulo(Value(x), Value(y), Value(Tail(y, |x|)), Value(out), borrow, Pow10(Dig(x)));
  }

  // ---------------------------------------------------------------------
  // Subtraction as intended: a signed difference
  // ---------------------------------------------------------------------

  /** Leading zeros make a numeral longer without changing what it reads. */
  lemma PadFront(m: nat, x: string)
    requires Numeral(x)
    ensures var z := Zeros(m) + x;
      && Numeral(z) && ('.' in z <==> '.' in x) && Value(z) == Value(x) && Scale(z) == Scale(x)
      && |z| == m + |x|
  {
    ZerosThen(m, x);
    ZerosValue(m);
    assert Numeral(Zeros(m));
    AppendNumeral(Zeros(m), x);
  }

  /**
   * On two aligned operands of one length the digit loop borrows at the
   * end exactly when a is the smaller, and is exact when it does not.
   */
  lemma SameLengthDiff(x: string, y: string, out: string, borrow: int)
    requires Aligned(x, y) && |x| == |y| && NumChars(out) && Dig(out) == Dig(x) && 0 <= borrow <= 1
    requires Value(out) - (if borrow == 1 then Pow10(Dig(x)) else 0) == Value(x) - Value(Tail(y, |x|))
    ensures borrow == 1 <==> Value(x) < Value(y)
    ensures borrow == 0 ==> Value(out) == Value(x) - Value(y)
  {
    TailAll(y, |x|);
    ValueBound(out);
    ValueBound(y);
    DigLen(x);
    DigLen(y);
  }

  /** s.rstrip("0").rstrip(".") first and the leading zeros after, so that at least "0" is left. */
  function Tidy(s: string): (r: string)
    requires Numeral(s)
    ensures r != [] && Numeral(r) && Scale(r) <= Scale(s) && Scaled(r, Scale(s)) == Value(s)
    ensures '.' !in s ==> AllDigits(r) && (r[0] == '0' ==> r == "0") && Value(r) == Value(s)
  {
    var n := NormalizeDecimal(s);
    NormalizeKeepsNumber(s);
    StripKeepsNumber(n);
    var r := StripLeadingZeros(n);
    TidyKeeps(s, n, r);
    r
  }

  lemma TidyKeeps(s: string, n: string, r: string)
    requires NumChars(s) && Numeral(n) && Scale(n) <= Scale(s) && Scaled(n, Scale(s)) == Value(s)
    requires '.' !in s ==> n == s
    requires Numeral(r) && Value(r) == Value(n) && Scale(r) == Scale(n) && ('.' in r <==> '.' in n)
    ensures Scale(r) <= Scale(s) && Scaled(r, Scale(s)) == Value(s)
    ensures '.' !in s ==> AllDigits(r) && Value(r) == Value(s)
  {
    ScaledSame(r, n, Scale(s), Value(n), Scale(n));
    if '.' !in s {
      NoDotDigits(r);
    }
  }

  /** Two numerals with the same number and scale read the same at any scale. */
  lemma ScaledSame(r: string, n: string, k: nat, v: nat, e: nat)
    requires NumChars(r) && NumChars(n) && Value(r) == v && Value(n) == v
    requires Scale(r) == e && Scale(n) == e && e <= k
    ensures Scaled(r, k) == Scaled(n, k)
  {
  }

  /** The digits of a signed result: r without a leading '-'. */
  function Unsigned(r: string): (m: string)
    ensures |m| <= |r|
  {
    if r != [] && r[0] == '-' then r[1..] else r
  }

  /**
   * subtract_strings as evidently intended: the operands are padded to one
   * length, the digit loop runs once, and when it ends with a borrow it runs
   * again the other way and the result gets a '-'. The digits then spell the
   * distance between a and b at the common scale, and the sign says which
   * is larger.
   */
  method SignedSubtract(a: string, b: string) returns (r: string)
    requires Numeral(a) && Numeral(b)
    ensures r != [] && Unsigned(r) != []
    ensures var u, m := CommonScale(a, b), Unsigned(r);
      && Numeral(m) && Scale(m) <= u
      && (r[0] == '-' <==> Scaled(a, u) < Scaled(b, u))
      && Scaled(m, u) == (if Scaled(a, u) < Scaled(b, u) then Scaled(b, u) - Scaled(a, u) else Scaled(a, u) - Scaled(b, u))
    ensures '.' !in a && '.' !in b ==> AllDigits(Unsigned(r)) && (Unsigned(r)[0] == '0' ==> Unsigned(r) == "0")
    ensures '.' !in a && '.' !in b ==>
      && (r[0] == '-' <==> Value(a) < Value(b))
      && Value(Unsigned(r)) == (if Value(a) < Value(b) then Value(b) - Value(a) else Value(a) - Value(b))
  {
    var x, y := AlignOperands(a, b);
    var x', y' := PadOperands(x, y);
    var negative, m := SubtractSameLength(x', y');
    r := if negative then "-" + m else m;
    SignedResult(r, m, negative);
    if '.' !in a && '.' !in b {
      DotlessScaled(a, b, m);
    }
  }

  /** Without points, the common scale is 0 and every numeral reads as its own digits. */
  lemma DotlessScaled(a: string, b: string, m: string)
    requires Numeral(a) && Numeral(b) && '.' !in a && '.' !in b && NumChars(m) && Scale(m) == 0
    ensures CommonScale(a, b) == 0 && Scaled(a, 0) == Value(a) && Scaled(b, 0) == Value(b) && Scaled(m, 0) == Value(m)
  {
  }

  /** Leading zeros on the shorter operand, so that both have one length. */
  method PadOperands(x: string, y: string) returns (x': string, y': string)
    requires Aligned(x, y)
    ensures Aligned(x', y') && |x'| == |y'|
    ensures Value(x') == Value(x) && Value(y') == Value(y) && Scale(x') == Scale(x)
    ensures '.' in x' <==> '.' in x
  {
    var n := Max(|x|, |y|);
    PadFront(n - |x|, x);
    PadFront(n - |y|, y);
    x', y' := Zeros(n - |x|) + x, Zeros(n - |y|) + y;
  }

  /** The signed difference of two aligned numerals of one length. */
  method SubtractSameLength(x: string, y: string) returns (negative: bool, m: string)
    requires Aligned(x, y) && |x| == |y|
    ensures Numeral(m) && m != [] && Scale(m) <= Scale(x)
    ensures negative <==> Value(x) < Value(y)
    ensures Scaled(m, Scale(x)) == if negative then Value(y) - Value(x) else Value(x) - Value(y)
    ensures '.' !in x ==> AllDigits(m) && (m[0] == '0' ==> m == "0")
  {
    var out, borrow := SubtractAligned(x, y);
    SameLengthDiff(x, y, out, borrow);
    negative := borrow == 1;
    if borrow == 0 {
      m := Tidy(out);
    } else {
      var back, again := SubtractAligned(y, x);
      SameLengthDiff(y, x, back, again);
      m := Tidy(back);
    }
  }

  lemma SignedResult(r: string, m: string, negative: bool)
    requires NumChars(m) && m != []
    requires negative ==> r == "-" + m
    requires !negative ==> r == m
    ensures r != [] && Unsigned(r) == m && (r[0] == '-' <==> negative)
  {
    if !negative {
      assert IsDigit(m[0]) || m[0] == '.';
    }
  }

  /** subtract_strings("3", "5") gives "8": the borrow out of the first digit is lost. */
  method SubtractWrapsAround() returns (r: string)
    ensures AllDigits(r) && Value(r) == 8
  {
    assert Value("3") == 3 && Value("5") == 5 && Dig("3") == 1;
    r := SubtractStrings("3", "5");
    assert Wrap(3 - 5, 10) == 8;
  }

  /** SignedSubtract("3", "5") gives "-2". */
  method SignedSubtractExample() returns (r: string)
    ensures r != [] && r[0] == '-' && AllDigits(Unsigned(r)) && Value(Unsigned(r)) == 2
  {
    assert Value("3") == 3 && Value("5") == 5;
    r := SignedSubtract("3", "5");
  }

  // ---------------------------------------------------------------------
  // multiply_strings
  // ---------------------------------------------------------------------

  /** A string of digits only is a numeral without a point, with one digit per character. */
  lemma DigitsNumeral(s: string)
    requires AllDigits(s)
    ensures Numeral(s) && '.' !in s && Dig(s) == |s| && Scale(s) == 0
  {
    assert forall k :: 0 <= k < |s| ==> s[k] != '.';
    NoDot(s);
  }

  lemma TailDigits(s: string, i: nat)
    requires AllDigits(s)
    ensures AllDigits(Tail(s, i)) && Numeral(Tail(s, i)) && Dig(Tail(s, i)) == |Tail(s, i)|
  {
    var t := Tail(s, i);
    forall k | 0 <= k < |t| ensures IsDigit(t[k]) {
      assert t[k] == s[|s| - |t| + k];
    }
    DigitsNumeral(t);
  }

  /** s.count(ch). */
  function CountChar(s: string, ch: char): (n: nat)
    ensures n <= |s| && (n == 0 <==> ch !in s)
  {
    if s == [] then 0
    else
      assert ch in s <==> s[0] == ch || ch in s[1..] by {
        assert s == [s[0]] + s[1..];
      }
      (if s[0] == ch then 1 else 0) + CountChar(s[1..], ch)
  }

  /** A numeral holds its point once or not at all. */
  lemma {:induction false} PointCount(s: string)
    requires Numeral(s)
    ensures CountChar(s, '.') == if '.' in s then 1 else 0
  {
    if s != [] {
      SliceNumeral(s, 1, |s|);
      PointCount(s[1..]);
      if s[0] == '.' {
        assert '.' !in s[1..] by {
          forall k | 0 <= k < |s[1..]| ensures s[1..][k] != '.' {
            assert s[1..][k] == s[k + 1];
          }
        }
      }
    }
  }

  /** s.replace(".", ""). */
  function RemovePoint(s: string): (r: string)
    ensures |r| <= |s| && (NumChars(s) ==> AllDigits(r))
  {
    if s == [] then [] else (if s[0] == '.' then [] else [s[0]]) + RemovePoint(s[1..])
  }

  /** Without its point a numeral keeps the integer its digits spell. */
  lemma {:induction false} RemovePointValue(s: string)
    requires NumChars(s)
    ensures Value(RemovePoint(s)) == Value(s) && |RemovePoint(s)| == Dig(s)
  {
    if s != [] {
      var rest := RemovePoint(s[1..]);
      RemovePointValue(s[1..]);
      DigitsNumeral(rest);
      ValueCons(s);
      if s[0] != '.' {
        var r := [s[0]] + rest;
        assert RemovePoint(s) == r;
        assert r[1..] == rest;
        ValueCons(r);
      } else {
        assert RemovePoint(s) == rest;
      }
    }
  }

  /**
   * The state of the inner loop of multiply_strings once j digits of x,
   * read from the end, are multiplied by d: t holds the i zeros the row
   * starts with and the digits written so far, and with the carry at the
   * next place it spells d times the last j digits of x, i places up.
   */
  ghost predicate MulState(x: string, d: int, i: nat, j: nat, t: string, carry: int) {
    && j <= |x| && AllDigits(x) && 0 <= d <= 9 && 0 <= carry <= 8
    && |t| == i + j && AllDigits(t) && NumChars(t) && NumChars(Tail(x, j))
    && Value(Tail(x, j)) * d * Pow10(i) == Value(t) + carry * Pow10(i + j)
  }

  lemma MulStart(x: string, d: int, i: nat)
    requires AllDigits(x) && 0 <= d <= 9
    ensures MulState(x, d, i, 0, Zeros(i), 0)
  {
    ZerosValue(i);
    assert Tail(x, 0) == [];
  }

  /** One digit of x times d: digit m is written and c carried, where m + 10 * c is the product plus the old carry. */
  lemma MulDigitStep(x: string, d: int, i: nat, j: nat, t: string, carry: int, m: nat, c: int, t': string)
    requires MulState(x, d, i, j, t, carry) && j < |x|
    requires m < 10 && 0 <= c && m + 10 * c == DigitValue(x[|x| - 1 - j]) * d + carry
    requires t' == [DigitChar(m)] + t
    ensures MulState(x, d, i, j + 1, t', c)
  {
    var da := DigitValue(x[|x| - 1 - j]);
    assert IsDigit(x[|x| - 1 - j]);
    MulAtMostNine(d, da);
    DigitsNumeral(t);
    TailDigits(x, j);
    ConsDigit(m, t);
    TailDigit(x, j, da, j);
    Pow10Add(j, i);
    MulArith(da, d, carry, m, c, Value(t), Value(Tail(x, j)), Pow10(i), Pow10(j), Pow10(i + j));
  }

  lemma MulArith(da: int, d: int, carry: int, m: int, c: int, vt: int, vx: int, p: int, w: int, q: int)
    requires q == w * p && m + 10 * c == da * d + carry && vx * d * p == vt + carry * q
    ensures (da * w + vx) * d * p == (m * q + vt) + c * (10 * q)
  {
    MulDistrib(da * w, vx, d);
    MulDistrib(da * w * d, vx * d, p);
    MulDistrib(m, 10 * c, q);
    assert da * w * d * p == da * d * q;
  }

  /** One step of the inner loop: the next digit of x, from the end, times d. */
  method MulPosition(x: string, d: int, i: nat, j: nat, t: string, carry: int) returns (t': string, carry': int)
    requires MulState(x, d, i, j, t, carry) && j < |x|
    ensures MulState(x, d, i, j + 1, t', carry')
  {
    assert IsDigit(x[|x| - 1 - j]);
    var prod := DigitValue(x[|x| - 1 - j]) * d + carry;
    carry' := prod / 10;
    t' := [DigitChar(prod % 10)] + t;
    MulDigitStep(x, d, i, j, t, carry, prod % 10, carry', t');
  }

  /** The inner loop has run over all of x: the last carry goes in front. */
  lemma MulFinish(x: string, d: int, i: nat, t: string, carry: int)
    requires MulState(x, d, i, |x|, t, carry)
    ensures carry != 0 ==> AllDigits([DigitChar(carry)] + t) && NumChars([DigitChar(carry)] + t)
    ensures carry != 0 ==> Value([DigitChar(carry)] + t) == Value(x) * d * Pow10(i)
    ensures carry == 0 ==> Value(t) == Value(x) * d * Pow10(i)
  {
    TailAll(x, |x|);
    DigitsNumeral(t);
    var q := Pow10(i + |x|);
    if carry != 0 {
      ConsDigit(carry, t);
    } else {
      assert carry * q == 0;
    }
  }

  /**
   * One row of multiply_strings: i zeros, then the digits of x times the
   * digit d written from the end with the carry, and the last carry in
   * front. The row spells x times d, i places up.
   */
  method MultiplyByDigit(x: string, d: int, i: nat) returns (t: string)
    requires AllDigits(x) && 0 <= d <= 9
    ensures AllDigits(t) && |t| >= |x| + i && Value(t) == Value(x) * d * Pow10(i)
  {
    t := Zeros(i);
    var carry := 0;
    var j := 0;
    MulStart(x, d, i);
    while j < |x|
      invariant MulState(x, d, i, j, t, carry)
    {
      t, carry := MulPosition(x, d, i, j, t, carry);
      j := j + 1;
    }
    MulFinish(x, d, i, t, carry);
    if carry != 0 {
      t := [DigitChar(carry)] + t;
    }
  }

  /** The outer loop of multiply_strings once the last i digits of y have been used. */
  ghost predicate ProductState(x: string, y: string, i: nat, res: string) {
    && i <= |y| && AllDigits(x) && AllDigits(y) && AllDigits(res) && res != []
    && NumChars(res) && NumChars(x) && NumChars(Tail(y, i))
    && Value(res) == Value(x) * Value(Tail(y, i))
    && (i > 0 ==> |res| >= |x| + i - 1)
  }

  lemma ProductStart(x: string, y: string)
    requires AllDigits(x) && AllDigits(y)
    ensures ProductState(x, y, 0, "0")
  {
    assert Tail(y, 0) == [];
    ValueCons("0");
    assert "0"[1..] == [];
  }

  /** Adding the row for digit db of y extends the product by one more digit of y. */
  lemma RowValue(x: string, y: string, i: nat, db: int, vr: int, vt: int, vr': int)
    requires AllDigits(x) && AllDigits(y) && i < |y| && db == DigitValue(y[|y| - 1 - i])
    requires vr == Value(x) * Value(Tail(y, i)) && vt == Value(x) * db * Pow10(i) && vr' == vr + vt
    ensures NumChars(Tail(y, i + 1)) && vr' == Value(x) * Value(Tail(y, i + 1))
  {
    assert IsDigit(y[|y| - 1 - i]);
    TailDigits(y, i);
    TailDigit(y, i, db, i);
    MulDistrib3Rows(Value(x), db, Pow10(i), Value(Tail(y, i)));
  }

  lemma MulDistrib3Rows(v: int, d: int, p: int, t: int)
    ensures v * (d * p + t) == v * d * p + v * t
  {
  }

  /** One step of the outer loop: the next digit of y, from the end, gives a row added to the result. */
  method ProductRow(x: string, y: string, i: nat, res: string) returns (res': string)
    requires ProductState(x, y, i, res) && i < |y|
    ensures ProductState(x, y, i + 1, res')
  {
    assert IsDigit(y[|y| - 1 - i]);
    var db := DigitValue(y[|y| - 1 - i]);
    var temp := MultiplyByDigit(x, db, i);
    DigitsNumeral(res);
    DigitsNumeral(temp);
    res' := AddStrings(res, temp);
    RowValue(x, y, i, db, Value(res), Value(temp), Value(res'));
  }

  /**
   * The two loops of multiply_strings on point-free operands: the digits,
   * starting from "0", of x times y. The result may keep leading zeros and
   * is at least one character shorter than x and y together.
   */
  method MultiplyDigits(x: string, y: string) returns (res: string)
    requires AllDigits(x) && AllDigits(y)
    ensures AllDigits(res) && res != [] && Value(res) == Value(x) * Value(y)
    ensures |y| > 0 ==> |res| >= |x| + |y| - 1
  {
    res := "0";
    var i := 0;
    ProductStart(x, y);
    while i < |y|
      invariant ProductState(x, y, i, res)
    {
      res := ProductRow(x, y, i, res);
      i := i + 1;
    }
    TailAll(y, |y|);
  }

  /**
   * res[:-k] + "." + res[-k:] for k >= 1, with Python's slicing: when res
   * is shorter than k, all of it goes after the point.
   */
  function SlicePoint(res: string, k: nat): (r: string)
    requires k >= 1
    ensures |r| == |res| + 1
  {
    var m := if k <= |res| then k else |res|;
    res[..|res| - m] + "." + res[|res| - m..]
  }

  /** The point k places from the end, after as many leading zeros as that needs. */
  function PlacePoint(res: string, k: nat): (r: string)
  {
    if k == 0 then res else SlicePoint(Zeros(if k <= |res| then 0 else k - |res|) + res, k)
  }

  /**
   * Slicing a point into a string of digits keeps the integer they spell
   * and leaves k decimals, or only |res| when res is shorter than k.
   */
  lemma SlicePointValue(res: string, k: nat)
    requires AllDigits(res) && k >= 1
    ensures var r := SlicePoint(res, k);
      && Numeral(r) && '.' in r && Value(r) == Value(res)
      && Scale(r) == if k <= |res| then k else |res|
  {
    var n := if k <= |res| then |res| - k else 0;
    SplitDigits(res, n);
    PointBetween(res[..n], res[n..]);
  }

  lemma SplitDigits(res: string, n: nat)
    requires AllDigits(res) && n <= |res|
    ensures AllDigits(res[..n]) && AllDigits(res[n..]) && res == res[..n] + res[n..]
  {
  }

  /** A point between two strings of digits leaves the integer they spell together, with the second as decimals. */
  lemma PointBetween(p: string, q: string)
    requires AllDigits(p) && AllDigits(q)
    ensures var r := p + "." + q;
      && Numeral(r) && '.' in r && NumChars(p + q) && Value(r) == Value(p + q) && Scale(r) == |q|
  {
    DigitsNumeral(p);
    DigitsNumeral(q);
    PointAppended(p);
    AppendNumeral(p, ".");
    AppendNumeral(p + ".", q);
    ValueAppend(p + ".", q);
    ValueAppend(p, q);
    ScaleAppend(p + ".", q);
    assert (p + "." + q)[|p|] == '.';
  }

  /** With the zeros it needs in front, the point lands exactly k places from the end. */
  lemma PlacePointValue(res: string, k: nat)
    requires AllDigits(res)
    ensures var r := PlacePoint(res, k);
      && Numeral(r) && ('.' in r <==> k > 0) && Value(r) == Value(res) && Scale(r) == k
  {
    if k == 0 {
      DigitsNumeral(res);
    } else {
      var z := Zeros(if k <= |res| then 0 else k - |res|) + res;
      ZerosThen(if k <= |res| then 0 else k - |res|, res);
      assert AllDigits(z);
      SlicePointValue(z, k);
    }
  }

  /** SlicePoint and PlacePoint agree whenever res has at least k digits. */
  lemma SlicePlaceAgree(res: string, k: nat)
    requires 1 <= k <= |res|
    ensures SlicePoint(res, k) == PlacePoint(res, k)
  {
    assert Zeros(0) + res == res;
  }

  /**
   * multiply_strings: the points are counted and removed, the digits
   * multiplied, and a point slid in as many places from the end as there
   * were points. Read at that many places the result spells the product of
   * the two digit strings, so it is right only when the points counted
   * equal the decimals the operands have. Where the product has fewer
   * digits than points, the contract says nothing.
   */
  method MultiplyStrings(a: string, b: string) returns (r: string)
    requires Numeral(a) && Numeral(b)
    ensures Numeral(r)
    ensures var k := CountChar(a, '.') + CountChar(b, '.');
      (k <= 1 || (Dig(b) > 0 && k <= Dig(a) + Dig(b) - 1)) ==> Scale(r) <= k && Scaled(r, k) == Value(a) * Value(b)
    ensures '.' !in a && '.' !in b ==> AllDigits(r) && Value(r) == Value(a) * Value(b)
  {
    var decs := CountChar(a, '.') + CountChar(b, '.');
    var x, y := RemovePoint(a), RemovePoint(b);
    RemovePointValue(a);
    RemovePointValue(b);
    var res := MultiplyDigits(x, y);
    r := SliceAndNormalize(res, decs);
  }

  /** The last lines of multiply_strings: the point slid in when there is one to place, then normalize_decimal. */
  method SliceAndNormalize(res: string, decs: nat) returns (r: string)
    requires AllDigits(res)
    ensures Numeral(r)
    ensures decs <= |res| ==> Scale(r) <= decs && Scaled(r, decs) == Value(res)
    ensures decs == 0 ==> AllDigits(r) && Value(r) == Value(res)
  {
    var s := res;
    if decs > 0 {
      SlicePointValue(res, decs);
      s := SlicePoint(res, decs);
    } else {
      DigitsNumeral(res);
    }
    r := NormalizeDecimal(s);
    NormalizeKeepsNumber(s);
    if decs == 0 {
      DigitsNumeral(r);
    }
  }

  /**
   * multiply_strings as evidently intended: the point goes as many places
   * from the end as the operands have decimals together, so that read at
   * that scale the result spells the product of the two numerals.
   */
  method MultiplyDecimals(a: string, b: string) returns (r: string)
    requires Numeral(a) && Numeral(b)
    ensures Numeral(r) && Scale(r) <= Scale(a) + Scale(b)
    ensures Scaled(r, Scale(a) + Scale(b)) == Value(a) * Value(b)
    ensures '.' !in a && '.' !in b ==> AllDigits(r) && Value(r) == Value(a) * Value(b)
  {
    var decs := Scale(a) + Scale(b);
    var x, y := RemovePoint(a), RemovePoint(b);
    RemovePointValue(a);
    RemovePointValue(b);
    var res := MultiplyDigits(x, y);
    r := PlaceAndNormalize(res, decs);
  }

  /** The point placed k digits from the end of the product digits, then normalize_decimal. */
  method PlaceAndNormalize(res: string, k: nat) returns (r: string)
    requires AllDigits(res)
    ensures Numeral(r) && Scale(r) <= k && Scaled(r, k) == Value(res)
    ensures k == 0 ==> AllDigits(r) && Value(r) == Value(res)
  {
    PlacePointValue(res, k);
    var s := PlacePoint(res, k);
    r := NormalizeDecimal(s);
    NormalizeKeepsNumber(s);
    if k == 0 {
      DigitsNumeral(r);
    }
  }

  lemma OneTwentyFive()
    ensures Numeral("1.25") && Value("1.25") == 125 && Scale("1.25") == 2 && CountChar("1.25", '.') == 1
    ensures Numeral("2") && Value("2") == 2 && Scale("2") == 0 && CountChar("2", '.') == 0
  {
    assert "1.25"[1..] == ".25" && ".25"[1..] == "25" && "25"[1..] == "5" && "5"[1..] == [];
    assert "2"[1..] == [];
    assert Value("5") == 5 && Dig("5") == 1;
    assert Value("25") == 25 && Dig("25") == 2;
    assert Value(".25") == 25 && Dig(".25") == 2;
  }

  /** multiply_strings("1.25", "2") gives "25": one point counted, so the point of 250 goes one place in. */
  method MultiplyCountsPoints() returns (r: string)
    ensures NumChars(r) && Scale(r) <= 1 && Scaled(r, 1) == 250
  {
    OneTwentyFive();
    r := MultiplyStrings("1.25", "2");
  }

  /** MultiplyDecimals("1.25", "2") reads 2.50, two decimals being the sum of the operands' decimals. */
  method MultiplyDecimalsExample() returns (r: string)
    ensures NumChars(r) && Scale(r) <= 2 && Scaled(r, 2) == 250
  {
    OneTwentyFive();
    r := MultiplyDecimals("1.25", "2");
  }

  // ---------------------------------------------------------------------
  // divide_strings
  // ---------------------------------------------------------------------

  /** How a call ends: with a string, with a raised exception, or still inside its loop after some steps. */
  datatype Outcome = Returned(text: string) | Raised(error: Error) | StillRunning(steps: nat)

  lemma StripDigits(s: string)
    requires AllDigits(s)
    ensures AllDigits(StripLeadingZeros(s)) && Value(StripLeadingZeros(s)) == Value(s)
  {
    DigitsNumeral(s);
    StripKeepsNumber(s);
    var r := StripLeadingZeros(s);
    if r != "0" {
      forall k | 0 <= k < |r| ensures IsDigit(r[k]) {
        assert r[k] == s[|s| - |r| + k];
      }
    }
  }

  /** The digits of a numeral, point removed, are a string of digits of the same integer. */
  lemma DigitsOf(s: string)
    requires Numeral(s)
    ensures AllDigits(RemovePoint(s)) && Value(RemovePoint(s)) == Value(s)
  {
    RemovePointValue(s);
  }

  /**
   * The test of the inner loop of divide_strings,
   * subtract_strings(remainder, b)[0] != "-": subtract_strings never
   * returns a sign, so the test never fails.
   */
  method DivideGuard(remainder: string, b: string) returns (g: bool)
    requires AllDigits(remainder) && AllDigits(b)
    ensures g
  {
    DigitsNumeral(remainder);
    DigitsNumeral(b);
    var d := SubtractStrings(remainder, b);
    g := d[0] != '-';
  }

  /**
   * divide_strings: it raises ZeroDivisionError when b is the string "0".
   * Otherwise the inner loop on the first digit of the dividend never
   * ends, because its test never fails; after any number of steps the
   * call is still in it. Nothing after that loop is ever reached.
   */
  method DivideStrings(a: string, b: string, fuel: nat) returns (o: Outcome)
    requires Numeral(a) && Numeral(b)
    ensures b == "0" <==> o == Raised(Error(ZeroDivisionError, "division by zero"))
    ensures b != "0" ==> o == StillRunning(fuel)
  {
    if b == "0" {
      return Raised(Error(ZeroDivisionError, "division by zero"));
    }
    var x, y := a, b;
    if '.' in x {
      x := RemovePoint(x);
    }
    if '.' in y {
      y := RemovePoint(y);
    }
    DigitsOf(a);
    DigitsOf(b);
    if '.' !in a {
      NoDotDigits(a);
    }
    if '.' !in b {
      NoDotDigits(b);
    }
    x := x + Zeros(Precision);
    assert AllDigits(x);
    assert AllDigits("0" + [x[0]]);
    // the first pass of the loop over the digits of the dividend
    var remainder := StripLeadingZeros("0" + [x[0]]);
    StripDigits("0" + [x[0]]);
    var count := 0;
    var go := DivideGuard(remainder, y);
    while go && count < fuel
      invariant AllDigits(remainder) && count <= fuel && go
    {
      DigitsNumeral(remainder);
      DigitsNumeral(y);
      remainder := SubtractStrings(remainder, y);
      count := count + 1;
      go := DivideGuard(remainder, y);
    }
    o := StillRunning(count);
  }

  /**
   * The inner loop of divide_strings as evidently intended: b is taken
   * away from the remainder while the signed difference has no '-', and
   * the subtractions are counted.
   */
  method CountSubtractions(r: string, y: string) returns (count: nat, left: string)
    requires AllDigits(r) && r != [] && AllDigits(y) && Value(y) > 0
    ensures AllDigits(left) && left != [] && Value(left) < Value(y)
    ensures Value(r) == count * Value(y) + Value(left)
  {
    left, count := r, 0;
    var negative := Below(left, y);
    while !negative
      invariant AllDigits(left) && left != []
      invariant Value(r) == count * Value(y) + Value(left)
      invariant negative <==> Value(left) < Value(y)
      decreases Value(left)
    {
      var e := TakeAway(left, y);
      CountStep(Value(r), count, Value(y), Value(left), Value(e));
      left, count := e, count + 1;
      negative := Below(left, y);
    }
  }

  lemma CountStep(v: int, c: int, w: int, l: int, e: int)
    requires v == c * w + l && e == l - w
    ensures v == (c + 1) * w + e
  {
  }

  /** The loop test: the signed difference of the remainder and b starts with '-'. */
  method Below(left: string, y: string) returns (negative: bool)
    requires AllDigits(left) && AllDigits(y)
    ensures negative <==> Value(left) < Value(y)
  {
    DigitsNumeral(left);
    DigitsNumeral(y);
    var d := SignedSubtract(left, y);
    negative := d[0] == '-';
  }

  /** The loop body: the remainder becomes the difference, which has no sign. */
  method TakeAway(left: string, y: string) returns (e: string)
    requires AllDigits(left) && AllDigits(y) && Value(left) >= Value(y)
    ensures AllDigits(e) && e != [] && Value(e) == Value(left) - Value(y)
  {
    DigitsNumeral(left);
    DigitsNumeral(y);
    e := SignedSubtract(left, y);
    assert Unsigned(e) == e;
  }

  /**
   * The state of the digit loop of the intended long division after i
   * digits of x: the quotient digits times y, plus the remainder, spell
   * the first i digits of x, and the remainder is below y.
   */
  ghost predicate DivState(x: string, y: string, i: nat, q: string, rem: string) {
    && i <= |x| && AllDigits(x) && AllDigits(y) && Value(y) > 0
    && AllDigits(q) && |q| == i && AllDigits(rem) && rem != []
    && NumChars(q) && NumChars(rem) && NumChars(x[..i])
    && Value(rem) < Value(y) && Value(q) * Value(y) + Value(rem) == Value(x[..i])
  }

  lemma DivStart(x: string, y: string)
    requires AllDigits(x) && AllDigits(y) && Value(y) > 0
    ensures DivState(x, y, 0, "", "0")
  {
    assert x[..0] == [];
    ValueCons("0");
    assert "0"[1..] == [];
  }

  /** Appending a digit to a string of digits multiplies it by ten and adds the digit. */
  lemma AppendDigit(s: string, c: char)
    requires AllDigits(s) && IsDigit(c)
    ensures AllDigits(s + [c]) && Value(s + [c]) == Value(s) * 10 + DigitValue(c)
  {
    DigitsNumeral(s);
    DigitsNumeral([c]);
    ValueAppend(s, [c]);
    ValueCons([c]);
    assert [c][1..] == [];
  }

  lemma DivArith(vq: int, w: int, rem: int, d: int, count: int, left: int, vx: int, vq': int, vx': int)
    requires vq * w + rem == vx
    requires count * w + left == rem * 10 + d
    requires vq' == vq * 10 + count && vx' == vx * 10 + d
    ensures vq' * w + left == vx'
  {
    MulDistrib(vq * 10, count, w);
    MulAssoc(vq, 10, w);
  }

  /** One digit of the intended long division: bring the next digit down, count the subtractions, write the count. */
  method DivPosition(x: string, y: string, i: nat, q: string, rem: string) returns (q': string, rem': string)
    requires DivState(x, y, i, q, rem) && i < |x|
    ensures DivState(x, y, i + 1, q', rem')
  {
    assert IsDigit(x[i]);
    var r := BringDown(rem, x[i]);
    var count, left := CountSubtractions(r, y);
    DivNext(x, y, i, q, rem, count, left);
    q', rem' := q + [DigitChar(count)], left;
  }

  /** remainder = strip_leading_zeros(remainder + digit). */
  method BringDown(rem: string, c: char) returns (r: string)
    requires AllDigits(rem) && IsDigit(c)
    ensures AllDigits(r) && r != [] && Value(r) == Value(rem) * 10 + DigitValue(c)
  {
    AppendDigit(rem, c);
    r := StripLeadingZeros(rem + [c]);
    StripDigits(rem + [c]);
  }

  /** One more digit of x read from the front. */
  lemma PrefixDigit(x: string, i: nat)
    requires AllDigits(x) && i < |x|
    ensures IsDigit(x[i]) && AllDigits(x[..i + 1]) && Value(x[..i + 1]) == Value(x[..i]) * 10 + DigitValue(x[i])
  {
    assert x[..i + 1] == x[..i] + [x[i]];
    assert AllDigits(x[..i]);
    AppendDigit(x[..i], x[i]);
  }

  /** The count of subtractions is the next quotient digit. */
  lemma DivNext(x: string, y: string, i: nat, q: string, rem: string, count: nat, left: string)
    requires DivState(x, y, i, q, rem) && i < |x|
    requires AllDigits(left) && left != [] && Value(left) < Value(y)
    requires count * Value(y) + Value(left) == Value(rem) * 10 + DigitValue(x[i])
    ensures count < 10 && DivState(x, y, i + 1, q + [DigitChar(count)], left)
  {
    PrefixDigit(x, i);
    DivCount(Value(y), Value(rem), DigitValue(x[i]), count, Value(left));
    AppendDigit(q, DigitChar(count));
    DigitsNumeral(left);
    DivArith(Value(q), Value(y), Value(rem), DigitValue(x[i]), count, Value(left), Value(x[..i]),
      Value(q + [DigitChar(count)]), Value(x[..i + 1]));
  }

  lemma DivCount(w: int, rem: int, d: int, count: int, left: int)
    requires w > 0 && 0 <= rem < w && 0 <= d <= 9
    requires count >= 0 && count * w + left == rem * 10 + d && 0 <= left < w
    ensures count < 10
  {
    if count >= 10 {
      MulAtLeast(count - 9, w);
      MulDistrib(count - 10, 10, w);
    }
  }

  /** A quotient and a remainder below the divisor are the integer quotient. */
  lemma DivUnique(v: int, w: int, q: int, r: int)
    requires w > 0 && 0 <= r < w && q * w + r == v
    ensures q == v / w
  {
    var q', r' := v / w, v % w;
    if q' > q {
      MulAtLeast(q' - q, w);
      MulDistrib(q' - q, q, w);
    } else if q' < q {
      MulAtLeast(q - q', w);
      MulDistrib(q - q', q', w);
    }
  }

  /** The digit loop of the intended long division: one quotient digit per digit of x. */
  method LongDivide(x: string, y: string) returns (q: string)
    requires AllDigits(x) && AllDigits(y) && Value(y) > 0
    ensures AllDigits(q) && |q| == |x| && Value(q) == Value(x) / Value(y)
  {
    q := "";
    var rem := "0";
    var i := 0;
    DivStart(x, y);
    while i < |x|
      invariant DivState(x, y, i, q, rem)
    {
      q, rem := DivPosition(x, y, i, q, rem);
      i := i + 1;
    }
    assert x[..|x|] == x;
    DivUnique(Value(x), Value(y), Value(q), Value(rem));
  }

  /** Zeros behind a string of digits multiply its integer by a power of ten. */
  lemma DigitsThenZeros(s: string, m: nat)
    requires AllDigits(s)
    ensures AllDigits(s + Zeros(m)) && Value(s + Zeros(m)) == Value(s) * Pow10(m)
  {
    DigitsNumeral(s);
    PadZeros(s, m);
  }

  /**
   * The last lines of divide_strings as evidently intended: the quotient
   * digits lose their leading zeros and get the point k places from the
   * end, with the zeros in front that this may need; when k is negative
   * they get -k zeros behind instead.
   */
  method PlaceQuotient(q: string, k: int) returns (r: string)
    requires AllDigits(q)
    ensures Numeral(r)
    ensures k >= 0 ==> Scale(r) <= k && Scaled(r, k) == Value(q)
    ensures k < 0 ==> AllDigits(r) && Value(r) == Value(q) * Pow10(-k)
  {
    var res := StripLeadingZeros(q);
    StripDigits(q);
    var placed := res;
    if k > 0 {
      PlacePointValue(res, k);
      placed := PlacePoint(res, k);
    } else if k < 0 {
      DigitsThenZeros(res, -k);
      placed := res + Zeros(-k);
      DigitsNumeral(placed);
    } else {
      DigitsNumeral(res);
    }
    r := NormalizeDecimal(placed);
    NormalizeKeepsNumber(placed);
    if k < 0 {
      NoDotDigits(r);
    }
  }

  /**
   * divide_strings as evidently intended: a divisor whose digits are all
   * zeros raises ZeroDivisionError, and otherwise the long division runs
   * over the digits of a followed by Precision zeros. Read at k places,
   * where k is the decimals of a plus Precision less the decimals of b,
   * the result spells the integer quotient of the digits of a, times ten
   * to the Precision, by the digits of b: a / b cut after k decimals.
   */
  method DivideDecimals(a: string, b: string) returns (o: Outcome)
    requires Numeral(a) && Numeral(b)
    ensures Value(b) == 0 <==> o == Raised(Error(ZeroDivisionError, "division by zero"))
    ensures Value(b) != 0 ==> o.Returned? && Numeral(o.text)
    ensures Value(b) != 0 && Scale(b) <= Scale(a) + Precision ==>
      && Scale(o.text) <= Scale(a) + Precision - Scale(b)
      && Scaled(o.text, Scale(a) + Precision - Scale(b)) == Value(a) * Pow10(Precision) / Value(b)
    ensures Value(b) != 0 && Scale(b) > Scale(a) + Precision ==>
      Value(o.text) == Value(a) * Pow10(Precision) / Value(b) * Pow10(Scale(b) - Scale(a) - Precision)
  {
    var x, y := RemovePoint(a), RemovePoint(b);
    DigitsOf(a);
    DigitsOf(b);
    if Value(y) == 0 {
      return Raised(Error(ZeroDivisionError, "division by zero"));
    }
    var decs := Scale(a) - Scale(b);
    DigitsThenZeros(x, Precision);
    var q := LongDivide(x + Zeros(Precision), y);
    var r := PlaceQuotient(q, decs + Precision);
    o := Returned(r);
  }

  /** DivideDecimals("10", "4") reads 2.50000. */
  method DivideDecimalsExample() returns (o: Outcome)
    ensures o.Returned? && NumChars(o.text) && Scale(o.text) <= 5 && Scaled(o.text, 5) == 250000
  {
    assert "10"[1..] == "0" && "0"[1..] == [] && "4"[1..] == [];
    assert Value("0") == 0 && Value("10") == 10 && Value("4") == 4;
    o := DivideDecimals("10", "4");
  }

  /** divide_strings("10", "4") never returns: after any number of steps it is still subtracting. */
  method DivideNeverReturns(fuel: nat) returns (o: Outcome)
    ensures o == StillRunning(fuel)
  {
    o := DivideStrings("10", "4", fuel);
  }

  // ---------------------------------------------------------------------
  // string_calculator
  // ---------------------------------------------------------------------

  lemma ErrNotNumeral()
    ensures !NumChars("ERR") && Unsigned("ERR") == "ERR"
  {
    assert !IsDigit("ERR"[0]) && "ERR"[0] != '.';
  }

  /**
   * string_calculator on two strings: the operation named by op, or "ERR"
   * when op names none of the four. Only an unknown op gives "ERR", since
   * every result of the four is a numeral. Each result carries the value its
   * operation promises: the sum, the difference modulo a power of ten, the
   * product when the counted points fit, and the endless division loop.
   */
  method Calculate(x: string, y: string, op: string, fuel: nat) returns (o: Outcome)
    requires Numeral(x) && Numeral(y)
    ensures o == Returned("ERR") <==> op != "+" && op != "-" && op != "*" && op != "/"
    ensures op == "+" || op == "-" || op == "*" ==> o.Returned? && Numeral(o.text)
    ensures op == "+" ==> var t := Max(Max(Scale(x), Scale(y)), Scale(o.text));
      Scaled(o.text, t) == Scaled(x, t) + Scaled(y, t)
    ensures op == "-" ==> var u := CommonScale(x, y);
      && Scale(o.text) <= u
      && Scaled(o.text, u) == Wrap(Scaled(x, u) - Scaled(y, u), Pow10(Dig(x) + u - Scale(x)))
      && (Scaled(y, u) <= Scaled(x, u) ==> Scaled(o.text, u) == Scaled(x, u) - Scaled(y, u))
    ensures op == "*" ==> var k := CountChar(x, '.') + CountChar(y, '.');
      (k <= 1 || (Dig(y) > 0 && k <= Dig(x) + Dig(y) - 1)) ==> Scale(o.text) <= k && Scaled(o.text, k) == Value(x) * Value(y)
    ensures op == "/" ==> (o.Raised? <==> y == "0") && (y != "0" ==> o == StillRunning(fuel))
  {
    ErrNotNumeral();
    if op == "+" {
      var r := AddStrings(x, y);
      o := Returned(r);
    } else if op == "-" {
      var r := SubtractStrings(x, y);
      o := Returned(r);
    } else if op == "*" {
      var r := MultiplyStrings(x, y);
      o := Returned(r);
    } else if op == "/" {
      o := DivideStrings(x, y, fuel);
    } else {
      o := Returned("ERR");
    }
  }

  /**
   * string_calculator with the corrected subtraction, multiplication and
   * division. Division by a zero of any spelling raises; the other results
   * are numerals, with a '-' in front for a negative difference, and each
   * carries the value of its corrected operation.
   */
  method CalculateCorrected(x: string, y: string, op: string) returns (o: Outcome)
    requires Numeral(x) && Numeral(y)
    ensures o == Returned("ERR") <==> op != "+" && op != "-" && op != "*" && op != "/"
    ensures op == "+" || op == "*" ==> o.Returned? && Numeral(o.text)
    ensures op == "+" ==> var t := Max(Max(Scale(x), Scale(y)), Scale(o.text));
      Scaled(o.text, t) == Scaled(x, t) + Scaled(y, t)
    ensures op == "-" ==> o.Returned? && o.text != [] && Numeral(Unsigned(o.text))
    ensures op == "-" ==> var u, m := CommonScale(x, y), Unsigned(o.text);
      && Scale(m) <= u
      && (o.text[0] == '-' <==> Scaled(x, u) < Scaled(y, u))
      && Scaled(m, u) == (if Scaled(x, u) < Scaled(y, u) then Scaled(y, u) - Scaled(x, u) else Scaled(x, u) - Scaled(y, u))
    ensures op == "*" ==> Scale(o.text) <= Scale(x) + Scale(y) && Scaled(o.text, Scale(x) + Scale(y)) == Value(x) * Value(y)
    ensures op == "/" ==> (o.Raised? <==> Value(y) == 0) && (Value(y) != 0 ==> o.Returned? && Numeral(o.text))
    ensures op == "/" && Value(y) != 0 && Scale(y) <= Scale(x) + Precision ==>
      && Scale(o.text) <= Scale(x) + Precision - Scale(y)
      && Scaled(o.text, Scale(x) + Precision - Scale(y)) == Value(x) * Pow10(Precision) / Value(y)
    ensures op == "/" && Value(y) != 0 && Scale(y) > Scale(x) + Precision ==>
      Value(o.text) == Value(x) * Pow10(Precision) / Value(y) * Pow10(Scale(y) - Scale(x) - Precision)
  {
    ErrNotNumeral();
    if op == "+" {
      var r := AddStrings(x, y);
      o := Returned(r);
    } else if op == "-" {
      var r := SignedSubtract(x, y);
      o := Returned(r);
    } else if op == "*" {
      var r := MultiplyDecimals(x, y);
      o := Returned(r);
    } else if op == "/" {
      o := DivideDecimals(x, y);
    } else {
      o := Returned("ERR");
    }
  }
}
