/**
 * String reversal "via binary shifts": every character's code is taken
 * apart into its low eight bits, the bit list is reversed, and the code
 * is rebuilt by placing the i-th reversed bit at position 7 - i. The two
 * reversals cancel, so each character keeps its low byte, and the list of
 * rebuilt characters is finally reversed. Characters are Unicode scalar
 * values, so codes are below 0x110000 and fit in 32 bits.
 */
module BitReverse {
  import opened PyStr

  /** ord(c) & 0xFF, as a character. */
  function LowByte(c: char): (d: char)
    ensures d as int == c as int % 256
  {
    (c as int % 256) as char
  }

  function LowBytes(text: string): (r: string)
    ensures |r| == |text|
    ensures forall k :: 0 <= k < |text| ==> r[k] == LowByte(text[k])
  {
    if text == [] then [] else [LowByte(text[0])] + LowBytes(text[1..])
  }

  // ---------------------------------------------------------------------
  // Python's shifts and bitwise OR on non-negative integers
  // ---------------------------------------------------------------------

  function Pow2(k: nat): (p: nat)
    ensures p >= 1
  {
    if k == 0 then 1 else 2 * Pow2(k - 1)
  }

  /** v >> k */
  function Shr(v: nat, k: nat): nat {
    var p := Pow2(k);
    DivNonNegative(v, p);
    v / p
  }

  lemma DivNonNegative(v: nat, p: nat)
    requires p > 0
    ensures v / p >= 0
  {
    var q := v / p;
    assert v == q * p + v % p;
    MulBound(q, p);
  }

  /** v << k */
  function Shl(v: nat, k: nat): nat {
    v * Pow2(k)
  }

  /** a | b, bit by bit from the least significant end. */
  function BitOr(a: nat, b: nat): nat
    decreases a + b
  {
    if a == 0 then b
    else if b == 0 then a
    else 2 * BitOr(a / 2, b / 2) + (if a % 2 == 1 || b % 2 == 1 then 1 else 0)
  }

  /** OR-ing a single bit below the lowest set bit of a is addition. */
  lemma {:induction false} OrBelow(t: nat, bit: nat, k: nat)
    requires bit <= 1
    ensures BitOr(t * Pow2(k + 1), bit * Pow2(k)) == t * Pow2(k + 1) + bit * Pow2(k)
  {
    var a, b := t * Pow2(k + 1), bit * Pow2(k);
    if a != 0 && b != 0 {
      if k == 0 {
        assert b == 1 && a == 2 * t;
        assert BitOr(a / 2, 0) == a / 2;
      } else {
        assert a == 2 * (t * Pow2(k));
        assert b == 2 * (bit * Pow2(k - 1));
        OrBelow(t, bit, k - 1);
      }
    }
  }

  lemma DivModUnique(v: nat, d: nat, q: nat, r: nat)
    requires d > 0 && v == q * d + r && r < d
    ensures v / d == q && v % d == r
  {
    var q', r' := v / d, v % d;
    var x: int := q - q';
    assert x * d == r' - r;
    MulBound(x, d);
  }

  lemma MulBound(x: int, d: int)
    requires d >= 0
    ensures x >= 1 ==> x * d >= d
    ensures x <= -1 ==> x * d <= -d
  {
    if x >= 1 {
      assert (x - 1) * d >= 0;
      assert x * d == d + (x - 1) * d;
    } else if x <= -1 {
      assert (x + 1) * d <= 0;
      assert x * d == -d + (x + 1) * d;
    }
  }

  /** v / (2m) == (v / m) / 2 */
  lemma DivTwice(v: nat, m: nat)
    requires m > 0
    ensures v / (2 * m) == (v / m) / 2
  {
    var w := v / m;
    assert v == m * w + v % m;
    assert w == 2 * (w / 2) + w % 2;
    assert v == (w / 2) * (2 * m) + (m * (w % 2) + v % m);
    DivModUnique(v, 2 * m, w / 2, m * (w % 2) + v % m);
  }

  /** w % (2p) == 2 * ((w / 2) % p) + w % 2 */
  lemma ModDouble(w: nat, p: nat)
    requires p > 0
    ensures w % (2 * p) == 2 * ((w / 2) % p) + w % 2
  {
    var h := w / 2;
    assert w == 2 * h + w % 2;
    assert h == p * (h / p) + h % p;
    assert w == (h / p) * (2 * p) + (2 * (h % p) + w % 2);
    DivModUnique(w, 2 * p, h / p, 2 * (h % p) + w % 2);
  }

  /** Bits 8 - n .. 7 of the code, still in place: what is rebuilt after n steps. */
  function TopBits(value: nat, n: nat): nat
    requires n <= 8
  {
    (Shr(value, 8 - n) % Pow2(n)) * Pow2(8 - n)
  }

  /** One rebuilding step: OR-ing bit 7 - n of the code at position 7 - n adds it to the top bits. */
  lemma RebuildStep(value: nat, n: nat)
    requires n < 8
    ensures BitOr(TopBits(value, n), Shl(Shr(value, 7 - n) % 2, 7 - n)) == TopBits(value, n + 1)
  {
    var m := Pow2(7 - n);
    var w := value / m;
    assert Pow2(8 - n) == 2 * m;
    DivTwice(value, m);
    var x := (w / 2) % Pow2(n);
    assert TopBits(value, n) == x * Pow2((7 - n) + 1);
    OrBelow(x, w % 2, 7 - n);
    ModDouble(w, Pow2(n));
    assert TopBits(value, n + 1) == (w % (2 * Pow2(n))) * m;
    Distribute(x, w % 2, m);
  }

  lemma Distribute(x: int, b: int, m: int)
    ensures x * (2 * m) + b * m == (2 * x + b) * m
  {
  }

  /**
   * The per-character part: bits 0..7 of the code are collected (days_017's
   * loop stores each as the text "0" or "1" and reads it back with
   * int(), which gives the same bit, see PyStr.ParseIntToStr), reversed,
   * and OR-ed back at positions 7, 6, ..., 0.
   */
  method RebuildCode(value: nat) returns (reconstructed: nat)
    ensures reconstructed == value % 256
  {
    var bits: seq<nat> := [];
    var i := 0;
    while i < 8
      invariant 0 <= i <= 8 && |bits| == i
      invariant forall j :: 0 <= j < i ==> bits[j] == Shr(value, j) % 2
    {
      bits := bits + [Shr(value, i) % 2];
      i := i + 1;
    }
    ReverseIsIndexwise(bits);
    bits := Reverse(bits);
    reconstructed := 0;
    i := 0;
    while i < 8
      invariant 0 <= i <= 8
      invariant reconstructed == TopBits(value, i)
    {
      RebuildStep(value, i);
      reconstructed := BitOr(reconstructed, Shl(bits[i], 7 - i));
      i := i + 1;
    }
    assert Pow2(8) == 256;
  }

  /** reverse_string_via_binary_shifts: the low bytes of the text, in reverse order. */
  method ReverseViaBinaryShifts(text: string) returns (r: string)
    ensures |r| == |text|
    ensures r == Reverse(LowBytes(text))
  {
    var result: seq<char> := [];
    var k := 0;
    while k < |text|
      invariant 0 <= k <= |text| && |result| == k
      invariant forall j :: 0 <= j < k ==> result[j] == LowByte(text[j])
    {
      var reconstructed := RebuildCode(text[k] as int);
      result := result + [reconstructed as char];
      k := k + 1;
    }
    assert result == LowBytes(text);
    r := Reverse(result);
  }

  predicate AllBelow256(text: string) {
    forall k :: 0 <= k < |text| ==> text[k] as int < 256
  }

  /** For codes below 256 the "corrupted" reversal is exactly text[::-1]. */
  lemma BelowByteIsExact(text: string)
    requires AllBelow256(text)
    ensures Reverse(LowBytes(text)) == Reverse(text)
  {
    assert LowBytes(text) == text;
  }

  /** Above 255 the high bits are lost: 'Ā' (U+0100) comes back as U+0000. */
  lemma HighBitsLost()
    ensures Reverse(LowBytes("\U{0100}")) == "\U{0000}"
  {
  }

  /** reverse_string_verbose: appends text[i] for i from len(text) - 1 down to 0. */
  method ReverseVerbose(text: string) returns (r: string)
    ensures r == Reverse(text)
  {
    ReverseIsIndexwise(text);
    var result: seq<char> := [];
    var i := |text| - 1;
    while i >= 0
      invariant -1 <= i < |text|
      invariant |result| == |text| - 1 - i
      invariant forall j :: 0 <= j < |result| ==> result[j] == text[|text| - 1 - j]
    {
      result := result + [text[i]];
      i := i - 1;
    }
    r := result;
  }
}
