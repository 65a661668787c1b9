/**
 * A hand-rolled parser for a JSON subset. `parse_json` strips the text,
 * rewrites the keywords true/false/null into Python spelling everywhere
 * (inside strings too), drops whitespace that is followed by an even
 * number of double quotes, and hands the rest to `parse_value`. Objects
 * and arrays are split on ',' and ':' only where the bracket depth is 0.
 */
module RegexJson {
  import opened Wrappers
  import opened PyStr
  import opened PyDict
  import opened JsonValue

  // ---------------------------------------------------------------------
  // split_top_level
  // ---------------------------------------------------------------------

  predicate Opens(c: char) {
    c == '{' || c == '['
  }

  predicate Closes(c: char) {
    c == '}' || c == ']'
  }

  /** The bracket depth after reading s: opening minus closing brackets. */
  function NestDepth(s: string): int {
    if s == [] then 0
    else
      var d := NestDepth(s[..|s| - 1]);
      var c := s[|s| - 1];
      if Opens(c) then d + 1 else if Closes(c) then d - 1 else d
  }

  /**
   * The state of split_top_level's loop after reading a prefix: the parts
   * so far, the part being built, the depth, the number of splits, and
   * (for the proofs) the positions it split at.
   */
  datatype Scan = Scan(parts: seq<string>, current: string, depth: int, splits: nat, cuts: seq<nat>)

  function ScanText(s: string, delim: char, maxsplit: int): (a: Scan)
    ensures a.depth == NestDepth(s)
    ensures |a.parts| == a.splits == |a.cuts|
    ensures maxsplit >= 0 ==> a.splits <= maxsplit
    ensures |a.current| <= |s| && forall j :: 0 <= j < |a.parts| ==> |a.parts[j]| < |s|
  {
    if s == [] then Scan([], "", 0, 0, [])
    else
      var init := s[..|s| - 1];
      var a := ScanText(init, delim, maxsplit);
      var c := s[|s| - 1];
      var d := if Opens(c) then a.depth + 1 else if Closes(c) then a.depth - 1 else a.depth;
      if c == delim && d == 0 && (maxsplit < 0 || a.splits < maxsplit) then
        Scan(a.parts + [a.current], "", d, a.splits + 1, a.cuts + [|s| - 1])
      else
        Scan(a.parts, a.current + [c], d, a.splits, a.cuts)
  }

  /** split_top_level(text, delim, maxsplit) */
  function SplitTopLevel(text: string, delim: char, maxsplit: int): (parts: seq<string>)
    ensures |parts| >= 1
    ensures forall j :: 0 <= j < |parts| ==> |parts[j]| <= |text|
  {
    var a := ScanText(text, delim, maxsplit);
    a.parts + [a.current]
  }

  method SplitTopLevelLoop(text: string, delim: char, maxsplit: int) returns (parts: seq<string>)
    ensures parts == SplitTopLevel(text, delim, maxsplit)
  {
    parts := [];
    var depth := 0;
    var current := "";
    var splits := 0;
    var k := 0;
    while k < |text|
      invariant 0 <= k <= |text|
      invariant var a := ScanText(text[..k], delim, maxsplit);
        parts == a.parts && current == a.current && depth == a.depth && splits == a.splits
    {
      assert text[..k + 1][..k] == text[..k];
      var c := text[k];
      if Opens(c) {
        depth := depth + 1;
      } else if Closes(c) {
        depth := depth - 1;
      }
      if c == delim && depth == 0 && (maxsplit < 0 || splits < maxsplit) {
        parts := parts + [current];
        current := "";
        splits := splits + 1;
      } else {
        current := current + [c];
      }
      k := k + 1;
    }
    assert text[..|text|] == text;
    parts := parts + [current];
  }

  lemma JoinGrowLast(ps: seq<string>, x: string, c: char, delim: char)
    ensures Join(ps + [x + [c]], delim) == Join(ps + [x], delim) + [c]
  {
    if ps == [] {
      assert [x + [c]] == ps + [x + [c]];
    } else {
      JoinSnoc(ps, x + [c], delim);
      JoinSnoc(ps, x, delim);
    }
  }

  lemma {:induction false} ScanJoin(s: string, delim: char, maxsplit: int)
    ensures var a := ScanText(s, delim, maxsplit); Join(a.parts + [a.current], delim) == s
  {
    if s != [] {
      var init := s[..|s| - 1];
      ScanJoin(init, delim, maxsplit);
      var a := ScanText(init, delim, maxsplit);
      var c := s[|s| - 1];
      var b := ScanText(s, delim, maxsplit);
      assert init + [c] == s;
      if b.splits == a.splits + 1 {
        assert b.parts + [b.current] == (a.parts + [a.current]) + [""];
        JoinSnoc(a.parts + [a.current], "", delim);
      } else {
        JoinGrowLast(a.parts, a.current, c, delim);
      }
    }
  }

  /** Joining the parts with the delimiter gives the text back. */
  lemma SplitJoinsBack(text: string, delim: char, maxsplit: int)
    ensures Join(SplitTopLevel(text, delim, maxsplit), delim) == text
  {
    ScanJoin(text, delim, maxsplit);
  }

  /** One part more than splits, and at most maxsplit + 1 parts when maxsplit >= 0. */
  lemma SplitCount(text: string, delim: char, maxsplit: int)
    ensures var a := ScanText(text, delim, maxsplit); |SplitTopLevel(text, delim, maxsplit)| == a.splits + 1
    ensures maxsplit >= 0 ==> |SplitTopLevel(text, delim, maxsplit)| <= maxsplit + 1
  {
  }

  /** Each cut is a delimiter of s at depth 0 (counted after it), in increasing order. */
  predicate CutsAtTopLevel(s: string, delim: char, cuts: seq<nat>) {
    (forall j :: 0 <= j < |cuts| ==> cuts[j] < |s| && s[cuts[j]] == delim && NestDepth(s[..cuts[j] + 1]) == 0)
    && (forall j, j' :: 0 <= j < j' < |cuts| ==> cuts[j] < cuts[j'])
  }

  /** Every split happens at a delimiter whose bracket depth, counted after it, is 0. */
  lemma {:induction false} SplitsAtTopLevel(s: string, delim: char, maxsplit: int)
    ensures CutsAtTopLevel(s, delim, ScanText(s, delim, maxsplit).cuts)
  {
    if s != [] {
      var init := s[..|s| - 1];
      SplitsAtTopLevel(init, delim, maxsplit);
      var a := ScanText(init, delim, maxsplit);
      assert forall j :: 0 <= j < |a.cuts| ==> s[..a.cuts[j] + 1] == init[..a.cuts[j] + 1];
      assert s[..|s|] == s;
    }
  }

  /** Without a limit, every delimiter at depth 0 is a split point. */
  lemma {:induction false} UnlimitedSplitsEverywhere(s: string, delim: char, maxsplit: int, p: nat)
    requires maxsplit < 0 && p < |s| && s[p] == delim && NestDepth(s[..p + 1]) == 0
    ensures p in ScanText(s, delim, maxsplit).cuts
  {
    var init := s[..|s| - 1];
    if p < |s| - 1 {
      assert s[..p + 1] == init[..p + 1];
      UnlimitedSplitsEverywhere(init, delim, maxsplit, p);
    } else {
      assert s[..p + 1] == s;
    }
  }

  /** Splitting text that has no delimiter gives the text itself. */
  lemma {:induction false} NoDelimiterNoSplit(s: string, delim: char, maxsplit: int)
    requires delim !in s
    ensures ScanText(s, delim, maxsplit) == Scan([], s, NestDepth(s), 0, [])
  {
    if s != [] {
      NoDelimiterNoSplit(s[..|s| - 1], delim, maxsplit);
      assert s[..|s| - 1] + [s[|s| - 1]] == s;
    }
  }

  lemma {:induction false} NoBracketsDepthZero(s: string)
    requires forall k :: 0 <= k < |s| ==> !Opens(s[k]) && !Closes(s[k])
    ensures NestDepth(s) == 0
  {
    if s != [] {
      NoBracketsDepthZero(s[..|s| - 1]);
    }
  }

  /** Once the split budget is spent, the rest of the text only extends the last part. */
  lemma {:induction false} ScanSpent(p: string, q: string, delim: char, maxsplit: int)
    requires maxsplit >= 0 && ScanText(p, delim, maxsplit).splits == maxsplit
    ensures var a := ScanText(p, delim, maxsplit); var b := ScanText(p + q, delim, maxsplit);
      b.parts == a.parts && b.current == a.current + q
  {
    if q != [] {
      var q' := q[..|q| - 1];
      ScanSpent(p, q', delim, maxsplit);
      assert (p + q)[..|p + q| - 1] == p + q';
      assert q' + [q[|q| - 1]] == q;
      var a := ScanText(p, delim, maxsplit);
      assert a.current + q' + [q[|q| - 1]] == a.current + q;
    } else {
      assert p + q == p;
    }
  }

  /**
   * A text with exactly one top-level delimiter (or whose first one is
   * the only one allowed) splits into the two sides.
   */
  lemma SplitOnce(p: string, q: string, delim: char, maxsplit: int)
    requires delim !in p && !Opens(delim) && !Closes(delim) && NestDepth(p) == 0
    requires maxsplit == 1 || (maxsplit < 0 && delim !in q)
    ensures SplitTopLevel(p + [delim] + q, delim, maxsplit) == [p, q]
  {
    NoDelimiterNoSplit(p, delim, maxsplit);
    var pd := p + [delim];
    assert pd[..|pd| - 1] == p;
    var a := ScanText(pd, delim, maxsplit);
    assert a.parts == [p] && a.current == "";
    if maxsplit == 1 {
      ScanSpent(pd, q, delim, maxsplit);
    } else {
      NoDelimiterAfter(pd, q, delim, maxsplit);
    }
    assert a.current + q == q;
  }

  lemma {:induction false} NoDelimiterAfter(p: string, q: string, delim: char, maxsplit: int)
    requires delim !in q
    ensures var a := ScanText(p, delim, maxsplit); var b := ScanText(p + q, delim, maxsplit);
      b.parts == a.parts && b.current == a.current + q
  {
    if q != [] {
      var q' := q[..|q| - 1];
      NoDelimiterAfter(p, q', delim, maxsplit);
      assert (p + q)[..|p + q| - 1] == p + q';
      assert q' + [q[|q| - 1]] == q;
    } else {
      assert p + q == p;
    }
  }

  // ---------------------------------------------------------------------
  // parse_value, parse_object, parse_array
  // ---------------------------------------------------------------------

  /** Python's s[1:-1]: empty when s has fewer than two characters. */
  function Inner(s: string): (r: string)
    ensures |s| >= 2 ==> r == s[1..|s| - 1]
    ensures |s| < 2 ==> r == []
  {
    if |s| >= 2 then s[1..|s| - 1] else []
  }

  /** The text after an optional leading '-'. */
  function Unsigned(v: string): string {
    if v != [] && v[0] == '-' then v[1..] else v
  }

  /** re.fullmatch(r"-?\d+", v), with \d read as an ASCII digit. */
  predicate IsIntLiteral(v: string) {
    Unsigned(v) != [] && AllDigits(Unsigned(v))
  }

  /** re.fullmatch(r"-?\d+\.\d+", v), with \d read as an ASCII digit. */
  predicate IsFloatLiteral(v: string) {
    var b := Unsigned(v);
    exists i :: 0 < i < |b| - 1 && b[i] == '.' && AllDigits(b[..i]) && AllDigits(b[i + 1..])
  }

  /** int(v) for a string that matched the integer pattern. */
  function IntLiteralValue(v: string): int
    requires IsIntLiteral(v)
  {
    var magnitude: int := DigitsValue(Unsigned(v));
    if v[0] == '-' then -magnitude else magnitude
  }

  function Unsupported(v: string): Error {
    Error(ValueError, "Unsupported JSON value: " + v)
  }

  /** Tuple unpacking of a one-element list into `key, value`. */
  const UnpackError := Error(ValueError, "not enough values to unpack (expected 2, got 1)")

  /**
   * parse_value: dispatch on the first character, then on the number
   * patterns, then on the three Python keywords. The recursion depth is not
   * bounded here: apart from the RecursionError Python raises on deeply
   * nested text, every error is a ValueError, since slicing never raises.
   */
  function ParseValue(v: string): (r: Result<Json>)
    decreases |v|, 3
    ensures r.Failure? ==> r.error.kind == ValueError
    ensures r.Success? && r.value.JObject? ==> v != [] && v[0] == '{'
    ensures r.Success? && r.value.JList? ==> v != [] && v[0] == '['
    ensures r.Success? && r.value.JStr? ==> v != [] && v[0] == '"'
  {
    if v != [] && v[0] == '{' then ParseObject(v)
    else if v != [] && v[0] == '[' then ParseArray(v)
    else if v != [] && v[0] == '"' then Success(JStr(Inner(v)))
    else if IsFloatLiteral(v) then Success(JFloat(v))
    else if IsIntLiteral(v) then Success(JInt(IntLiteralValue(v)))
    else if v == "True" then Success(JBool(true))
    else if v == "False" then Success(JBool(false))
    else if v == "None" then Success(JNull)
    else Failure(Unsupported(v))
  }

  /**
   * parse_object: the pairs between the braces, split at top-level commas.
   * Each pair is parsed and the results are folded into a dict; as nothing
   * has a side effect, this returns what the source's loop returns: the
   * error of the first failing pair, or the dict. Apart from a RecursionError
   * on deep nesting, which is not modelled, every error is a ValueError.
   */
  function ParseObject(t: string): (r: Result<Json>)
    decreases |t|, 2
    ensures r.Failure? ==> r.error.kind == ValueError
    ensures r.Success? ==> r.value.JObject? && DistinctKeys(r.value.fields)
  {
    var inner := Inner(t);
    if inner == [] then Success(JObject([]))
    else
      var pairs := SplitTopLevel(inner, ',', -1);
      match CollectPairs(ParsePairs(pairs, |t|))
      case Failure(e) => Failure(e)
      case Success(obj) => Success(JObject(obj))
  }

  /**
   * One `key:value` pair: split at the first top-level colon, unquote the
   * key. Every error but a RecursionError on a deeply nested value is a ValueError.
   */
  function ParsePair(p: string): (r: Result<(string, Json)>)
    decreases |p|, 4
    ensures r.Failure? ==> r.error.kind == ValueError
  {
    var kv := SplitTopLevel(p, ':', 1);
    if |kv| < 2 then Failure(UnpackError)
    else
      match ParseValue(kv[1])
      case Failure(e) => Failure(e)
      case Success(value) => Success((Inner(Strip(kv[0])), value))
  }

  /**
   * Every pair parsed on its own. `bound` exceeds the length of every pair
   * and only serves termination.
   */
  function ParsePairs(pairs: seq<string>, ghost bound: nat): (rs: seq<Result<(string, Json)>>)
    requires forall k :: 0 <= k < |pairs| ==> |pairs[k]| < bound
    decreases bound, 1
    ensures |rs| == |pairs|
    ensures forall k :: 0 <= k < |pairs| ==> rs[k] == ParsePair(pairs[k])
  {
    seq(|pairs|, k requires 0 <= k < |pairs| => ParsePair(pairs[k]))
  }

  /**
   * parse_array: the elements between the brackets, split at top-level
   * commas. Every error but a RecursionError on deep nesting is a ValueError.
   */
  function ParseArray(t: string): (r: Result<Json>)
    decreases |t|, 2
    ensures r.Failure? ==> r.error.kind == ValueError
    ensures r.Success? ==> r.value.JList?
  {
    var inner := Inner(t);
    if inner == [] then Success(JList([]))
    else
      var values := SplitTopLevel(inner, ',', -1);
      match CollectElems(ParseValues(values, |t|))
      case Failure(e) => Failure(e)
      case Success(elems) => Success(JList(elems))
  }

  /** Every element parsed on its own. */
  function ParseValues(values: seq<string>, ghost bound: nat): (rs: seq<Result<Json>>)
    requires forall k :: 0 <= k < |values| ==> |values[k]| < bound
    decreases bound, 1
    ensures |rs| == |values|
    ensures forall k :: 0 <= k < |values| ==> rs[k] == ParseValue(values[k])
  {
    seq(|values|, k requires 0 <= k < |values| => ParseValue(values[k]))
  }

  /** Every error the parsed parts carry is a ValueError. */
  predicate ValueErrors<T>(rs: seq<Result<T>>) {
    forall k :: 0 <= k < |rs| ==> rs[k].Failure? ==> rs[k].error.kind == ValueError
  }

  /**
   * One round of the pair loop: obj[key] = value for a parsed pair, or the
   * error that stops the loop.
   */
  function PairStep(acc: Result<Dict<string, Json>>, pair: Result<(string, Json)>): (r: Result<Dict<string, Json>>)
    requires acc.Success? ==> DistinctKeys(acc.value)
    ensures r.Failure? ==> r == acc || (acc.Success? && pair.Failure? && r == Failure(pair.error))
    ensures r.Success? ==> acc.Success? && pair.Success? && DistinctKeys(r.value)
  {
    match acc
    case Failure(_) => acc
    case Success(obj) =>
      match pair
      case Failure(e) => Failure(e)
      case Success(kv) =>
        PutKeepsDistinct(obj, kv.0, kv.1);
        Success(Put(obj, kv.0, kv.1))
  }

  /**
   * The pair loop: obj[key] = value for each parsed pair in order,
   * starting from an empty dict; the first failure stops it.
   */
  function CollectPairs(rs: seq<Result<(string, Json)>>): (r: Result<Dict<string, Json>>)
    ensures r.Failure? ==> exists k :: 0 <= k < |rs| && rs[k] == Failure(r.error)
    ensures r.Success? ==> DistinctKeys(r.value)
  {
    if rs == [] then Success([])
    else
      var n := |rs| - 1;
      var acc := CollectPairs(rs[..n]);
      assert acc.Failure? ==> exists k :: 0 <= k < n && rs[..n][k] == Failure(acc.error);
      PairStep(acc, rs[n])
  }

  /** One round of the element loop: arr.append(value), or the error that stops it. */
  function ElemStep(acc: Result<seq<Json>>, x: Result<Json>): (r: Result<seq<Json>>)
    ensures r.Failure? ==> r == acc || (acc.Success? && x.Failure? && r == Failure(x.error))
    ensures r.Success? ==> acc.Success? && x.Success? && r.value == acc.value + [x.value]
  {
    match acc
    case Failure(_) => acc
    case Success(arr) =>
      match x
      case Failure(e) => Failure(e)
      case Success(v) => Success(arr + [v])
  }

  /** The element loop: arr.append(value) for each parsed element in order. */
  function CollectElems(rs: seq<Result<Json>>): (r: Result<seq<Json>>)
    ensures r.Failure? ==> exists k :: 0 <= k < |rs| && rs[k] == Failure(r.error)
    ensures r.Success? ==> |r.value| == |rs|
  {
    if rs == [] then Success([])
    else
      var n := |rs| - 1;
      var acc := CollectElems(rs[..n]);
      assert acc.Failure? ==> exists k :: 0 <= k < n && rs[..n][k] == Failure(acc.error);
      ElemStep(acc, rs[n])
  }

  /** One more round of the pair loop. */
  lemma PairsStep(rs: seq<Result<(string, Json)>>, k: nat, obj: Dict<string, Json>)
    requires k < |rs| && CollectPairs(rs[..k]) == Success(obj)
    ensures CollectPairs(rs[..k + 1]) == PairStep(Success(obj), rs[k])
  {
    assert rs[..k + 1][..k] == rs[..k];
  }

  /** One more round of the element loop. */
  lemma ElemsStep(rs: seq<Result<Json>>, k: nat, arr: seq<Json>)
    requires k < |rs| && CollectElems(rs[..k]) == Success(arr)
    ensures CollectElems(rs[..k + 1]) == ElemStep(Success(arr), rs[k])
  {
    assert rs[..k + 1][..k] == rs[..k];
  }

  /** Once a prefix of the pairs fails, the loop fails with the same error. */
  lemma {:induction false} PairsPrefixFailure(rs: seq<Result<(string, Json)>>, k: nat)
    requires k <= |rs| && CollectPairs(rs[..k]).Failure?
    ensures CollectPairs(rs) == CollectPairs(rs[..k])
    decreases |rs| - k
  {
    if k < |rs| {
      var n := |rs| - 1;
      assert rs[..n][..k] == rs[..k];
      PairsPrefixFailure(rs[..n], k);
    } else {
      assert rs[..k] == rs;
    }
  }

  /** Once a prefix of the elements fails, the loop fails with the same error. */
  lemma {:induction false} ElemsPrefixFailure(rs: seq<Result<Json>>, k: nat)
    requires k <= |rs| && CollectElems(rs[..k]).Failure?
    ensures CollectElems(rs) == CollectElems(rs[..k])
    decreases |rs| - k
  {
    if k < |rs| {
      var n := |rs| - 1;
      assert rs[..n][..k] == rs[..k];
      ElemsPrefixFailure(rs[..n], k);
    } else {
      assert rs[..k] == rs;
    }
  }

  /** parse_value, with parse_object and parse_array running their loops. */
  method ParseValueLoop(v: string) returns (r: Result<Json>)
    decreases |v|, 3
    ensures r == ParseValue(v)
  {
    if v != [] && v[0] == '{' {
      r := ParseObjectLoop(v);
    } else if v != [] && v[0] == '[' {
      r := ParseArrayLoop(v);
    } else {
      r := ParseValue(v);
    }
  }

  method ParseObjectLoop(t: string) returns (r: Result<Json>)
    decreases |t|, 2
    ensures r == ParseObject(t)
  {
    var inner := Inner(t);
    if inner == [] {
      return Success(JObject([]));
    }
    var pairs := SplitTopLevelLoop(inner, ',', -1);
    var obj := CollectPairsLoop(pairs, |t|);
    if obj.Failure? {
      return Failure(obj.error);
    }
    r := Success(JObject(obj.value));
  }

  /** The pair loop of parse_object, stopping at the first failing pair. */
  method CollectPairsLoop(pairs: seq<string>, ghost bound: nat) returns (r: Result<Dict<string, Json>>)
    requires forall k :: 0 <= k < |pairs| ==> |pairs[k]| < bound
    decreases bound, 1
    ensures r == CollectPairs(ParsePairs(pairs, bound))
  {
    ghost var rs := ParsePairs(pairs, bound);
    var obj: Dict<string, Json> := [];
    var k := 0;
    while k < |pairs|
      invariant 0 <= k <= |pairs|
      invariant CollectPairs(rs[..k]) == Success(obj)
    {
      var pair := ParsePairLoop(pairs[k]);
      PairsStep(rs, k, obj);
      if pair.Failure? {
        PairsPrefixFailure(rs, k + 1);
        return Failure(pair.error);
      }
      obj := Put(obj, pair.value.0, pair.value.1);
      k := k + 1;
    }
    assert rs[..|pairs|] == rs;
    r := Success(obj);
  }

  method ParsePairLoop(p: string) returns (r: Result<(string, Json)>)
    decreases |p|, 4
    ensures r == ParsePair(p)
  {
    var kv := SplitTopLevelLoop(p, ':', 1);
    if |kv| < 2 {
      return Failure(UnpackError);
    }
    var value := ParseValueLoop(kv[1]);
    if value.Failure? {
      return Failure(value.error);
    }
    r := Success((Inner(Strip(kv[0])), value.value));
  }

  method ParseArrayLoop(t: string) returns (r: Result<Json>)
    decreases |t|, 2
    ensures r == ParseArray(t)
  {
    var inner := Inner(t);
    if inner == [] {
      return Success(JList([]));
    }
    var values := SplitTopLevelLoop(inner, ',', -1);
    var arr := CollectElemsLoop(values, |t|);
    if arr.Failure? {
      return Failure(arr.error);
    }
    r := Success(JList(arr.value));
  }

  /** The element loop of parse_array, stopping at the first failing element. */
  method CollectElemsLoop(values: seq<string>, ghost bound: nat) returns (r: Result<seq<Json>>)
    requires forall k :: 0 <= k < |values| ==> |values[k]| < bound
    decreases bound, 1
    ensures r == CollectElems(ParseValues(values, bound))
  {
    ghost var rs := ParseValues(values, bound);
    var arr: seq<Json> := [];
    var k := 0;
    while k < |values|
      invariant 0 <= k <= |values|
      invariant CollectElems(rs[..k]) == Success(arr)
    {
      var x := ParseValueLoop(values[k]);
      ElemsStep(rs, k, arr);
      if x.Failure? {
        ElemsPrefixFailure(rs, k + 1);
        return Failure(x.error);
      }
      arr := arr + [x.value];
      k := k + 1;
    }
    assert rs[..|values|] == rs;
    r := Success(arr);
  }

  // ---------------------------------------------------------------------
  // Properties of the value parser
  // ---------------------------------------------------------------------

  /** A quoted string comes back without its quotes, whatever it holds. */
  lemma ParseQuoted(s: string)
    ensures ParseValue("\"" + s + "\"") == Success(JStr(s))
  {
    InnerOfQuoted(s);
  }

  /** str(i) parses back to the integer i. */
  lemma ParseIntRoundTrip(i: int)
    ensures ParseValue(IntToStr(i)) == Success(JInt(i))
  {
    var v := IntToStr(i);
    assert v[0] != '{' && v[0] != '[' && v[0] != '"';
    var b := Unsigned(v);
    assert forall k :: 0 <= k < |b| ==> b[k] != '.';
    assert !IsFloatLiteral(v);
    if i < 0 {
      assert b == NatToStr(-i);
    } else {
      assert b == NatToStr(i);
    }
  }

  /** A text starting with a character that is neither '-' nor a digit is no number. */
  lemma NotANumber(v: string)
    requires v != [] && v[0] != '-' && !IsDigit(v[0])
    ensures !IsFloatLiteral(v) && !IsIntLiteral(v)
  {
    assert Unsigned(v) == v;
    forall i | 0 < i < |v| ensures !AllDigits(v[..i]) {
      assert v[..i][0] == v[0];
    }
  }

  /** The Python spellings are constants. */
  lemma ParseKeywords()
    ensures ParseValue("True") == Success(JBool(true))
    ensures ParseValue("False") == Success(JBool(false))
    ensures ParseValue("None") == Success(JNull)
  {
    NotANumber("True");
    NotANumber("False");
    NotANumber("None");
  }

  /** The JSON spellings are not accepted by parse_value itself. */
  lemma JsonKeywordsRejected()
    ensures ParseValue("true") == Failure(Unsupported("true"))
    ensures ParseValue("null") == Failure(Unsupported("null"))
  {
    NotANumber("true");
    NotANumber("null");
  }

  /** Anything that is not a container, a quoted string, a number or a keyword is rejected. */
  lemma ParseRejects(v: string)
    requires v == [] || (v[0] != '{' && v[0] != '[' && v[0] != '"')
    requires !IsFloatLiteral(v) && !IsIntLiteral(v) && v != "True" && v != "False" && v != "None"
    ensures ParseValue(v) == Failure(Unsupported(v))
  {
  }

  /** Scientific notation is one of the rejected forms. */
  lemma ParseRejectsExponent()
    ensures ParseValue("1e5") == Failure(Unsupported("1e5"))
  {
    var v := "1e5";
    assert Unsigned(v) == v;
    assert forall k :: 0 <= k < |v| ==> v[k] != '.';
    assert !AllDigits(v) by { assert !IsDigit(v[1]); }
  }

  lemma EmptyContainers()
    ensures ParseObject("{}") == Success(JObject([]))
    ensures ParseArray("[]") == Success(JList([]))
    ensures ParseValue("{}") == Success(JObject([]))
    ensures ParseValue("[]") == Success(JList([]))
  {
    assert Inner("{}") == [] && Inner("[]") == [];
  }

  /** The element loop succeeds with es exactly when each part parsed to the matching element. */
  lemma {:induction false} ElemsPointwise(rs: seq<Result<Json>>, es: seq<Json>)
    ensures CollectElems(rs) == Success(es) <==>
      |es| == |rs| && forall k :: 0 <= k < |rs| ==> rs[k] == Success(es[k])
  {
    if rs != [] {
      var n := |rs| - 1;
      var init := rs[..n];
      assert forall k :: 0 <= k < n ==> init[k] == rs[k];
      if |es| == |rs| {
        ElemsPointwise(init, es[..n]);
        assert es[..n] + [es[n]] == es;
        var r := CollectElems(rs);
        if r == Success(es) {
          var arr := CollectElems(init).value;
          assert arr + [rs[n].value] == es;
          assert arr == es[..n];
        }
      }
    }
  }

  /** Array elements are the parsed top-level comma parts, in order. */
  lemma ArrayElements(t: string, es: seq<Json>)
    requires Inner(t) != []
    ensures var parts := SplitTopLevel(Inner(t), ',', -1);
      ParseArray(t) == Success(JList(es)) <==>
      |es| == |parts| && forall k :: 0 <= k < |parts| ==> ParseValue(parts[k]) == Success(es[k])
  {
    var parts := SplitTopLevel(Inner(t), ',', -1);
    ElemsPointwise(ParseValues(parts, |t|), es);
  }

  /** A pair without any colon fails when its two halves are unpacked. */
  lemma MissingColon(p: string)
    requires ':' !in p
    ensures ParsePair(p) == Failure(UnpackError)
  {
    NoDelimiterNoSplit(p, ':', 1);
  }

  /** If one pair fails, the whole object fails. */
  lemma {:induction false} PairFailureFailsObject(rs: seq<Result<(string, Json)>>, j: nat)
    requires j < |rs| && rs[j].Failure?
    ensures CollectPairs(rs).Failure?
  {
    var n := |rs| - 1;
    if j < n {
      assert rs[..n][j] == rs[j];
      PairFailureFailsObject(rs[..n], j);
    }
  }

  /** An object in which some pair has no colon fails as a whole. */
  lemma ObjectMissingColon(t: string, j: nat)
    requires Inner(t) != []
    requires var pairs := SplitTopLevel(Inner(t), ',', -1); j < |pairs| && ':' !in pairs[j]
    ensures ParseObject(t).Failure?
  {
    var pairs := SplitTopLevel(Inner(t), ',', -1);
    MissingColon(pairs[j]);
    PairFailureFailsObject(ParsePairs(pairs, |t|), j);
  }

  /** {"a"} has no colon: parse_object raises. */
  lemma ObjectWithoutColon()
    ensures ParseObject("{\"a\"}") == Failure(UnpackError)
  {
    var inner := Inner("{\"a\"}");
    assert inner == "\"a\"";
    NoDelimiterNoSplit(inner, ',', -1);
    assert SplitTopLevel(inner, ',', -1) == [inner];
    MissingColon(inner);
    var rs := ParsePairs([inner], 5);
    assert rs == [Failure(UnpackError)];
    assert rs[..0] == [];
  }

  /** A later pair with the same key overwrites the value of an earlier one. */
  lemma LaterPairWins(rs: seq<Result<(string, Json)>>, o: Dict<string, Json>, key: string, value: Json)
    requires CollectPairs(rs) == Success(o)
    ensures CollectPairs(rs + [Success((key, value))]) == Success(Put(o, key, value))
    ensures Get(Put(o, key, value), key) == Some(value)
  {
    assert (rs + [Success((key, value))])[..|rs|] == rs;
    GetPut(o, key, value, key);
  }

  // ---------------------------------------------------------------------
  // parse_json: keyword rewriting and whitespace removal
  // ---------------------------------------------------------------------

  predicate StartsWith(s: string, prefix: string) {
    |prefix| <= |s| && s[..|prefix|] == prefix
  }

  /** s.replace(pat, rep): every occurrence, left to right, without overlaps. */
  function Replace(s: string, pat: string, rep: string): string
    requires pat != []
  {
    if s == [] then []
    else if StartsWith(s, pat) then rep + Replace(s[|pat|..], pat, rep)
    else [s[0]] + Replace(s[1..], pat, rep)
  }

  /** A prefix in which no occurrence of pat starts is copied unchanged. */
  lemma {:induction false} ReplaceSkips(a: string, b: string, pat: string, rep: string)
    requires pat != []
    requires forall i :: 0 <= i < |a| ==> !StartsWith((a + b)[i..], pat)
    ensures Replace(a + b, pat, rep) == a + Replace(b, pat, rep)
  {
    if a != [] {
      assert !StartsWith((a + b)[0..], pat);
      assert (a + b)[1..] == a[1..] + b;
      forall i | 0 <= i < |a[1..]| ensures !StartsWith((a[1..] + b)[i..], pat) {
        assert (a[1..] + b)[i..] == (a + b)[i + 1..];
      }
      ReplaceSkips(a[1..], b, pat, rep);
    } else {
      assert a + b == b;
    }
  }

  /** Text in which the first character of pat never occurs is left alone. */
  lemma {:induction false} ReplaceAbsent(s: string, pat: string, rep: string)
    requires pat != [] && pat[0] !in s
    ensures Replace(s, pat, rep) == s
  {
    if s != [] {
      assert s[0] != pat[0];
      ReplaceAbsent(s[1..], pat, rep);
    }
  }

  function QuoteCount(s: string): nat {
    if s == [] then 0 else (if s[0] == '"' then 1 else 0) + QuoteCount(s[1..])
  }

  /**
   * re.sub(r'\s+(?=(?:[^"]*"[^"]*")*[^"]*$)', '', s): a whitespace
   * character goes exactly when an even number of double quotes follows it,
   * that is, when it is outside every string literal. The lookahead gives
   * the same answer at every character of a run of whitespace, so deciding
   * per character is the same as deciding per run.
   */
  function DropSpacesOutsideStrings(s: string): (r: string)
    ensures |r| <= |s|
  {
    if s == [] then []
    else (if IsSpace(s[0]) && QuoteCount(s[1..]) % 2 == 0 then [] else [s[0]]) + DropSpacesOutsideStrings(s[1..])
  }

  /** Without any double quote, no whitespace is left. */
  lemma {:induction false} DropSpacesNoQuotes(s: string)
    requires '"' !in s
    ensures forall k :: 0 <= k < |DropSpacesOutsideStrings(s)| ==> !IsSpace(DropSpacesOutsideStrings(s)[k])
  {
    if s != [] {
      assert QuoteCount(s[1..]) == 0 by { NoQuotesCountZero(s[1..]); }
      DropSpacesNoQuotes(s[1..]);
    }
  }

  lemma {:induction false} NoQuotesCountZero(s: string)
    requires '"' !in s
    ensures QuoteCount(s) == 0
  {
    if s != [] {
      NoQuotesCountZero(s[1..]);
    }
  }

  /** Characters that are not whitespace are all kept. */
  lemma {:induction false} DropSpacesSkips(a: string, b: string)
    requires forall k :: 0 <= k < |a| ==> !IsSpace(a[k])
    ensures DropSpacesOutsideStrings(a + b) == a + DropSpacesOutsideStrings(b)
  {
    if a != [] {
      assert (a + b)[1..] == a[1..] + b;
      DropSpacesSkips(a[1..], b);
    } else {
      assert a + b == b;
    }
  }

  /** The text parse_json hands to parse_value. */
  function Normalize(text: string): string {
    var t := Strip(text);
    var t := Replace(t, "true", "True");
    var t := Replace(t, "false", "False");
    var t := Replace(t, "null", "None");
    DropSpacesOutsideStrings(t)
  }

  /**
   * parse_json: normalise the text, then parse it. Every error but a
   * RecursionError on deeply nested text is a ValueError.
   */
  function ParseJson(text: string): (r: Result<Json>)
    ensures r.Failure? ==> r.error.kind == ValueError
  {
    ParseValue(Normalize(text))
  }

  /**
   * A prefix in which no character starts the first two characters of pat
   * is copied unchanged.
   */
  lemma {:induction false} ReplaceSkipsPairs(a: string, b: string, pat: string, rep: string)
    requires |pat| >= 2
    requires forall i :: 0 <= i < |a| ==> (a + b)[i] != pat[0] || (i + 1 < |a + b| && (a + b)[i + 1] != pat[1])
    ensures Replace(a + b, pat, rep) == a + Replace(b, pat, rep)
  {
    if a != [] {
      var s := a + b;
      assert !StartsWith(s, pat) by {
        if |pat| <= |s| {
          assert s[..|pat|][0] == s[0] && s[..|pat|][1] == s[1];
        }
      }
      assert s[1..] == a[1..] + b;
      forall i | 0 <= i < |a[1..]|
        ensures (a[1..] + b)[i] != pat[0] || (i + 1 < |a[1..] + b| && (a[1..] + b)[i + 1] != pat[1])
      {
        assert s[i + 1] != pat[0] || (i + 2 < |s| && s[i + 2] != pat[1]);
        assert (a[1..] + b)[i] == s[i + 1];
        if i + 1 < |a[1..] + b| {
          assert (a[1..] + b)[i + 1] == s[i + 2];
        }
      }
      ReplaceSkipsPairs(a[1..], b, pat, rep);
    } else {
      assert a + b == b;
    }
  }

  lemma ReplaceAtFront(pat: string, b: string, rep: string)
    requires pat != []
    ensures Replace(pat + b, pat, rep) == rep + Replace(b, pat, rep)
  {
    assert (pat + b)[..|pat|] == pat;
    assert (pat + b)[|pat|..] == b;
  }

  lemma {:induction false} QuoteCountAppend(a: string, b: string)
    ensures QuoteCount(a + b) == QuoteCount(a) + QuoteCount(b)
  {
    if a != [] {
      assert (a + b)[1..] == a[1..] + b;
      QuoteCountAppend(a[1..], b);
    } else {
      assert a + b == b;
    }
  }

  /** ReplaceSkipsPairs for a piece that cannot start pat even at its end. */
  lemma ReplaceSkipsPiece(a: string, b: string, pat: string, rep: string)
    requires |pat| >= 2
    requires forall i :: 0 <= i < |a| ==> a[i] != pat[0] || (i + 1 < |a| && a[i + 1] != pat[1])
    ensures Replace(a + b, pat, rep) == a + Replace(b, pat, rep)
  {
    forall i | 0 <= i < |a|
      ensures (a + b)[i] != pat[0] || (i + 1 < |a + b| && (a + b)[i + 1] != pat[1])
    {
      assert a[i] != pat[0] || (i + 1 < |a| && a[i + 1] != pat[1]);
      assert (a + b)[i] == a[i];
      if i + 1 < |a| {
        assert (a + b)[i + 1] == a[i + 1];
      }
    }
    ReplaceSkipsPairs(a, b, pat, rep);
  }

  // The pieces of the example {"status": "true story"}.
  const Opening := "{\"status\":"
  const Word := "true"
  const Closing := "story\"}"
  const Sample := Opening + (" " + ("\"" + (Word + (" " + Closing))))

  /** The quoted part of the example after the rewriting, with the space inside it. */
  const QuotedTail := "\"" + ("True" + (" " + Closing))

  lemma SampleIsLiteral()
    ensures Sample == "{\"status\": \"true story\"}"
  {
  }

  /** No character of a starts the first two characters of pat. */
  predicate CannotStart(a: string, pat: string)
    requires |pat| >= 2
  {
    forall i :: 0 <= i < |a| ==> a[i] != pat[0] || (i + 1 < |a| && a[i + 1] != pat[1])
  }

  predicate NoSpace(a: string) {
    forall k :: 0 <= k < |a| ==> !IsSpace(a[k])
  }

  lemma PiecesCannotStartTrue()
    ensures CannotStart(Opening, "true") && CannotStart(Closing, "true")
    ensures CannotStart(" ", "true") && CannotStart("\"", "true")
  {
  }

  lemma PiecesHaveNoSpace()
    ensures NoSpace(Opening) && NoSpace(Closing) && NoSpace("\"") && NoSpace("True")
  {
  }

  lemma PiecesQuoteCounts()
    ensures QuoteCount(Closing) == 1 && QuoteCount("\"") == 1
    ensures QuoteCount("True") == 0 && QuoteCount(" ") == 0
  {
    var w := "story";
    var z := "\"}";
    assert Closing == w + z;
    QuoteCountAppend(w, z);
    NoQuotesCountZero(w);
    NoQuotesCountZero("True");
    assert z[1..] == "}" && "}"[1..] == [];
  }

  /** Step one: only the "true" inside the string is rewritten. */
  lemma KeywordRewriteExample()
    ensures Replace(Sample, "true", "True") == Opening + (" " + QuotedTail)
  {
    var pat := "true";
    PiecesCannotStartTrue();
    ReplaceSkipsPiece(Opening, " " + ("\"" + (Word + (" " + Closing))), pat, "True");
    ReplaceSkipsPiece(" ", "\"" + (Word + (" " + Closing)), pat, "True");
    ReplaceSkipsPiece("\"", Word + (" " + Closing), pat, "True");
    ReplaceAtFront(pat, " " + Closing, "True");
    ReplaceSkipsPiece(" ", Closing, pat, "True");
    ReplaceSkipsPiece(Closing, [], pat, "True");
    assert Closing + [] == Closing;
  }

  /** Dropping one whitespace character in front of t, given the quotes after it. */
  lemma DropSpaceFront(c: char, t: string)
    requires IsSpace(c)
    ensures DropSpacesOutsideStrings([c] + t) ==
      if QuoteCount(t) % 2 == 0 then DropSpacesOutsideStrings(t) else [c] + DropSpacesOutsideStrings(t)
  {
    assert ([c] + t)[1..] == t;
  }

  /** The space inside the string literal stays. */
  lemma QuotedTailKept()
    ensures DropSpacesOutsideStrings(QuotedTail) == QuotedTail
  {
    PiecesHaveNoSpace();
    PiecesQuoteCounts();
    DropSpacesSkips("\"", "True" + (" " + Closing));
    DropSpacesSkips("True", " " + Closing);
    DropSpaceFront(' ', Closing);
    DropSpacesSkips(Closing, []);
    assert Closing + [] == Closing;
  }

  /** Step two: the space after the colon goes, the one inside the string stays. */
  lemma SpaceRemovalExample()
    ensures DropSpacesOutsideStrings(Opening + (" " + QuotedTail)) == Opening + QuotedTail
  {
    PiecesHaveNoSpace();
    PiecesQuoteCounts();
    DropSpacesSkips(Opening, " " + QuotedTail);
    QuoteCountAppend("\"", "True" + (" " + Closing));
    QuoteCountAppend("True", " " + Closing);
    QuoteCountAppend(" ", Closing);
    DropSpaceFront(' ', QuotedTail);
    QuotedTailKept();
  }

  lemma PiecesLackFAndN()
    ensures 'f' !in Opening && 'f' !in Closing && 'f' !in "True"
    ensures 'n' !in Opening && 'n' !in Closing && 'n' !in "True"
  {
  }

  lemma NormalizeExample()
    ensures Normalize(Sample) == Opening + QuotedTail
  {
    assert !IsSpace(Sample[0]) && !IsSpace(Sample[|Sample| - 1]);
    StripNoSpaceEnds(Sample);
    KeywordRewriteExample();
    var t1 := Opening + (" " + QuotedTail);
    PiecesLackFAndN();
    assert 'f' !in t1 && 'n' !in t1;
    ReplaceAbsent(t1, "false", "False");
    ReplaceAbsent(t1, "null", "None");
    SpaceRemovalExample();
  }

  lemma InnerOfQuoted(s: string)
    ensures Inner("\"" + s + "\"") == s
  {
    var v := "\"" + s + "\"";
    assert v[1..|v| - 1] == s;
  }

  const StatusKey := "\"" + "status" + "\""
  const StatusValue := "\"" + "True story" + "\""

  lemma StatusPairExample()
    ensures ParsePair(StatusKey + (":" + StatusValue)) == Success(("status", JStr("True story")))
  {
    var inner := StatusKey + (":" + StatusValue);
    assert ':' !in StatusKey;
    NoBracketsDepthZero(StatusKey);
    SplitOnce(StatusKey, StatusValue, ':', 1);
    assert StatusKey + [':'] + StatusValue == inner;
    ParseQuoted("True story");
    assert !IsSpace(StatusKey[0]) && !IsSpace(StatusKey[|StatusKey| - 1]);
    StripNoSpaceEnds(StatusKey);
    InnerOfQuoted("status");
  }

  /** An object whose braces hold one pair and no comma holds just that pair. */
  lemma OnePairCollected(key: string, value: Json)
    ensures CollectPairs([Success((key, value))]) == Success([(key, value)])
  {
    var empty: Dict<string, Json> := [];
    var none: seq<Result<(string, Json)>> := [];
    LaterPairWins(none, empty, key, value);
    assert none + [Success((key, value))] == [Success((key, value))];
    assert Put(empty, key, value) == [(key, value)];
  }

  lemma ObjectDispatch(t: string)
    requires t != [] && t[0] == '{'
    ensures ParseValue(t) == ParseObject(t)
  {
  }

  lemma OnePairObject(t: string, p: string, key: string, value: Json)
    requires t != [] && t[0] == '{' && Inner(t) == p && p != [] && ',' !in p
    requires ParsePair(p) == Success((key, value))
    ensures ParseValue(t) == Success(JObject([(key, value)]))
  {
    NoDelimiterNoSplit(p, ',', -1);
    assert SplitTopLevel(p, ',', -1) == [p];
    assert ParsePairs([p], |t|) == [Success((key, value))];
    OnePairCollected(key, value);
    ObjectDispatch(t);
  }

  lemma InnerOfBraced(a: string, b: string)
    ensures Inner(("{" + (a + ":")) + (b + "}")) == a + (":" + b)
  {
    var v := ("{" + (a + ":")) + (b + "}");
    assert v == "{" + (a + (":" + b)) + "}";
    InnerOfQuotedBy('{', '}', a + (":" + b));
  }

  lemma InnerOfQuotedBy(open: char, close: char, s: string)
    ensures Inner([open] + s + [close]) == s
  {
    var v := [open] + s + [close];
    assert v[1..|v| - 1] == s;
  }

  lemma StatusPieces()
    ensures Opening == "{" + (StatusKey + ":")
    ensures QuotedTail == StatusValue + "}"
  {
  }

  lemma StatusObjectShape()
    ensures Inner(Opening + QuotedTail) == StatusKey + (":" + StatusValue)
    ensures ',' !in StatusKey + (":" + StatusValue)
  {
    StatusPieces();
    InnerOfBraced(StatusKey, StatusValue);
    assert ',' !in StatusKey && ',' !in StatusValue;
  }

  lemma ParseStatusExample()
    ensures ParseValue(Opening + QuotedTail) == Success(JObject([("status", JStr("True story"))]))
  {
    StatusObjectShape();
    StatusPairExample();
    OnePairObject(Opening + QuotedTail, StatusKey + (":" + StatusValue), "status", JStr("True story"));
  }

  /** The keyword rewriting also changes the text of a string value. */
  lemma KeywordInsideString()
    ensures ParseJson("{\"status\": \"true story\"}") == Success(JObject([("status", JStr("True story"))]))
  {
    SampleIsLiteral();
    NormalizeExample();
    ParseStatusExample();
  }
}
