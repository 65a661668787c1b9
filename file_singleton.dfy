/**
 * A "singleton" key/value store that keeps everything in one text file, one
 * `key=value` line per entry, and re-reads or rewrites the whole file on
 * every call. The file is the field `file`: None when it does not exist,
 * otherwise its text.
 */
module FileSingleton {
  import opened Wrappers
  import opened PyStr
  import opened PyDict

  // ---------------------------------------------------------------------
  // File format
  // ---------------------------------------------------------------------

  /**
   * Python's text-mode reading with universal newlines: "\r\n" and a lone
   * "\r" both arrive as "\n".
   */
  function TranslateNewlines(s: string): (r: string)
    ensures '\r' !in r
    ensures '\r' !in s ==> r == s
  {
    if s == [] then []
    else if s[0] == '\r' then
      (if |s| >= 2 && s[1] == '\n' then "\n" + TranslateNewlines(s[2..]) else "\n" + TranslateNewlines(s[1..]))
    else [s[0]] + TranslateNewlines(s[1..])
  }

  /** One line of the file: stripped, then split at its first '=' when it has one. */
  function ParseLine(line: string): Option<(string, string)> {
    SplitFirst(Strip(line), '=')
  }

  /** The dict after reading the given lines in order: a later line overrides an earlier key. */
  function ParseLines(lines: seq<string>): Dict<string, string>
  {
    if lines == [] then [] else LineStep(ParseLines(lines[..|lines| - 1]), lines[|lines| - 1])
  }

  /** One round of the line loop: data[key] = value for a line holding '='. */
  function LineStep(data: Dict<string, string>, line: string): Dict<string, string> {
    match ParseLine(line)
    case None => data
    case Some((k, v)) => Put(data, k, v)
  }

  lemma ParseLinesStep(lines: seq<string>, i: nat)
    requires i < |lines|
    ensures ParseLines(lines[..i + 1]) == LineStep(ParseLines(lines[..i]), lines[i])
  {
    assert lines[..i + 1][..i] == lines[..i];
  }

  /** `_read_file`: {} for a missing file, otherwise its lines parsed in order. */
  function ParseFile(file: Option<string>): Dict<string, string> {
    match file
    case None => []
    case Some(text) => ParseLines(Split(TranslateNewlines(text), '\n'))
  }

  /** The line `_write_file` writes for one entry, without its newline. */
  function EntryLine(e: (string, string)): string {
    e.0 + "=" + e.1
  }

  /** `_write_file`: every entry as `key=value\n`, in dict order. */
  function Render(data: Dict<string, string>): string {
    if data == [] then [] else Render(data[..|data| - 1]) + EntryLine(data[|data| - 1]) + "\n"
  }

  // ---------------------------------------------------------------------
  // Values given to set
  // ---------------------------------------------------------------------

  /** The values `set` is called with: None, a bool, an int, a float or a str. */
  datatype PyValue = PyNone | PyBool(b: bool) | PyInt(i: int) | PyFloat(text: string) | PyText(s: string)

  /** None, True and False do not parse as an int. */
  lemma WordIsNotInt(w: string)
    requires w == "None" || w == "True" || w == "False"
    ensures ParseInt(w).Failure?
  {
    assert !IsSpace(w[0]) && !IsSpace(w[|w| - 1]);
    StripNoSpaceEnds(w);
    assert !IsDigit(w[0]);
  }

  /** str(i) is a clean value: no line break and no trailing whitespace. */
  lemma IntToStrClean(i: int)
    ensures CleanValue(IntToStr(i))
  {
    var s := IntToStr(i);
    assert s[|s| - 1] == '-' || IsDigit(s[|s| - 1]);
  }

  /** str(value), which is what `set` stores; a float keeps the text of its repr. */
  function StrOf(v: PyValue): string {
    match v
    case PyNone => "None"
    case PyBool(b) => if b then "True" else "False"
    case PyInt(i) => IntToStr(i)
    case PyFloat(text) => text
    case PyText(s) => s
  }

  /**
   * The type is lost: an int comes back through int(), while None, True and
   * False are words that do not parse as one.
   */
  lemma StrOfTypeLost(v: PyValue)
    ensures v.PyInt? ==> ParseInt(StrOf(v)) == Success(v.i)
    ensures v.PyBool? || v.PyNone? ==> StrOf(v) != [] && ParseInt(StrOf(v)).Failure?
    ensures v.PyBool? ==> (StrOf(v) == "True" <==> v.b)
  {
    match v
    case PyNone => WordIsNotInt("None");
    case PyBool(b) =>
      WordIsNotInt("True");
      WordIsNotInt("False");
    case PyInt(i) => ParseIntToStr(i);
    case PyFloat(_) =>
    case PyText(_) =>
  }

  /** The str() of None, a bool or an int is always a value the file keeps. */
  lemma StrOfClean(v: PyValue)
    requires !v.PyText? && !v.PyFloat?
    ensures CleanValue(StrOf(v))
  {
    if v.PyInt? {
      IntToStrClean(v.i);
    }
  }

  // ---------------------------------------------------------------------
  // When the format round-trips
  // ---------------------------------------------------------------------

  /** A key survives a write and a read: no '=', no line break, no leading whitespace. */
  predicate CleanKey(k: string) {
    '=' !in k && '\n' !in k && '\r' !in k && (k == [] || !IsSpace(k[0]))
  }

  /** A value survives a write and a read: no line break, no trailing whitespace. */
  predicate CleanValue(v: string) {
    '\n' !in v && '\r' !in v && (v == [] || !IsSpace(v[|v| - 1]))
  }

  predicate Clean(data: Dict<string, string>) {
    DistinctKeys(data) && forall i :: 0 <= i < |data| ==> CleanKey(data[i].0) && CleanValue(data[i].1)
  }

  lemma ParseEntryLine(k: string, v: string)
    requires CleanKey(k) && CleanValue(v)
    ensures ParseLine(EntryLine((k, v))) == Some((k, v))
  {
    var l := k + ['='] + v;
    assert EntryLine((k, v)) == l;
    assert l[0] == if k == [] then '=' else k[0];
    assert l[|l| - 1] == if v == [] then '=' else v[|v| - 1];
    StripNoSpaceEnds(l);
    SplitFirstAfter(k, '=', v);
  }

  /** The lines of the written file. */
  function EntryLines(data: Dict<string, string>): (lines: seq<string>)
    ensures |lines| == |data|
    ensures forall i :: 0 <= i < |data| ==> lines[i] == EntryLine(data[i])
  {
    if data == [] then [] else EntryLines(data[..|data| - 1]) + [EntryLine(data[|data| - 1])]
  }

  lemma {:induction false} RenderIsJoin(data: Dict<string, string>)
    ensures Render(data) == Join(EntryLines(data) + [""], '\n')
  {
    if data != [] {
      var init := data[..|data| - 1];
      RenderIsJoin(init);
      var ls := EntryLines(init);
      var x := EntryLine(data[|data| - 1]);
      if ls == [] {
        assert Join([x, ""], '\n') == x + "\n" + "" by {
          assert [x, ""][1..] == [""];
        }
        assert Render(init) == "";
      } else {
        JoinSnoc(ls + [x], "", '\n');
        JoinSnoc(ls, x, '\n');
        JoinSnoc(ls, "", '\n');
        assert Join(ls, '\n') + "\n" + "" == Join(ls, '\n') + "\n";
      }
      assert EntryLines(data) == ls + [x];
    }
  }

  lemma {:induction false} ParseEntryLines(data: Dict<string, string>)
    requires Clean(data)
    ensures ParseLines(EntryLines(data)) == data
  {
    if data != [] {
      var n := |data| - 1;
      var init, e := data[..n], data[n];
      CleanInit(data);
      ParseEntryLines(init);
      ParseEntryLine(e.0, e.1);
      ParseLinesSnoc(EntryLines(init), EntryLine(e), e.0, e.1);
      assert EntryLines(data) == EntryLines(init) + [EntryLine(e)];
      assert Put(init, e.0, e.1) == init + [e];
      assert init + [e] == data;
    }
  }

  /** Dropping the last entry keeps a dict clean, and that entry's key is new. */
  lemma CleanInit(data: Dict<string, string>)
    requires Clean(data) && data != []
    ensures Clean(data[..|data| - 1])
    ensures !HasKey(data[..|data| - 1], data[|data| - 1].0)
  {
    var init := data[..|data| - 1];
    forall i, j | 0 <= i < j < |init| ensures init[i].0 != init[j].0 {
      assert init[i] == data[i] && init[j] == data[j];
    }
    forall i | 0 <= i < |init| ensures CleanKey(init[i].0) && CleanValue(init[i].1) {
      assert init[i] == data[i];
    }
    forall i | 0 <= i < |init| ensures init[i].0 != data[|data| - 1].0 {
      assert init[i] == data[i];
    }
  }

  lemma ParseLinesSnoc(lines: seq<string>, l: string, k: string, v: string)
    requires ParseLine(l) == Some((k, v))
    ensures ParseLines(lines + [l]) == Put(ParseLines(lines), k, v)
  {
    assert (lines + [l])[..|lines|] == lines;
  }

  /** `_read_file` after `_write_file(d)` gives d back when d is clean. */
  lemma WriteThenRead(data: Dict<string, string>)
    requires Clean(data)
    ensures ParseFile(Some(Render(data))) == data
  {
    RenderIsJoin(data);
    var lines := EntryLines(data) + [""];
    assert '\r' !in Render(data) by {
      RenderNoCR(data);
    }
    forall k | 0 <= k < |lines| ensures '\n' !in lines[k] {
      if k < |data| {
        assert lines[k] == EntryLine(data[k]);
      }
    }
    SplitJoin(lines, '\n');
    assert lines[..|lines| - 1] == EntryLines(data);
    ParseEntryLines(data);
  }

  lemma {:induction false} RenderNoCR(data: Dict<string, string>)
    requires forall i :: 0 <= i < |data| ==> '\r' !in data[i].0 && '\r' !in data[i].1
    ensures '\r' !in Render(data)
  {
    if data != [] {
      RenderNoCR(data[..|data| - 1]);
    }
  }

  /** A stripped line has no whitespace at either end and no character the line lacks. */
  lemma StripFacts(line: string)
    ensures var l := Strip(line); l == [] || (!IsSpace(l[0]) && !IsSpace(l[|l| - 1]))
    ensures forall c :: c in Strip(line) ==> c in line
  {
    var left := LStripSpace(line);
    var l := RStripSpace(left);
    assert l == left[..|l|];
    if l != [] {
      assert l[0] == left[0];
    }
  }

  /** What a line yields is always clean. */
  lemma ParseLineClean(line: string)
    requires '\n' !in line && '\r' !in line
    ensures ParseLine(line).Some? ==> CleanKey(ParseLine(line).value.0) && CleanValue(ParseLine(line).value.1)
  {
    var l := Strip(line);
    StripFacts(line);
    var r := SplitFirst(l, '=');
    if r.Some? {
      var k, v := r.value.0, r.value.1;
      assert l == k + "=" + v;
      if k != [] {
        assert k[0] == l[0];
      }
      if v != [] {
        assert v[|v| - 1] == l[|l| - 1];
      }
      assert forall c :: c in k ==> c in l;
      assert forall c :: c in v ==> c in l;
    }
  }

  lemma PutClean(d: Dict<string, string>, k: string, v: string)
    requires Clean(d) && CleanKey(k) && CleanValue(v)
    ensures Clean(Put(d, k, v))
  {
    PutKeepsDistinct(d, k, v);
  }

  lemma {:induction false} ParseLinesClean(lines: seq<string>)
    requires forall i :: 0 <= i < |lines| ==> '\n' !in lines[i] && '\r' !in lines[i]
    ensures Clean(ParseLines(lines))
  {
    if lines != [] {
      var init := lines[..|lines| - 1];
      ParseLinesClean(init);
      ParseLineClean(lines[|lines| - 1]);
      var p := ParseLine(lines[|lines| - 1]);
      if p.Some? {
        PutClean(ParseLines(init), p.value.0, p.value.1);
      }
    }
  }

  /** Whatever the file holds, `_read_file` returns a dict that would round-trip. */
  lemma ParseFileClean(file: Option<string>)
    ensures Clean(ParseFile(file))
  {
    if file.Some? {
      var t := TranslateNewlines(file.value);
      var lines := Split(t, '\n');
      SplitPartsHaveNoSep(t, '\n');
      forall i | 0 <= i < |lines| ensures '\r' !in lines[i] {
        SplitPartsSubstring(t, '\n', i);
      }
      ParseLinesClean(lines);
    }
  }

  /** A part returned by split holds only characters of the text. */
  lemma {:induction false} SplitPartsSubstring(s: string, sep: char, i: nat)
    requires i < |Split(s, sep)|
    ensures forall c :: c in Split(s, sep)[i] ==> c in s
  {
    if s != [] {
      var rest := Split(s[1..], sep);
      if s[0] == sep {
        if i > 0 {
          SplitPartsSubstring(s[1..], sep, i - 1);
        }
      } else if i == 0 {
        SplitPartsSubstring(s[1..], sep, 0);
      } else {
        SplitPartsSubstring(s[1..], sep, i);
      }
    }
  }

  // ---------------------------------------------------------------------
  // The store
  // ---------------------------------------------------------------------

  class FileSingletonStore {
    /** The singleton file: None when it does not exist. */
    var file: Option<string>

    /** Creates an empty file only when none exists; an existing one is kept as it is. */
    constructor (existing: Option<string>)
      ensures existing.None? ==> file == Some("")
      ensures existing.Some? ==> file == existing
    {
      if existing.None? {
        file := Some("");
      } else {
        file := existing;
      }
    }

    /** `_read_file`: the line loop, strip, then split at the first '='. */
    method ReadFile() returns (data: Dict<string, string>)
      ensures data == ParseFile(file)
    {
      if file.None? {
        return [];
      }
      var lines := Split(TranslateNewlines(file.value), '\n');
      data := [];
      var i := 0;
      while i < |lines|
        invariant 0 <= i <= |lines|
        invariant data == ParseLines(lines[..i])
      {
        ParseLinesStep(lines, i);
        var parsed := ParseLine(lines[i]);
        if parsed.Some? {
          var (key, value) := parsed.value;
          data := Put(data, key, value);
        }
        i := i + 1;
      }
      assert lines[..|lines|] == lines;
    }

    /** `_write_file`: rebuilds the whole text from the dict. */
    method WriteFile(data: Dict<string, string>)
      modifies this
      ensures file == Some(Render(data))
    {
      var text := "";
      var i := 0;
      while i < |data|
        invariant 0 <= i <= |data|
        invariant text == Render(data[..i])
      {
        assert data[..i + 1][..i] == data[..i];
        text := text + data[i].0 + "=" + data[i].1 + "\n";
        i := i + 1;
      }
      assert data[..|data|] == data;
      file := Some(text);
    }

    /** Read-modify-write of the whole file with data[key] = value. */
    method Set(key: string, value: PyValue)
      modifies this
      ensures file == Some(Render(Put(ParseFile(old(file)), key, StrOf(value))))
    {
      var data := ReadFile();
      data := Put(data, key, StrOf(value));
      WriteFile(data);
    }

    method Get(key: string) returns (r: Option<string>)
      ensures r == PyDict.Get(ParseFile(file), key)
      ensures r.None? <==> !HasKey(ParseFile(file), key)
    {
      var data := ReadFile();
      r := PyDict.Get(data, key);
    }

    method All() returns (data: Dict<string, string>)
      ensures data == ParseFile(file)
      ensures Clean(data)
    {
      data := ReadFile();
      ParseFileClean(file);
    }

    method Clear()
      modifies this
      ensures file == Some("") && ParseFile(file) == []
    {
      WriteFile([]);
      assert Split("", '\n') == [""];
    }
  }

  /** A missing file reads as {}. */
  lemma ReadMissing()
    ensures ParseFile(None) == []
  {
  }

  lemma PutThenRead(d: Dict<string, string>, key: string, value: string, other: string)
    requires Clean(d) && CleanKey(key) && CleanValue(value)
    ensures PyDict.Get(ParseFile(Some(Render(Put(d, key, value)))), other)
      == if other == key then Some(value) else PyDict.Get(d, other)
  {
    PutClean(d, key, value);
    WriteThenRead(Put(d, key, value));
    GetPut(d, key, value, other);
  }

  /**
   * After set(key, value) with a clean key and value, get(key) is value and
   * every other key reads as before, whatever the file held.
   */
  lemma SetThenGet(file: Option<string>, key: string, value: PyValue, other: string)
    requires CleanKey(key) && CleanValue(StrOf(value))
    ensures PyDict.Get(ParseFile(Some(Render(Put(ParseFile(file), key, StrOf(value))))), other)
      == if other == key then Some(StrOf(value)) else PyDict.Get(ParseFile(file), other)
  {
    ParseFileClean(file);
    PutThenRead(ParseFile(file), key, StrOf(value), other);
  }

  /** The file after set(key, value), starting from the given file. */
  function AfterSet(file: Option<string>, key: string, value: PyValue): Option<string> {
    Some(Render(Put(ParseFile(file), key, StrOf(value))))
  }

  /** Reading one key of the file after set(key, value). */
  lemma GetAfterSet(file: Option<string>, key: string, value: PyValue, other: string)
    requires CleanKey(key) && CleanValue(StrOf(value))
    ensures PyDict.Get(ParseFile(AfterSet(file, key, value)), other)
      == if other == key then Some(StrOf(value)) else PyDict.Get(ParseFile(file), other)
  {
    SetThenGet(file, key, value, other);
  }

  /** Three set calls on distinct clean keys: get returns the str() of each value. */
  lemma ThreeSets(file: Option<string>, k1: string, v1: PyValue, k2: string, v2: PyValue, k3: string, v3: PyValue)
    requires CleanKey(k1) && CleanKey(k2) && CleanKey(k3) && k1 != k2 && k1 != k3 && k2 != k3
    requires CleanValue(StrOf(v1)) && CleanValue(StrOf(v2)) && CleanValue(StrOf(v3))
    ensures var f := AfterSet(AfterSet(AfterSet(file, k1, v1), k2, v2), k3, v3);
      && PyDict.Get(ParseFile(f), k1) == Some(StrOf(v1))
      && PyDict.Get(ParseFile(f), k2) == Some(StrOf(v2))
      && PyDict.Get(ParseFile(f), k3) == Some(StrOf(v3))
  {
    var f1 := AfterSet(file, k1, v1);
    var f2 := AfterSet(f1, k2, v2);
    GetAfterSet(file, k1, v1, k1);
    GetAfterSet(f1, k2, v2, k1);
    GetAfterSet(f1, k2, v2, k2);
    GetAfterSet(f2, k3, v3, k1);
    GetAfterSet(f2, k3, v3, k2);
    GetAfterSet(f2, k3, v3, k3);
  }

  /**
   * Whatever the file held, after set("number", 42), set("float", 3.14) and
   * set("bool", True), get returns the strings "42", "3.14" and "True".
   */
  lemma TypeLost(file: Option<string>)
    ensures var f := AfterSet(AfterSet(AfterSet(file, "number", PyInt(42)), "float", PyFloat("3.14")), "bool", PyBool(true));
      && PyDict.Get(ParseFile(f), "number") == Some("42")
      && PyDict.Get(ParseFile(f), "float") == Some("3.14")
      && PyDict.Get(ParseFile(f), "bool") == Some("True")
  {
    DemoValues();
    DemoKeys();
    ThreeSets(file, "number", PyInt(42), "float", PyFloat("3.14"), "bool", PyBool(true));
  }

  /** The values the demonstration stores, as str() gives them. */
  lemma DemoValues()
    ensures StrOf(PyInt(42)) == "42" && CleanValue(StrOf(PyInt(42)))
    ensures StrOf(PyFloat("3.14")) == "3.14" && CleanValue(StrOf(PyFloat("3.14")))
    ensures StrOf(PyBool(true)) == "True" && CleanValue(StrOf(PyBool(true)))
  {
    assert IntToStr(42) == "42";
    StrOfClean(PyInt(42));
    StrOfClean(PyBool(true));
  }

  /** The keys the demonstration uses are clean and distinct. */
  lemma DemoKeys()
    ensures CleanKey("number") && CleanKey("float") && CleanKey("bool")
    ensures "number" != "float" && "number" != "bool" && "float" != "bool"
  {
  }

  /** Lines without '=' are skipped; for a repeated key the later line wins. */
  lemma LaterLineWins()
    ensures ParseLines(["a=1", "noise", "a=2"]) == [("a", "2")]
  {
    assert ["a=1", "noise", "a=2"][..2] == ["a=1", "noise"];
    assert ["a=1", "noise"][..1] == ["a=1"];
    assert ["a=1"][..0] == [];
    StripNoSpaceEnds("a=1");
    StripNoSpaceEnds("a=2");
    StripNoSpaceEnds("noise");
    ParseEntryLine("a", "1");
    ParseEntryLine("a", "2");
    assert EntryLine(("a", "1")) == "a=1";
    assert EntryLine(("a", "2")) == "a=2";
    assert '=' !in "noise";
    assert [("a", "1")][0].0 == "a";
  }
}
