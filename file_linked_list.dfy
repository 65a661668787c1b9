/**
 * A singly linked list whose nodes are files: node `node_{value}.txt`
 * holds the two lines `value=<int>` and `next=<file name or NONE>`, and the
 * list keeps only the file name of its head. The directory is the field
 * `files`, a map from file name to the node record the file holds: the
 * value and the text written after `next=`. The text layout of a node file
 * and its parsing are modelled separately, with their round trip.
 */
module FileLinkedList {
  import opened Wrappers
  import opened PyStr

  /** The two fields of a node file, as written: the value and the text after `next=`. */
  datatype NodeFile = NodeFile(value: int, next: string)

  type Files = map<string, NodeFile>

  // ---------------------------------------------------------------------
  // Node files
  // ---------------------------------------------------------------------

  /** The file of the node for a value: the name depends on the value alone. */
  function NodeName(value: int): (name: string)
    ensures name == "node_" + IntToStr(value) + ".txt"
    ensures name != [] && name[0] == 'n' && NoLineBreak(name)
  {
    var s := IntToStr(value);
    var name := "node_" + s + ".txt";
    assert forall k :: 5 <= k < 5 + |s| ==> name[k] == s[k - 5];
    name
  }

  lemma NodeNameInjective(a: int, b: int)
    requires NodeName(a) == NodeName(b)
    ensures a == b
  {
    var s, t := IntToStr(a), IntToStr(b);
    var n := NodeName(a);
    assert |s| == |t|;
    assert n[5..5 + |s|] == s && n[5..5 + |t|] == t;
    IntToStrInjective(a, b);
  }

  /** The text after `next=`: an absent or empty next name is written as NONE. */
  function NextField(next: Option<string>): string {
    if next.Some? && next.value != [] then next.value else "NONE"
  }

  /** `_write_node(f, value, next)`: what the file holds afterwards. */
  function Written(value: int, next: Option<string>): NodeFile {
    NodeFile(value, NextField(next))
  }

  /** `_read_node`'s result for a node file: NONE reads as None. */
  function ReadRecord(f: NodeFile): (int, Option<string>) {
    (f.value, if f.next == "NONE" then None else Some(f.next))
  }

  const NoSuchFile := Error(FileNotFoundError, "No such file or directory")
  const ValueNotFound := Error(ValueError, "Value not found")

  /** `_read_node` on the directory: a missing file raises FileNotFoundError. */
  function ReadNodeAt(files: Files, name: string): (r: Result<(int, Option<string>)>)
    ensures r.Failure? <==> name !in files
  {
    if name !in files then Failure(NoSuchFile) else Success(ReadRecord(files[name]))
  }

  /** What a next name reads back as after it has been written. */
  function StoredNext(next: Option<string>): Option<string> {
    if next.None? || next.value == [] || next.value == "NONE" then None else next
  }

  /** `_read_node` after `_write_node(f, v, n)` gives (v, n), with an empty or NONE name read as None. */
  lemma NodeRoundTrip(value: int, next: Option<string>)
    ensures ReadRecord(Written(value, next)) == (value, StoredNext(next))
  {
  }

  /** A node name survives a write and a read unchanged. */
  lemma NodeLinkRoundTrip(value: int, target: int)
    ensures ReadRecord(Written(value, Some(NodeName(target)))) == (value, Some(NodeName(target)))
    ensures ReadRecord(Written(value, None)) == (value, None)
  {
    assert NodeName(target)[0] != "NONE"[0];
  }

  // ---------------------------------------------------------------------
  // The text of a node file
  // ---------------------------------------------------------------------

  function ValueLine(value: int): string {
    "value=" + IntToStr(value)
  }

  function NextLine(next: string): string {
    "next=" + next
  }

  /** The text `_write_node` writes: `value=<int>` and `next=<name>`, each ending in a newline. */
  function FileText(f: NodeFile): string {
    ValueLine(f.value) + "\n" + (NextLine(f.next) + "\n")
  }

  const ListIndexError := Error(IndexError, "list index out of range")

  /** lines[k].split("=", 1)[1]: the text after the first '=' of line k. */
  function AfterEquals(lines: seq<string>, k: nat): (r: Result<string>)
    ensures r.Failure? ==> r.error == ListIndexError
  {
    if k >= |lines| then Failure(ListIndexError)
    else match SplitFirst(lines[k], '=')
      case None => Failure(ListIndexError)
      case Some((_, rest)) => Success(rest)
  }

  /**
   * `_read_node`'s parsing of a file's text: the value is int() of what
   * follows the first '=' of the first line, the next name what follows it
   * on the second line. A malformed file raises IndexError or ValueError.
   */
  function ParseNode(text: string): (r: Result<NodeFile>)
    ensures r.Failure? ==> r.error == ListIndexError || r.error == IntLiteralError
  {
    var lines := SplitLines(text);
    match AfterEquals(lines, 0)
    case Failure(e) => Failure(e)
    case Success(valueText) =>
      match ParseInt(valueText)
      case Failure(e) => Failure(e)
      case Success(value) =>
        match AfterEquals(lines, 1)
        case Failure(e) => Failure(e)
        case Success(next) => Success(NodeFile(value, next))
  }

  lemma SplitFirstLine(key: string, rest: string)
    requires '=' !in key
    ensures SplitFirst(key + "=" + rest, '=') == Some((key, rest))
  {
    assert key + "=" + rest == key + ['='] + rest;
    SplitFirstAfter(key, '=', rest);
  }

  lemma NoLineBreakConcat(a: string, b: string)
    requires NoLineBreak(a) && NoLineBreak(b)
    ensures NoLineBreak(a + b)
  {
    assert forall k :: |a| <= k < |a + b| ==> (a + b)[k] == b[k - |a|];
  }

  lemma LinesHaveNoBreak(f: NodeFile)
    requires NoLineBreak(f.next)
    ensures NoLineBreak(ValueLine(f.value)) && NoLineBreak(NextLine(f.next))
  {
    var s := IntToStr(f.value);
    assert NoLineBreak(s) by {
      assert forall k :: 0 <= k < |s| ==> s[k] == '-' || IsDigit(s[k]);
    }
    NoLineBreakConcat("value=", s);
    NoLineBreakConcat("next=", f.next);
  }

  lemma NodeLines(f: NodeFile)
    requires NoLineBreak(f.next)
    ensures SplitLines(FileText(f)) == [ValueLine(f.value), NextLine(f.next)]
  {
    var a, b := ValueLine(f.value), NextLine(f.next);
    LinesHaveNoBreak(f);
    SplitLinesCons(a, b + "\n");
    SplitLinesCons(b, "");
    assert b + "\n" + "" == b + "\n";
  }

  lemma ValueField(a: string, b: string, value: int)
    requires a == ValueLine(value)
    ensures AfterEquals([a, b], 0) == Success(IntToStr(value))
  {
    assert "value" + "=" == "value=";
    assert '=' !in "value";
    SplitFirstLine("value", IntToStr(value));
  }

  lemma NextFieldAt(a: string, b: string, next: string)
    requires b == NextLine(next)
    ensures AfterEquals([a, b], 1) == Success(next)
  {
    assert "next" + "=" == "next=";
    assert '=' !in "next";
    SplitFirstLine("next", next);
  }

  /** Parsing the text of a node file gives its record back, when the next name has no line break. */
  lemma TextRoundTrip(f: NodeFile)
    requires NoLineBreak(f.next)
    ensures ParseNode(FileText(f)) == Success(f)
  {
    NodeLines(f);
    ValueField(ValueLine(f.value), NextLine(f.next), f.value);
    NextFieldAt(ValueLine(f.value), NextLine(f.next), f.next);
    ParseIntToStr(f.value);
  }

  /** Every file the list writes round-trips through its text. */
  lemma WrittenTextRoundTrip(value: int, next: Option<string>)
    requires next.None? || NoLineBreak(next.value)
    ensures ParseNode(FileText(Written(value, next))) == Success(Written(value, next))
  {
    TextRoundTrip(Written(value, next));
  }

  // ---------------------------------------------------------------------
  // Following the next names
  // ---------------------------------------------------------------------

  /** How a walk along the next names stops. */
  datatype Stop =
    | End
    | Broken(at: string, error: Error)
    /** The walk read more nodes than the directory holds files: it is going round a cycle. */
    | OutOfFuel(at: string)

  /** The nodes read along the walk, in order: file names, values and next names. */
  datatype Walk = Walk(names: seq<string>, values: seq<int>, nexts: seq<Option<string>>, stop: Stop)

  predicate WellSized(w: Walk) {
    |w.values| == |w.names| && |w.nexts| == |w.names|
  }

  /** Reads node after node from `current`, at most `fuel` of them. */
  function WalkFrom(files: Files, current: Option<string>, fuel: nat): (w: Walk)
    ensures WellSized(w) && |w.names| <= fuel
    decreases fuel
  {
    if current.None? then Walk([], [], [], End)
    else if fuel == 0 then Walk([], [], [], OutOfFuel(current.value))
    else
      match ReadNodeAt(files, current.value)
      case Failure(e) => Walk([], [], [], Broken(current.value, e))
      case Success((value, next)) =>
        var w := WalkFrom(files, next, fuel - 1);
        Walk([current.value] + w.names, [value] + w.values, [next] + w.nexts, w.stop)
  }

  /** The name of the node before the k-th one of the walk, None for the first. */
  function Before(w: Walk, k: nat): Option<string>
    requires k <= |w.names|
  {
    if k == 0 then None else Some(w.names[k - 1])
  }

  /** The walk w without its first k nodes. */
  function Suffix(w: Walk, k: nat): Walk
    requires WellSized(w) && k <= |w.names|
  {
    Walk(w.names[k..], w.values[k..], w.nexts[k..], w.stop)
  }

  /** One step of a walk: a readable node is the k-th of the walk and the rest starts after it. */
  lemma WalkStep(files: Files, current: string, fuel: nat, w: Walk, k: nat)
    requires WellSized(w) && k <= |w.names|
    requires WalkFrom(files, Some(current), fuel) == Suffix(w, k)
    requires current in files && fuel > 0
    ensures k < |w.names| && w.names[k] == current
    ensures w.values[k] == files[current].value && w.nexts[k] == ReadRecord(files[current]).1
    ensures WalkFrom(files, ReadRecord(files[current]).1, fuel - 1) == Suffix(w, k + 1)
  {
    var rest := WalkFrom(files, ReadRecord(files[current]).1, fuel - 1);
    assert w.names[k..] == [current] + rest.names;
    assert w.names[k + 1..] == w.names[k..][1..];
    assert w.values[k + 1..] == w.values[k..][1..];
    assert w.nexts[k + 1..] == w.nexts[k..][1..];
  }

  /**
   * The walk from the head. A walk that ends or breaks reads each node once,
   * so it needs at most one step per file; one more step means a cycle.
   */
  function Chain(files: Files, head: Option<string>): Walk {
    WalkFrom(files, head, |files| + 1)
  }

  predicate Terminates(w: Walk) {
    !w.stop.OutOfFuel?
  }

  /** `traverse`: the values in order, or the error of the first unreadable node. */
  function TraverseSpec(files: Files, head: Option<string>): (r: Result<seq<int>>)
    requires Terminates(Chain(files, head))
    ensures r.Success? <==> Chain(files, head).stop == End
  {
    var w := Chain(files, head);
    match w.stop
    case Broken(_, e) => Failure(e)
    case End => Success(w.values)
  }

  /** Index of the first occurrence of v. */
  function FirstIndex(s: seq<int>, v: int): (i: nat)
    requires v in s
    ensures i < |s| && s[i] == v && v !in s[..i]
  {
    if s[0] == v then 0
    else
      var i := 1 + FirstIndex(s[1..], v);
      assert s[..i] == [s[0]] + s[1..][..i - 1];
      i
  }

  // ---------------------------------------------------------------------
  // The operations as functions of the directory and the head
  // ---------------------------------------------------------------------

  datatype Disk = Disk(files: Files, head: Option<string>)

  datatype Outcome = Outcome(reply: Result<()>, disk: Disk)

  predicate CanAppend(d: Disk) {
    d.head.None? || Terminates(Chain(d.files, d.head))
  }

  /** The inner loop of `append`: the file name of the last node, read from the head on. */
  function TailSpec(files: Files, head: Option<string>): Result<string>
    requires head.Some? && Terminates(Chain(files, head))
  {
    var w := Chain(files, head);
    match w.stop
    case Broken(_, e) => Failure(e)
    case End => Success(w.names[|w.names| - 1])
  }

  /**
   * `append`: an empty list gets the new node as head. Otherwise the walk
   * finds the tail, the new node is written, the tail is read again and
   * rewritten to point to the new node's file.
   */
  function AppendSpec(d: Disk, value: int): Outcome
    requires CanAppend(d)
  {
    var name := NodeName(value);
    if d.head.None? then Outcome(Success(()), Disk(d.files[name := Written(value, None)], Some(name)))
    else
      match TailSpec(d.files, d.head)
      case Failure(e) => Outcome(Failure(e), d)
      case Success(tail) =>
        var files1 := d.files[name := Written(value, None)];
        match ReadNodeAt(files1, tail)
        case Failure(e) => Outcome(Failure(e), Disk(files1, d.head))
        case Success((tailValue, _)) =>
          Outcome(Success(()), Disk(files1[tail := Written(tailValue, Some(name))], d.head))
  }

  predicate CanDelete(d: Disk, value: int) {
    var w := Chain(d.files, d.head);
    Terminates(w) || value in w.values
  }

  /**
   * The loop of `delete`: the first node holding the value, as its
   * predecessor's file name (None for the head), its own file name and its
   * next name.
   */
  function FindSpec(files: Files, head: Option<string>, value: int): Result<(Option<string>, string, Option<string>)>
    requires CanDelete(Disk(files, head), value)
  {
    var w := Chain(files, head);
    if value in w.values then
      var j := FirstIndex(w.values, value);
      Success((Before(w, j), w.names[j], w.nexts[j]))
    else
      match w.stop
      case Broken(_, e) => Failure(e)
      case End => Failure(ValueNotFound)
  }

  /** The first index is the only position holding v with no v before it. */
  lemma FirstIndexUnique(s: seq<int>, v: int, k: nat)
    requires k < |s| && s[k] == v && v !in s[..k]
    ensures FirstIndex(s, v) == k
  {
  }

  /** Passing a position that does not hold v. */
  lemma SkipValue(s: seq<int>, k: nat, v: int)
    requires k < |s| && s[k] != v
    ensures v !in s[..k] ==> v !in s[..k + 1]
    ensures v in s[k..] ==> v in s[k + 1..]
  {
    assert s[..k + 1] == s[..k] + [s[k]];
    assert s[k..] == [s[k]] + s[k + 1..];
  }

  /** The search stops at the k-th node when it holds the value and no earlier node does. */
  lemma FindSpecAt(files: Files, head: Option<string>, value: int, k: nat)
    requires CanDelete(Disk(files, head), value)
    requires k < |Chain(files, head).values|
    requires Chain(files, head).values[k] == value && value !in Chain(files, head).values[..k]
    ensures var w := Chain(files, head);
      FindSpec(files, head, value) == Success((Before(w, k), w.names[k], w.nexts[k]))
  {
    FirstIndexUnique(Chain(files, head).values, value, k);
  }

  /** The search meets a missing file after k nodes, none of which holds the value. */
  lemma FindSpecBroken(files: Files, head: Option<string>, value: int, k: nat, current: string, fuel: nat)
    requires CanDelete(Disk(files, head), value)
    requires var w := Chain(files, head);
      k <= |w.names| && WalkFrom(files, Some(current), fuel) == Suffix(w, k) && value !in w.values[..k]
    requires current !in files
    ensures FindSpec(files, head, value) == Failure(NoSuchFile)
  {
    var w := Chain(files, head);
    assert w.values[..k] == w.values;
  }

  /** The search reaches the end after k nodes, none of which holds the value. */
  lemma FindSpecEnd(files: Files, head: Option<string>, value: int, k: nat, fuel: nat)
    requires CanDelete(Disk(files, head), value)
    requires var w := Chain(files, head);
      k <= |w.names| && WalkFrom(files, None, fuel) == Suffix(w, k) && value !in w.values[..k]
    ensures FindSpec(files, head, value) == Failure(ValueNotFound)
  {
    var w := Chain(files, head);
    assert w.values[..k] == w.values;
  }

  /**
   * The loop of `delete` as a recursion: from `current`, with the name of
   * the node before it, read node after node until one holds the value.
   * Running out of fuel cannot happen when the walk settles (below).
   */
  function FindFrom(files: Files, current: Option<string>, previous: Option<string>, value: int, fuel: nat)
    : Result<(Option<string>, string, Option<string>)>
    decreases fuel
  {
    if current.None? || fuel == 0 then Failure(ValueNotFound)
    else
      match ReadNodeAt(files, current.value)
      case Failure(e) => Failure(e)
      case Success((v, next)) =>
        if v == value then Success((previous, current.value, next))
        else FindFrom(files, next, current, value, fuel - 1)
  }

  /** The walk from `current` reaches the end, a missing file or the value within the fuel. */
  predicate Settles(files: Files, current: Option<string>, value: int, fuel: nat)
    decreases fuel
  {
    current.None?
    || (fuel > 0
        && match ReadNodeAt(files, current.value)
           case Failure(_) => true
           case Success((v, next)) => v == value || Settles(files, next, value, fuel - 1))
  }

  /** From the k-th node of the walk on, the loop finds what the first-index search finds. */
  lemma {:induction false} FindFromWalk(files: Files, head: Option<string>, value: int, k: nat,
                                        current: Option<string>, previous: Option<string>, fuel: nat)
    requires CanDelete(Disk(files, head), value)
    requires var w := Chain(files, head);
      k <= |w.names| && WalkFrom(files, current, fuel) == Suffix(w, k) && value !in w.values[..k]
      && previous == Before(w, k) && (w.stop.OutOfFuel? ==> value in w.values[k..])
    ensures Settles(files, current, value, fuel)
    ensures FindFrom(files, current, previous, value, fuel) == FindSpec(files, head, value)
    decreases fuel
  {
    var w := Chain(files, head);
    if current.None? {
      FindSpecEnd(files, head, value, k, fuel);
    } else if fuel > 0 {
      if current.value !in files {
        FindSpecBroken(files, head, value, k, current.value, fuel);
      } else {
        WalkStep(files, current.value, fuel, w, k);
        var next := ReadRecord(files[current.value]).1;
        if w.values[k] == value {
          FindSpecAt(files, head, value, k);
        } else {
          SkipValue(w.values, k, value);
          FindFromWalk(files, head, value, k + 1, next, current, fuel - 1);
        }
      }
    }
  }

  /** The loop of `delete`, started at the head, is the first-index search. */
  lemma FindFromHead(files: Files, head: Option<string>, value: int)
    requires CanDelete(Disk(files, head), value)
    ensures Settles(files, head, value, |files| + 1)
    ensures FindFrom(files, head, None, value, |files| + 1) == FindSpec(files, head, value)
  {
    var w := Chain(files, head);
    assert w.names[0..] == w.names && w.values[0..] == w.values && w.nexts[0..] == w.nexts;
    FindFromWalk(files, head, value, 0, head, None, |files| + 1);
  }

  /**
   * `delete`: the first node holding the value is unlinked, through the head
   * when it is the first node and otherwise by rewriting its predecessor
   * (read again first), and then its file is removed.
   */
  function DeleteSpec(d: Disk, value: int): Outcome
    requires CanDelete(d, value)
  {
    match FindSpec(d.files, d.head, value)
    case Failure(e) => Outcome(Failure(e), d)
    case Success((prev, current, next)) =>
      if prev.None? then Outcome(Success(()), Disk(d.files - {current}, next))
      else
        match ReadNodeAt(d.files, prev.value)
        case Failure(e) => Outcome(Failure(e), d)
        case Success((prevValue, _)) =>
          Outcome(Success(()), Disk(d.files[prev.value := Written(prevValue, next)] - {current}, d.head))
  }

  // ---------------------------------------------------------------------
  // Directories that hold a well-formed list
  // ---------------------------------------------------------------------
  // The shape of a list is stated for any sequence of file names first, and
  // the list of `node_{value}.txt` names is one instance of it.

  /** The name of the i-th node, or None past the end. */
  function NextAt(names: seq<string>, i: nat): Option<string> {
    if i < |names| then Some(names[i]) else None
  }

  /** Names a node can point to: not empty and not the NONE marker. */
  predicate GoodNames(names: seq<string>) {
    forall i :: 0 <= i < |names| ==> names[i] != [] && names[i] != "NONE"
  }

  predicate DistinctNames(names: seq<string>) {
    forall i, j :: 0 <= i < j < |names| ==> names[i] != names[j]
  }

  /** Each of the first m nodes reads back as its value and the name of the next node. */
  predicate Linked(files: Files, names: seq<string>, vals: seq<int>, m: nat)
    requires |names| == |vals| && m <= |vals|
  {
    forall i {:trigger ReadNodeAt(files, names[i])} :: 0 <= i < m ==>
      ReadNodeAt(files, names[i]) == Success((vals[i], NextAt(names, i + 1)))
  }

  /** The directory and the head hold the list vals, its nodes stored under names. */
  predicate ListOn(d: Disk, names: seq<string>, vals: seq<int>) {
    |names| == |vals| && GoodNames(names) && DistinctNames(names)
    && d.head == NextAt(names, 0) && Linked(d.files, names, vals, |vals|)
  }

  function NextSeq(names: seq<string>): (r: seq<Option<string>>)
    ensures |r| == |names| && forall i :: 0 <= i < |names| ==> r[i] == NextAt(names, i + 1)
  {
    if names == [] then [] else [NextAt(names, 1)] + NextSeq(names[1..])
  }

  /** Distinct names that are all keys of the directory need as many keys. */
  lemma {:induction false} DistinctFit(names: seq<string>, keys: set<string>)
    requires DistinctNames(names) && forall i :: 0 <= i < |names| ==> names[i] in keys
    ensures |names| <= |keys|
  {
    if names != [] {
      var t := names[1..];
      forall i | 0 <= i < |t| ensures t[i] in keys - {names[0]} {
        assert t[i] == names[i + 1];
      }
      forall i, j | 0 <= i < j < |t| ensures t[i] != t[j] {
        assert t[i] == names[i + 1] && t[j] == names[j + 1];
      }
      DistinctFit(t, keys - {names[0]});
    }
  }

  lemma {:induction false} SubsetSize(a: set<string>, b: set<string>)
    requires a <= b
    ensures |a| <= |b|
  {
    if a != {} {
      var x :| x in a;
      SubsetSize(a - {x}, b - {x});
    }
  }

  /** A list of n nodes needs n files, so the directory holds at least n. */
  lemma ListSize(d: Disk, names: seq<string>, vals: seq<int>)
    requires ListOn(d, names, vals)
    ensures |d.files| >= |names|
  {
    forall i | 0 <= i < |names| ensures names[i] in d.files.Keys {
      assert ReadNodeAt(d.files, names[i]).Success?;
    }
    DistinctFit(names, d.files.Keys);
  }

  lemma ConsSlice<T>(s: seq<T>, i: nat)
    requires i < |s|
    ensures s[i..] == [s[i]] + s[i + 1..]
  {
  }

  /** The walk from the i-th node of a list reads the rest of the list and ends. */
  lemma {:induction false} WalkRest(files: Files, names: seq<string>, vals: seq<int>, i: nat, fuel: nat)
    requires |names| == |vals| && i <= |vals| && GoodNames(names) && Linked(files, names, vals, |vals|)
    requires fuel > |vals| - i
    ensures WalkFrom(files, NextAt(names, i), fuel) == Walk(names[i..], vals[i..], NextSeq(names)[i..], End)
    decreases |vals| - i
  {
    var nexts := NextSeq(names);
    if i < |vals| {
      assert ReadNodeAt(files, names[i]) == Success((vals[i], NextAt(names, i + 1)));
      WalkRest(files, names, vals, i + 1, fuel - 1);
      ConsSlice(names, i);
      ConsSlice(vals, i);
      ConsSlice(nexts, i);
    }
  }

  /** Where the walk from the i-th node stops, when nodes i..m-1 are linked. */
  lemma {:induction false} StopThrough(files: Files, names: seq<string>, vals: seq<int>, m: nat, i: nat, fuel: nat)
    requires |names| == |vals| && i <= m <= |vals| && GoodNames(names) && Linked(files, names, vals, m)
    requires fuel >= m - i
    ensures WalkFrom(files, NextAt(names, i), fuel).stop == WalkFrom(files, NextAt(names, m), fuel - (m - i)).stop
    decreases m - i
  {
    if i < m {
      assert ReadNodeAt(files, names[i]) == Success((vals[i], NextAt(names, i + 1)));
      StopThrough(files, names, vals, m, i + 1, fuel - 1);
    }
  }

  /** A list is walked node by node to its end. */
  lemma ListChain(d: Disk, names: seq<string>, vals: seq<int>)
    requires ListOn(d, names, vals)
    ensures Chain(d.files, d.head) == Walk(names, vals, NextSeq(names), End)
  {
    ListSize(d, names, vals);
    WalkRest(d.files, names, vals, 0, |d.files| + 1);
    assert names[0..] == names && vals[0..] == vals && NextSeq(names)[0..] == NextSeq(names);
  }

  /** A node name is a good name to point to. */
  lemma NodeNameGood(value: int)
    ensures NodeName(value) != [] && NodeName(value) != "NONE"
  {
    assert NodeName(value)[0] != "NONE"[0];
  }

  /** The node a list ends with, rewritten to point to a new node n. */
  lemma RelinkLast(files: Files, names: seq<string>, vals: seq<int>, n: string, value: int)
    requires |names| == |vals| && names != [] && GoodNames(names) && DistinctNames(names)
    requires Linked(files, names, vals, |vals|) && n !in names && n != [] && n != "NONE"
    ensures var last := |names| - 1;
      var files2 := files[n := Written(value, None)][names[last] := Written(vals[last], Some(n))];
      Linked(files2, names + [n], vals + [value], |vals| + 1)
  {
    var last := |names| - 1;
    var files2 := files[n := Written(value, None)][names[last] := Written(vals[last], Some(n))];
    var names', vals' := names + [n], vals + [value];
    forall i | 0 <= i < |vals'|
      ensures ReadNodeAt(files2, names'[i]) == Success((vals'[i], NextAt(names', i + 1)))
    {
      if i < last {
        assert names'[i] == names[i] && names[i] != n && names[i] != names[last];
        assert ReadNodeAt(files, names[i]) == Success((vals[i], NextAt(names, i + 1)));
      }
    }
  }

  lemma SnocNames(names: seq<string>, n: string)
    requires GoodNames(names) && DistinctNames(names) && n !in names && n != [] && n != "NONE"
    ensures GoodNames(names + [n]) && DistinctNames(names + [n])
  {
    var names' := names + [n];
    forall i, j | 0 <= i < j < |names'| ensures names'[i] != names'[j] {
      assert names'[i] == names[i];
    }
  }

  /**
   * Appending a value whose file is not yet in the list: the new node is
   * written and the old tail, found by the walk, points to it.
   */
  lemma AppendOn(d: Disk, names: seq<string>, vals: seq<int>, value: int)
    requires ListOn(d, names, vals) && NodeName(value) !in names
    ensures CanAppend(d)
    ensures AppendSpec(d, value).reply == Success(())
    ensures ListOn(AppendSpec(d, value).disk, names + [NodeName(value)], vals + [value])
    ensures names != [] ==> AppendSpec(d, value).disk.head == d.head
  {
    var n := NodeName(value);
    NodeNameGood(value);
    SnocNames(names, n);
    var names', vals' := names + [n], vals + [value];
    if names == [] {
      var files1 := d.files[n := Written(value, None)];
      assert AppendSpec(d, value) == Outcome(Success(()), Disk(files1, Some(n)));
      assert ReadNodeAt(files1, names'[0]) == Success((value, None));
    } else {
      ListChain(d, names, vals);
      var last := |names| - 1;
      var t := names[last];
      var files1 := d.files[n := Written(value, None)];
      assert ReadNodeAt(d.files, t) == Success((vals[last], NextAt(names, last + 1)));
      assert ReadNodeAt(files1, t) == ReadNodeAt(d.files, t);
      var files2 := files1[t := Written(vals[last], Some(n))];
      assert AppendSpec(d, value) == Outcome(Success(()), Disk(files2, d.head));
      RelinkLast(d.files, names, vals, n, value);
      assert NextAt(names', 0) == NextAt(names, 0);
    }
  }

  /** Names and values of a list without its j-th node, position by position. */
  lemma RemoveAtIndex<T>(s: seq<T>, j: nat, i: nat)
    requires j < |s| && i < |s| - 1
    ensures (s[..j] + s[j + 1..])[i] == s[if i < j then i else i + 1]
  {
    if i < j {
      assert (s[..j] + s[j + 1..])[i] == s[..j][i];
    } else {
      assert (s[..j] + s[j + 1..])[i] == s[j + 1..][i - j];
    }
  }

  lemma NextAtRemove(names: seq<string>, j: nat, i: nat)
    requires j < |names| && i <= |names| - 1
    ensures NextAt(names[..j] + names[j + 1..], i) == NextAt(names, if i < j then i else i + 1)
  {
    if i < |names| - 1 {
      RemoveAtIndex(names, j, i);
    }
  }

  /** Without its j-th node, a list is still a list once the node before it points past it. */
  lemma Unlink(files: Files, names: seq<string>, vals: seq<int>, j: nat, files': Files)
    requires |names| == |vals| && j < |vals| && GoodNames(names) && DistinctNames(names)
    requires Linked(files, names, vals, |vals|)
    requires j == 0 ==> files' == files - {names[0]}
    requires j > 0 ==> files' == files[names[j - 1] := Written(vals[j - 1], NextAt(names, j + 1))] - {names[j]}
    ensures var names', vals' := names[..j] + names[j + 1..], vals[..j] + vals[j + 1..];
      GoodNames(names') && DistinctNames(names') && Linked(files', names', vals', |vals'|)
  {
    var names', vals' := names[..j] + names[j + 1..], vals[..j] + vals[j + 1..];
    forall i | 0 <= i < |names'| ensures names'[i] == names[if i < j then i else i + 1] {
      RemoveAtIndex(names, j, i);
    }
    forall i | 0 <= i < |vals'|
      ensures ReadNodeAt(files', names'[i]) == Success((vals'[i], NextAt(names', i + 1)))
    {
      var k := if i < j then i else i + 1;
      RemoveAtIndex(vals, j, i);
      NextAtRemove(names, j, i + 1);
      assert names'[i] == names[k] && names[k] != names[j];
      if k != j - 1 {
        assert ReadNodeAt(files, names[k]) == Success((vals[k], NextAt(names, k + 1)));
      }
    }
  }

  /** Deleting the j-th node of a list. */
  lemma DeleteOn(d: Disk, names: seq<string>, vals: seq<int>, j: nat)
    requires ListOn(d, names, vals) && Distinct(vals) && j < |vals|
    ensures CanDelete(d, vals[j])
    ensures DeleteSpec(d, vals[j]).reply == Success(())
    ensures ListOn(DeleteSpec(d, vals[j]).disk, names[..j] + names[j + 1..], vals[..j] + vals[j + 1..])
    ensures DeleteSpec(d, vals[j]).disk.files.Keys == d.files.Keys - {names[j]}
    ensures j == 0 ==> DeleteSpec(d, vals[j]).disk == Disk(d.files - {names[0]}, NextAt(names, 1))
    ensures j > 0 ==> DeleteSpec(d, vals[j]).disk.head == d.head
  {
    ListChain(d, names, vals);
    FirstIndexUnique(vals, vals[j], j);
    var files' := DeleteSpec(d, vals[j]).disk.files;
    if j > 0 {
      assert ReadNodeAt(d.files, names[j - 1]) == Success((vals[j - 1], NextAt(names, j)));
      assert names[j - 1] in d.files;
    }
    Unlink(d.files, names, vals, j, files');
    NextAtRemove(names, j, 0);
  }

  // ---------------------------------------------------------------------
  // The list as the list object writes it
  // ---------------------------------------------------------------------

  predicate Distinct(vals: seq<int>) {
    forall i, j :: 0 <= i < j < |vals| ==> vals[i] != vals[j]
  }

  /** The file names of the nodes for vals, in order. */
  function NameSeq(vals: seq<int>): (r: seq<string>)
    ensures |r| == |vals| && forall i :: 0 <= i < |vals| ==> r[i] == NodeName(vals[i])
  {
    if vals == [] then [] else [NodeName(vals[0])] + NameSeq(vals[1..])
  }

  /** Distinct values give distinct, well-formed file names. */
  lemma NameSeqGood(vals: seq<int>)
    requires Distinct(vals)
    ensures GoodNames(NameSeq(vals)) && DistinctNames(NameSeq(vals))
  {
    var names := NameSeq(vals);
    forall i | 0 <= i < |names| ensures names[i] != [] && names[i] != "NONE" {
      assert names[i][0] == 'n';
    }
    forall i, j | 0 <= i < j < |names| ensures names[i] != names[j] {
      if names[i] == names[j] {
        NodeNameInjective(vals[i], vals[j]);
      }
    }
  }

  /** The file of a value not in the list is not one of the list's files. */
  lemma NameNotIn(vals: seq<int>, value: int)
    requires value !in vals
    ensures NodeName(value) !in NameSeq(vals)
  {
    var names := NameSeq(vals);
    if NodeName(value) in names {
      var i :| 0 <= i < |names| && names[i] == NodeName(value);
      NodeNameInjective(vals[i], value);
    }
  }

  /** The directory and head hold exactly the list vals, with distinct values. */
  predicate Valid(d: Disk, vals: seq<int>) {
    Distinct(vals) && ListOn(d, NameSeq(vals), vals)
  }

  /** `traverse` on a well-formed list returns its values in order. */
  lemma TraverseValid(d: Disk, vals: seq<int>)
    requires Valid(d, vals)
    ensures Terminates(Chain(d.files, d.head)) && TraverseSpec(d.files, d.head) == Success(vals)
  {
    ListChain(d, NameSeq(vals), vals);
  }

  /** A new list is empty, whatever files the directory already holds. */
  lemma EmptyValid(files: Files)
    ensures Valid(Disk(files, None), [])
  {
  }

  /** Appending a value not yet in the list keeps it well formed and puts the value last. */
  lemma AppendKeepsValid(d: Disk, vals: seq<int>, value: int)
    requires Valid(d, vals) && value !in vals
    ensures CanAppend(d)
    ensures AppendSpec(d, value).reply == Success(())
    ensures Valid(AppendSpec(d, value).disk, vals + [value])
  {
    NameNotIn(vals, value);
    AppendOn(d, NameSeq(vals), vals, value);
    assert NameSeq(vals + [value]) == NameSeq(vals) + [NodeName(value)];
  }

  lemma InitSnoc<T>(s: seq<T>)
    requires s != []
    ensures s[..|s| - 1] + [s[|s| - 1]] == s
  {
  }

  lemma DistinctInit(vals: seq<int>)
    requires Distinct(vals) && vals != []
    ensures Distinct(vals[..|vals| - 1]) && vals[|vals| - 1] !in vals[..|vals| - 1]
  {
  }

  /** The last step of appending vals one by one. */
  lemma AppendLastValid(d: Disk, vals: seq<int>)
    requires Distinct(vals) && vals != [] && Valid(d, vals[..|vals| - 1])
    ensures CanAppend(d) && Valid(AppendSpec(d, vals[|vals| - 1]).disk, vals)
  {
    DistinctInit(vals);
    InitSnoc(vals);
    AppendKeepsValid(d, vals[..|vals| - 1], vals[|vals| - 1]);
  }

  /** The list after appending the values in order, starting from a new list. */
  function AppendAll(files: Files, vals: seq<int>): (d: Disk)
    requires Distinct(vals)
    ensures Valid(d, vals)
    decreases |vals|
  {
    if vals == [] then Disk(files, None)
    else
      DistinctInit(vals);
      var d0 := AppendAll(files, vals[..|vals| - 1]);
      AppendLastValid(d0, vals);
      AppendSpec(d0, vals[|vals| - 1]).disk
  }

  /** Appending distinct values one by one and traversing returns them in order. */
  lemma AppendsInOrder(files: Files, vals: seq<int>)
    requires Distinct(vals)
    ensures var d := AppendAll(files, vals);
      Terminates(Chain(d.files, d.head)) && TraverseSpec(d.files, d.head) == Success(vals)
  {
    TraverseValid(AppendAll(files, vals), vals);
  }

  /** A node that points to itself is walked round and round until the fuel runs out. */
  lemma {:induction false} SelfLoop(files: Files, name: string, value: int, fuel: nat)
    requires name in files && files[name] == Written(value, Some(name)) && name != [] && name != "NONE"
    ensures WalkFrom(files, Some(name), fuel).stop == OutOfFuel(name)
  {
    if fuel > 0 {
      SelfLoop(files, name, value, fuel - 1);
    }
  }

  /** Writing a file that is none of the first m nodes keeps them linked. */
  lemma LinkedUpdate(files: Files, names: seq<string>, vals: seq<int>, m: nat, key: string, f: NodeFile)
    requires |names| == |vals| && m <= |vals| && Linked(files, names, vals, m)
    requires forall i :: 0 <= i < m ==> names[i] != key
    ensures Linked(files[key := f], names, vals, m)
  {
    forall i | 0 <= i < m
      ensures ReadNodeAt(files[key := f], names[i]) == Success((vals[i], NextAt(names, i + 1)))
    {
      assert ReadNodeAt(files, names[i]) == Success((vals[i], NextAt(names, i + 1)));
    }
  }

  /** A list whose last node points to itself is walked until the fuel runs out. */
  lemma CycleAtEnd(files: Files, head: Option<string>, names: seq<string>, vals: seq<int>)
    requires |names| == |vals| && vals != [] && GoodNames(names) && head == NextAt(names, 0)
    requires Linked(files, names, vals, |vals| - 1) && |files| >= |vals| - 1
    requires var n := names[|names| - 1]; n in files && files[n] == Written(vals[|vals| - 1], Some(n))
    ensures !Terminates(Chain(files, head))
  {
    var m := |vals| - 1;
    StopThrough(files, names, vals, m, 0, |files| + 1);
    SelfLoop(files, names[m], vals[m], |files| + 1 - m);
  }

  /** Appending the value a list ends with, stated for any list. */
  lemma DuplicateLastOn(d: Disk, names: seq<string>, vals: seq<int>)
    requires ListOn(d, names, vals) && vals != [] && names[|names| - 1] == NodeName(vals[|vals| - 1])
    ensures CanAppend(d)
    ensures var m := |vals| - 1;
      AppendSpec(d, vals[m]) == Outcome(Success(()), Disk(d.files[names[m] := Written(vals[m], Some(names[m]))], d.head))
  {
    ListChain(d, names, vals);
    var m := |vals| - 1;
    var n := names[m];
    var files1 := d.files[n := Written(vals[m], None)];
    assert files1[n := Written(vals[m], Some(n))] == d.files[n := Written(vals[m], Some(n))];
  }

  /** The directory after appending the last value again still links the nodes before it. */
  lemma DuplicateLastLinks(d: Disk, names: seq<string>, vals: seq<int>)
    requires ListOn(d, names, vals) && vals != []
    ensures var m := |vals| - 1;
      var files2 := d.files[names[m] := Written(vals[m], Some(names[m]))];
      Linked(files2, names, vals, m) && |files2| >= m
  {
    var m := |vals| - 1;
    var files2 := d.files[names[m] := Written(vals[m], Some(names[m]))];
    LinkedUpdate(d.files, names, vals, m, names[m], Written(vals[m], Some(names[m])));
    ListSize(d, names, vals);
    SubsetSize(d.files.Keys, files2.Keys);
  }

  /**
   * Appending the value the list ends with writes the same file name again:
   * the tail is rewritten to point to itself, and the walk from the head
   * never ends, so `traverse` afterwards does not return.
   */
  lemma AppendDuplicateLast(d: Disk, vals: seq<int>)
    requires Valid(d, vals) && vals != []
    ensures CanAppend(d)
    ensures var value := vals[|vals| - 1];
      var after := AppendSpec(d, value);
      after.reply == Success(())
      && after.disk.files[NodeName(value)] == Written(value, Some(NodeName(value)))
      && !Terminates(Chain(after.disk.files, after.disk.head))
  {
    var names := NameSeq(vals);
    var m := |vals| - 1;
    DuplicateLastOn(d, names, vals);
    DuplicateLastLinks(d, names, vals);
    CycleAtEnd(d.files[names[m] := Written(vals[m], Some(names[m]))], d.head, names, vals);
  }

  /** From a new list, append(1) twice leaves the node for 1 pointing to itself. */
  lemma AppendOneTwice(files: Files)
    ensures var once := AppendSpec(Disk(files, None), 1).disk;
      CanAppend(once)
      && var twice := AppendSpec(once, 1);
      twice.reply == Success(())
      && twice.disk.files[NodeName(1)] == Written(1, Some(NodeName(1)))
      && !Terminates(Chain(twice.disk.files, twice.disk.head))
  {
    EmptyValid(files);
    AppendKeepsValid(Disk(files, None), [], 1);
    AppendDuplicateLast(AppendSpec(Disk(files, None), 1).disk, [1]);
  }

  lemma DistinctRemove(vals: seq<int>, j: nat)
    requires Distinct(vals) && j < |vals|
    ensures Distinct(vals[..j] + vals[j + 1..])
  {
    var vals' := vals[..j] + vals[j + 1..];
    forall a, b | 0 <= a < b < |vals'| ensures vals'[a] != vals'[b] {
      RemoveAtIndex(vals, j, a);
      RemoveAtIndex(vals, j, b);
    }
  }

  lemma NameSeqRemove(vals: seq<int>, j: nat)
    requires j < |vals|
    ensures NameSeq(vals[..j] + vals[j + 1..]) == NameSeq(vals)[..j] + NameSeq(vals)[j + 1..]
  {
    var a, b := NameSeq(vals[..j] + vals[j + 1..]), NameSeq(vals)[..j] + NameSeq(vals)[j + 1..];
    assert |a| == |b|;
    forall i | 0 <= i < |a| ensures a[i] == b[i] {
      RemoveAtIndex(vals, j, i);
      RemoveAtIndex(NameSeq(vals), j, i);
    }
  }

  /**
   * Deleting a value of the list removes its node, and only its file: the
   * head moves when it was first, and otherwise its predecessor is rewritten.
   */
  lemma DeleteKeepsValid(d: Disk, vals: seq<int>, j: nat)
    requires Valid(d, vals) && j < |vals|
    ensures CanDelete(d, vals[j])
    ensures var after := DeleteSpec(d, vals[j]);
      after.reply == Success(())
      && Valid(after.disk, vals[..j] + vals[j + 1..])
      && after.disk.files.Keys == d.files.Keys - {NodeName(vals[j])}
      && (j == 0 ==> after.disk.files == d.files - {NodeName(vals[0])})
      && (j > 0 ==> after.disk.head == d.head)
  {
    DeleteOn(d, NameSeq(vals), vals, j);
    DistinctRemove(vals, j);
    NameSeqRemove(vals, j);
  }

  /** Deleting a value the list does not hold raises ValueError and changes nothing. */
  lemma DeleteAbsent(d: Disk, vals: seq<int>, value: int)
    requires Valid(d, vals) && value !in vals
    ensures CanDelete(d, value)
    ensures DeleteSpec(d, value) == Outcome(Failure(ValueNotFound), d)
  {
    ListChain(d, NameSeq(vals), vals);
  }

  /** The search loop of `delete`, over the directory and the head it is given. */
  method FindNode(files: Files, head: Option<string>, value: int)
    returns (r: Result<(Option<string>, string, Option<string>)>)
    requires CanDelete(Disk(files, head), value)
    ensures r == FindSpec(files, head, value)
    ensures r.Success? && r.value.0.Some? ==> r.value.0.value in files
  {
    FindFromHead(files, head, value);
    ghost var fuel: nat := |files| + 1;
    var current := head;
    var previous: Option<string> := None;
    while current.Some?
      invariant FindFrom(files, current, previous, value, fuel) == FindSpec(files, head, value)
      invariant Settles(files, current, value, fuel)
      invariant previous.Some? ==> previous.value in files
      decreases fuel
    {
      var node := ReadNodeAt(files, current.value);
      if node.Failure? {
        return Failure(node.error);
      }
      if node.value.0 == value {
        return Success((previous, current.value, node.value.1));
      }
      previous := current;
      current := node.value.1;
      fuel := fuel - 1;
    }
    return Failure(ValueNotFound);
  }

  // ---------------------------------------------------------------------
  // The list object
  // ---------------------------------------------------------------------

  class FileNodeLinkedList {
    /** The node directory: file name to the node record the file holds. */
    var files: Files
    /** The head node's file name, not a reference. */
    var head: Option<string>

    /** The directory may already hold files; the list starts empty. */
    constructor (existing: Files)
      ensures files == existing && head == None
    {
      files := existing;
      head := None;
    }

    method WriteNode(filename: string, value: int, next: Option<string>)
      modifies this
      ensures files == old(files)[filename := Written(value, next)] && head == old(head)
    {
      files := files[filename := Written(value, next)];
    }

    method ReadNode(filename: string) returns (r: Result<(int, Option<string>)>)
      ensures r == ReadNodeAt(files, filename)
    {
      if filename !in files {
        return Failure(NoSuchFile);
      }
      r := Success(ReadRecord(files[filename]));
    }

    method Traverse() returns (r: Result<seq<int>>)
      requires Terminates(Chain(files, head))
      ensures r == TraverseSpec(files, head)
    {
      ghost var w := Chain(files, head);
      ghost var fuel: nat := |files| + 1;
      var values: seq<int> := [];
      var current := head;
      while current.Some?
        invariant values + WalkFrom(files, current, fuel).values == w.values
        invariant WalkFrom(files, current, fuel).stop == w.stop
        decreases fuel
      {
        var node := ReadNode(current.value);
        if node.Failure? {
          return Failure(node.error);
        }
        values := values + [node.value.0];
        current := node.value.1;
        fuel := fuel - 1;
      }
      assert values == w.values;
      r := Success(values);
    }

    method FindTail() returns (r: Result<string>)
      requires head.Some? && Terminates(Chain(files, head))
      ensures r == TailSpec(files, head)
      ensures r.Success? ==> r.value in files
    {
      ghost var w := Chain(files, head);
      ghost var fuel: nat := |files| + 1;
      ghost var k: nat := 0;
      var current := head.value;
      while true
        invariant 0 <= k < |w.names| || (k == |w.names| && w.stop.Broken?)
        invariant WalkFrom(files, Some(current), fuel) == Walk(w.names[k..], w.values[k..], w.nexts[k..], w.stop)
        decreases fuel
      {
        var node := ReadNode(current);
        if node.Failure? {
          return Failure(node.error);
        }
        if node.value.1.None? {
          break;
        }
        current := node.value.1.value;
        fuel := fuel - 1;
        k := k + 1;
      }
      r := Success(current);
    }

    method Append(value: int) returns (r: Result<()>)
      requires CanAppend(Disk(files, head))
      modifies this
      ensures Outcome(r, Disk(files, head)) == AppendSpec(Disk(old(files), old(head)), value)
    {
      var filename := NodeName(value);
      if head.None? {
        head := Some(filename);
        WriteNode(filename, value, None);
        return Success(());
      }
      var tail := FindTail();
      if tail.Failure? {
        return Failure(tail.error);
      }
      WriteNode(filename, value, None);
      var tailNode := ReadNode(tail.value);
      WriteNode(tail.value, tailNode.value.0, Some(filename));
      r := Success(());
    }

    method Delete(value: int) returns (r: Result<()>)
      requires CanDelete(Disk(files, head), value)
      modifies this
      ensures Outcome(r, Disk(files, head)) == DeleteSpec(Disk(old(files), old(head)), value)
    {
      var found := FindNode(files, head, value);
      if found.Failure? {
        return Failure(found.error);
      }
      var (previous, current, next) := found.value;
      if previous.None? {
        head := next;
      } else {
        var prevNode := ReadNode(previous.value);
        WriteNode(previous.value, prevNode.value.0, next);
      }
      files := files - {current};
      r := Success(());
    }
  }
}
