/**
 * A binary tree stored as one comma-separated string in level order:
 * the children of entry i are entries 2i+1 and 2i+2. Every operation
 * re-splits the string; every mutation re-joins it.
 */
module CsvTree {
  import opened Wrappers
  import opened PyStr

  const EmptyTree := Error(ValueError, "Tree is empty")
  const ListIndexError := Error(IndexError, "list index out of range")

  /** `_as_list` of a tree string: [] for "", else the comma-separated parts. */
  function Entries(tree: string): (vs: seq<string>)
    ensures tree == "" <==> vs == []
    ensures tree != "" ==> Join(vs, ',') == tree
    ensures forall k :: 0 <= k < |vs| ==> ',' !in vs[k]
  {
    if tree == "" then []
    else
      JoinSplit(tree, ',');
      SplitPartsHaveNoSep(tree, ',');
      Split(tree, ',')
  }

  /** `_save` followed by `_as_list` gives the list back when no entry holds a comma. */
  lemma EntriesOfJoin(vs: seq<string>)
    requires forall k :: 0 <= k < |vs| ==> ',' !in vs[k]
    requires vs != [""]
    ensures Entries(Join(vs, ',')) == vs
  {
    if vs != [] {
      if |vs| >= 2 || vs[0] != [] {
        JoinNonEmpty(vs, ',');
      }
      SplitJoin(vs, ',');
    }
  }

  /** Python's `values[i]`, where a negative i counts from the end. */
  function PyIndex(values: seq<string>, i: int): (r: Result<string>)
    ensures 0 <= i < |values| ==> r == Success(values[i])
    ensures -|values| <= i < 0 ==> r == Success(values[|values| + i])
    ensures (i >= |values| || i < -|values|) ==> r == Failure(ListIndexError)
  {
    if 0 <= i < |values| then Success(values[i])
    else if -|values| <= i < 0 then Success(values[|values| + i])
    else Failure(ListIndexError)
  }

  /** The child entry `values[child]`, or None when child is past the end. */
  function Child(values: seq<string>, child: int): (r: Result<Option<int>>)
    ensures child >= |values| ==> r == Success(None)
    ensures 0 <= child < |values| ==> r == (match ParseInt(values[child])
                                            case Success(v) => Success(Some(v))
                                            case Failure(e) => Failure(e))
  {
    if child >= |values| then Success(None)
    else match PyIndex(values, child)
      case Failure(e) => Failure(e)
      case Success(text) =>
        match ParseInt(text)
        case Failure(e) => Failure(e)
        case Success(v) => Success(Some(v))
  }

  // ---------------------------------------------------------------------
  // In-order visiting order of heap indices
  // ---------------------------------------------------------------------

  /** The stored indices `walk(i)` visits, in visiting order, for a list of n entries. */
  function Visit(n: nat, i: nat): seq<nat>
    decreases n - i
  {
    if i >= n then [] else Visit(n, 2 * i + 1) + [i] + Visit(n, 2 * i + 2)
  }

  /** j lies in the subtree rooted at i: i is j or an ancestor of j. */
  ghost predicate InSubtree(i: nat, j: nat)
    decreases j
  {
    j == i || (j > i && InSubtree(i, (j - 1) / 2))
  }

  lemma {:induction false} SubtreeAbove(i: nat, j: nat)
    requires InSubtree(i, j)
    ensures j >= i
  {
  }

  /** A child's subtree lies inside its parent's. */
  lemma {:induction false} ChildSubtreeInParent(i: nat, c: nat, j: nat)
    requires c == 2 * i + 1 || c == 2 * i + 2
    requires InSubtree(c, j)
    ensures InSubtree(i, j)
    decreases j
  {
    if j != c {
      ChildSubtreeInParent(i, c, (j - 1) / 2);
    }
  }

  /** Below i, every node lies under one of i's two children. */
  lemma {:induction false} SubtreeViaChild(i: nat, j: nat)
    requires InSubtree(i, j) && j != i
    ensures InSubtree(2 * i + 1, j) || InSubtree(2 * i + 2, j)
    decreases j
  {
    var p := (j - 1) / 2;
    if p != i {
      SubtreeViaChild(i, p);
    }
  }

  /** Two subtrees sharing a node are nested. */
  lemma {:induction false} SubtreesNest(a: nat, b: nat, j: nat)
    requires a < b
    ensures InSubtree(a, j) && InSubtree(b, j) ==> InSubtree(a, b)
    decreases j
  {
    if InSubtree(a, j) && InSubtree(b, j) && j != b {
      SubtreesNest(a, b, (j - 1) / 2);
    }
  }

  /** No node lies under both children of i. */
  lemma SiblingsDisjoint(i: nat, j: nat)
    ensures InSubtree(2 * i + 1, j) ==> !InSubtree(2 * i + 2, j)
  {
    SubtreesNest(2 * i + 1, 2 * i + 2, j);
    assert !InSubtree(2 * i + 1, i);
  }

  /** `walk(i)` visits exactly the stored nodes of the subtree rooted at i. */
  lemma {:induction false} VisitMembers(n: nat, i: nat, j: nat)
    ensures j in Visit(n, i) <==> j < n && InSubtree(i, j)
    decreases n - i
  {
    if i >= n {
      if InSubtree(i, j) {
        SubtreeAbove(i, j);
      }
    } else {
      VisitMembers(n, 2 * i + 1, j);
      VisitMembers(n, 2 * i + 2, j);
      if InSubtree(2 * i + 1, j) {
        ChildSubtreeInParent(i, 2 * i + 1, j);
      }
      if InSubtree(2 * i + 2, j) {
        ChildSubtreeInParent(i, 2 * i + 2, j);
      }
      if InSubtree(i, j) && j != i {
        SubtreeViaChild(i, j);
      }
    }
  }

  predicate Distinct(s: seq<nat>) {
    forall a, b :: 0 <= a < b < |s| ==> s[a] != s[b]
  }

  /** `walk(i)` visits no node twice. */
  lemma {:induction false} VisitDistinct(n: nat, i: nat)
    ensures Distinct(Visit(n, i))
    decreases n - i
  {
    if i < n {
      var l, r := Visit(n, 2 * i + 1), Visit(n, 2 * i + 2);
      VisitDistinct(n, 2 * i + 1);
      VisitDistinct(n, 2 * i + 2);
      forall j | j in l
        ensures j != i && j !in r
      {
        VisitMembers(n, 2 * i + 1, j);
        VisitMembers(n, 2 * i + 2, j);
        SubtreeAbove(2 * i + 1, j);
        SiblingsDisjoint(i, j);
      }
      forall j | j in r
        ensures j != i
      {
        VisitMembers(n, 2 * i + 2, j);
        SubtreeAbove(2 * i + 2, j);
      }
      var s := l + [i] + r;
      forall a, b | 0 <= a < b < |s| ensures s[a] != s[b] {
        if b < |l| {
          assert s[a] == l[a] && s[b] == l[b];
        } else if b == |l| {
          assert s[a] == l[a] && l[a] in l;
        } else if a < |l| {
          assert s[a] == l[a] && l[a] in l;
          assert s[b] == r[b - |l| - 1] && r[b - |l| - 1] in r;
        } else if a == |l| {
          assert s[b] == r[b - |l| - 1] && r[b - |l| - 1] in r;
        } else {
          assert s[a] == r[a - |l| - 1] && s[b] == r[b - |l| - 1];
        }
      }
    }
  }

  lemma {:induction false} EverythingUnderRoot(j: nat)
    ensures InSubtree(0, j)
    decreases j
  {
    if j > 0 {
      EverythingUnderRoot((j - 1) / 2);
    }
  }

  /** `walk(0)` visits every stored index exactly once. */
  lemma InorderIsPermutation(n: nat)
    ensures Distinct(Visit(n, 0))
    ensures forall j: nat :: j in Visit(n, 0) <==> j < n
  {
    VisitDistinct(n, 0);
    forall j: nat ensures j in Visit(n, 0) <==> j < n {
      VisitMembers(n, 0, j);
      EverythingUnderRoot(j);
    }
  }

  /**
   * `int()` applied to the entries at the given indices, in that order; the
   * first failure is what is raised.
   */
  function ParseAt(parse: string -> Result<int>, values: seq<string>, idx: seq<nat>): (r: Result<seq<int>>)
    requires forall k :: 0 <= k < |idx| ==> idx[k] < |values|
    ensures r.Success? ==> |r.value| == |idx|
  {
    if idx == [] then Success([])
    else match parse(values[idx[0]])
      case Failure(e) => Failure(e)
      case Success(v) =>
        match ParseAt(parse, values, idx[1..])
        case Failure(e) => Failure(e)
        case Success(vs) => Success([v] + vs)
  }

  /** On success, each value is the parse of the entry at the matching index. */
  lemma {:induction false} ParseAtSuccess(parse: string -> Result<int>, values: seq<string>, idx: seq<nat>, k: nat)
    requires forall k :: 0 <= k < |idx| ==> idx[k] < |values|
    requires ParseAt(parse, values, idx).Success? && k < |idx|
    ensures parse(values[idx[k]]) == Success(ParseAt(parse, values, idx).value[k])
  {
    if k > 0 {
      ParseAtSuccess(parse, values, idx[1..], k - 1);
    }
  }

  /** On failure, the error is the one some visited entry raised. */
  lemma {:induction false} ParseAtFailure(parse: string -> Result<int>, values: seq<string>, idx: seq<nat>)
    requires forall k :: 0 <= k < |idx| ==> idx[k] < |values|
    requires ParseAt(parse, values, idx).Failure?
    ensures exists k :: 0 <= k < |idx| && parse(values[idx[k]]) == Failure(ParseAt(parse, values, idx).error)
  {
    if parse(values[idx[0]]).Success? {
      ParseAtFailure(parse, values, idx[1..]);
      var k :| 0 <= k < |idx[1..]| && parse(values[idx[1..][k]]) == Failure(ParseAt(parse, values, idx[1..]).error);
      assert idx[1..][k] == idx[k + 1];
    }
  }

  lemma {:induction false} VisitInRange(n: nat, i: nat)
    ensures forall k :: 0 <= k < |Visit(n, i)| ==> Visit(n, i)[k] < n
  {
    forall k | 0 <= k < |Visit(n, i)| ensures Visit(n, i)[k] < n {
      VisitMembers(n, i, Visit(n, i)[k]);
    }
  }

  lemma {:induction false} ParseAtAppendFailure(parse: string -> Result<int>, values: seq<string>, a: seq<nat>, b: seq<nat>)
    requires forall k :: 0 <= k < |a| ==> a[k] < |values|
    requires forall k :: 0 <= k < |b| ==> b[k] < |values|
    requires ParseAt(parse, values, a).Failure?
    ensures ParseAt(parse, values, a + b) == ParseAt(parse, values, a)
  {
    assert (a + b)[1..] == a[1..] + b;
    assert (a + b)[0] == a[0];
    if parse(values[a[0]]).Success? {
      ParseAtAppendFailure(parse, values, a[1..], b);
    }
  }

  lemma {:induction false} ParseAtAppendSuccess(parse: string -> Result<int>, values: seq<string>, a: seq<nat>, b: seq<nat>)
    requires forall k :: 0 <= k < |a| ==> a[k] < |values|
    requires forall k :: 0 <= k < |b| ==> b[k] < |values|
    requires ParseAt(parse, values, a).Success?
    ensures ParseAt(parse, values, a + b) == if ParseAt(parse, values, b).Failure? then ParseAt(parse, values, b)
                                             else Success(ParseAt(parse, values, a).value + ParseAt(parse, values, b).value)
  {
    if a == [] {
      assert a + b == b;
      if ParseAt(parse, values, b).Success? {
        assert [] + ParseAt(parse, values, b).value == ParseAt(parse, values, b).value;
      }
    } else {
      assert (a + b)[1..] == a[1..] + b;
      assert (a + b)[0] == a[0];
      ParseAtAppendSuccess(parse, values, a[1..], b);
      if ParseAt(parse, values, b).Success? {
        var v, x, y := ParseAt(parse, values, a).value[0], ParseAt(parse, values, a[1..]).value, ParseAt(parse, values, b).value;
        assert [v] + x + y == [v] + (x + y);
      }
    }
  }

  class BinaryTreeAsString {
    var tree: string

    constructor (data: string)
      ensures tree == data
    {
      tree := data;
    }

    function AsList(): (vs: seq<string>)
      reads this
      ensures vs == Entries(tree)
    {
      if tree == "" then [] else Split(tree, ',')
    }

    /** `",".join(values)` becomes the new tree string. */
    method Save(values: seq<string>)
      modifies this
      ensures tree == Join(values, ',')
      ensures (forall k :: 0 <= k < |values| ==> ',' !in values[k]) && values != [""] ==> AsList() == values
    {
      tree := Join(values, ',');
      if (forall k :: 0 <= k < |values| ==> ',' !in values[k]) && values != [""] {
        EntriesOfJoin(values);
      }
    }

    /** Appends str(value) as the next level-order entry. */
    method Insert(value: int)
      modifies this
      ensures AsList() == old(AsList()) + [IntToStr(value)]
    {
      var values := AsList();
      values := values + [IntToStr(value)];
      Save(values);
    }

    function GetRoot(): (r: Result<int>)
      reads this
      ensures tree == "" ==> r == Failure(EmptyTree)
      ensures tree != "" ==> r == ParseInt(Entries(tree)[0])
    {
      if tree == "" then Failure(EmptyTree) else ParseInt(AsList()[0])
    }

    /** Entry 2i+1, or None past the end; a negative index wraps as in Python. */
    function GetLeft(index: int): (r: Result<Option<int>>)
      reads this
      ensures 2 * index + 1 >= |Entries(tree)| ==> r == Success(None)
      ensures index >= 0 && 2 * index + 1 < |Entries(tree)| ==> r == Child(Entries(tree), 2 * index + 1)
    {
      Child(AsList(), 2 * index + 1)
    }

    /** Entry 2i+2, or None past the end; a negative index wraps as in Python. */
    function GetRight(index: int): (r: Result<Option<int>>)
      reads this
      ensures 2 * index + 2 >= |Entries(tree)| ==> r == Success(None)
      ensures index >= 0 && 2 * index + 2 < |Entries(tree)| ==> r == Child(Entries(tree), 2 * index + 2)
    {
      Child(AsList(), 2 * index + 2)
    }

    /**
     * The nested `walk(i)`: left subtree, entry i, right subtree, with the
     * conversion (int() in the source) passed in.
     */
    static method Walk(parse: string -> Result<int>, values: seq<string>, i: nat) returns (r: Result<seq<int>>)
      ensures forall k :: 0 <= k < |Visit(|values|, i)| ==> Visit(|values|, i)[k] < |values|
      ensures r == ParseAt(parse, values, Visit(|values|, i))
      decreases |values| - i
    {
      VisitInRange(|values|, i);
      if i >= |values| {
        return Success([]);
      }
      var n := |values|;
      VisitInRange(n, 2 * i + 1);
      VisitInRange(n, 2 * i + 2);
      var l, rest := Visit(n, 2 * i + 1), [i] + Visit(n, 2 * i + 2);
      assert Visit(n, i) == l + rest;
      var left := Walk(parse, values, 2 * i + 1);
      if left.Failure? {
        ParseAtAppendFailure(parse, values, l, rest);
        return Failure(left.error);
      }
      ParseAtAppendSuccess(parse, values, l, rest);
      var here := parse(values[i]);
      assert [i][1..] == [];
      if here.Failure? {
        ParseAtAppendFailure(parse, values, [i], Visit(n, 2 * i + 2));
        return Failure(here.error);
      }
      assert [here.value] + [] == [here.value];
      assert ParseAt(parse, values, [i]) == Success([here.value]);
      ParseAtAppendSuccess(parse, values, [i], Visit(n, 2 * i + 2));
      var right := Walk(parse, values, 2 * i + 2);
      if right.Failure? {
        return Failure(right.error);
      }
      assert left.value + ([here.value] + right.value) == left.value + [here.value] + right.value;
      r := Success(left.value + [here.value] + right.value);
    }

    /** In-order values: int() of the entries in the order `walk(0)` visits them. */
    method InorderTraversal() returns (r: Result<seq<int>>)
      ensures forall k :: 0 <= k < |Visit(|Entries(tree)|, 0)| ==> Visit(|Entries(tree)|, 0)[k] < |Entries(tree)|
      ensures r == ParseAt(ParseInt, Entries(tree), Visit(|Entries(tree)|, 0))
    {
      var values := AsList();
      r := Walk(ParseInt, values, 0);
    }

    /** `__str__` hands back the raw string. */
    function ToString(): (s: string)
      reads this
      ensures s == tree
    {
      tree
    }
  }

  /** The numbers at the given indices. */
  function NumsAt(nums: seq<int>, idx: seq<nat>): seq<int>
    requires forall k :: 0 <= k < |idx| ==> idx[k] < |nums|
  {
    if idx == [] then [] else [nums[idx[0]]] + NumsAt(nums, idx[1..])
  }

  /** When every entry parses to its number, visiting idx yields those numbers in that order. */
  lemma {:induction false} ParseAtKnown(parse: string -> Result<int>, values: seq<string>, nums: seq<int>, idx: seq<nat>)
    requires |values| == |nums|
    requires forall k :: 0 <= k < |values| ==> parse(values[k]) == Success(nums[k])
    requires forall k :: 0 <= k < |idx| ==> idx[k] < |values|
    ensures ParseAt(parse, values, idx) == Success(NumsAt(nums, idx))
  {
    if idx != [] {
      ParseAtKnown(parse, values, nums, idx[1..]);
    }
  }

  /** With entries reading 1..7, the in-order visit reads 4, 2, 5, 1, 6, 3, 7. */
  lemma InorderSeven(parse: string -> Result<int>, entries: seq<string>)
    requires |entries| == 7
    requires forall k :: 0 <= k < 7 ==> parse(entries[k]) == Success(k + 1)
    ensures ParseAt(parse, entries, [3, 1, 4, 0, 5, 2, 6]) == Success([4, 2, 5, 1, 6, 3, 7])
  {
    var nums := [1, 2, 3, 4, 5, 6, 7];
    var idx: seq<nat> := [3, 1, 4, 0, 5, 2, 6];
    ParseAtKnown(parse, entries, nums, idx);
    NumsAtSeven(nums, idx);
  }

  lemma NumsAtSeven(nums: seq<int>, idx: seq<nat>)
    requires nums == [1, 2, 3, 4, 5, 6, 7] && idx == [3, 1, 4, 0, 5, 2, 6]
    ensures NumsAt(nums, idx) == [4, 2, 5, 1, 6, 3, 7]
  {
    assert NumsAt(nums, idx[6..]) == [7];
    assert NumsAt(nums, idx[5..]) == [3, 7];
    assert NumsAt(nums, idx[4..]) == [6, 3, 7];
    assert NumsAt(nums, idx[3..]) == [1, 6, 3, 7];
    assert NumsAt(nums, idx[2..]) == [5, 1, 6, 3, 7];
    assert NumsAt(nums, idx[1..]) == [2, 5, 1, 6, 3, 7];
  }

  lemma SmallInts()
    ensures IntToStr(1) == "1" && IntToStr(2) == "2" && IntToStr(3) == "3" && IntToStr(4) == "4"
    ensures IntToStr(5) == "5" && IntToStr(6) == "6" && IntToStr(7) == "7"
  {
  }

  lemma VisitSeven()
    ensures Visit(7, 0) == [3, 1, 4, 0, 5, 2, 6]
  {
    VisitLeaf(3);
    VisitLeaf(4);
    VisitLeaf(5);
    VisitLeaf(6);
    assert Visit(7, 1) == [3] + [1] + [4];
    assert Visit(7, 2) == [5] + [2] + [6];
    assert Visit(7, 0) == [3, 1, 4] + [0] + [5, 2, 6];
  }

  lemma VisitLeaf(i: nat)
    requires 3 <= i < 7
    ensures Visit(7, i) == [i]
  {
    assert Visit(7, 2 * i + 1) == [] && Visit(7, 2 * i + 2) == [];
    assert [] + [i] + [] == [i];
  }

  lemma JoinSeven()
    ensures Join(["1", "2", "3", "4", "5", "6", "7"], ',') == "1,2,3,4,5,6,7"
  {
    var xs := ["1", "2", "3", "4", "5", "6", "7"];
    assert Join(xs[6..], ',') == "7";
    assert Join(xs[5..], ',') == "6,7";
    assert Join(xs[4..], ',') == "5,6,7";
    assert Join(xs[3..], ',') == "4,5,6,7";
    assert Join(xs[2..], ',') == "3,4,5,6,7";
    assert Join(xs[1..], ',') == "2,3,4,5,6,7";
  }

  lemma ParsedSeven(entries: seq<string>)
    requires |entries| == 7 && forall k :: 0 <= k < 7 ==> entries[k] == IntToStr(k + 1)
    ensures ParseAt(ParseInt, entries, [3, 1, 4, 0, 5, 2, 6]) == Success([4, 2, 5, 1, 6, 3, 7])
  {
    forall k | 0 <= k < 7 ensures ParseInt(entries[k]) == Success(k + 1) {
      ParseIntToStr(k + 1);
    }
    InorderSeven(ParseInt, entries);
  }

  /** Inserting 1..7 into an empty tree gives "1,2,3,4,5,6,7" and in-order [4,2,5,1,6,3,7]. */
  method InsertOneToSeven() returns (text: string, inorder: Result<seq<int>>)
    ensures text == "1,2,3,4,5,6,7"
    ensures inorder == Success([4, 2, 5, 1, 6, 3, 7])
  {
    var t := new BinaryTreeAsString("");
    t.Insert(1);
    t.Insert(2);
    t.Insert(3);
    t.Insert(4);
    t.Insert(5);
    t.Insert(6);
    t.Insert(7);
    ghost var entries := t.AsList();
    assert entries == [IntToStr(1), IntToStr(2), IntToStr(3), IntToStr(4), IntToStr(5), IntToStr(6), IntToStr(7)];
    ParsedSeven(entries);
    SmallInts();
    assert entries == ["1", "2", "3", "4", "5", "6", "7"];
    text := t.ToString();
    JoinSeven();
    inorder := t.InorderTraversal();
    VisitSeven();
  }
}
