/**
 * A "hash map" that is really one singly linked list of key/value nodes:
 * every operation walks the chain from the head. The ghost sequence
 * `nodes` is the chain in order and the ghost dict `contents` is what it
 * stores, so each operation is specified as the matching Python dict
 * operation on `contents`.
 */
module LinkedHashMap {
  import opened Wrappers
  import opened PyDict

  class Node<K, V> {
    var key: K
    var value: V
    var next: Node?<K, V>

    constructor (key: K, value: V, next: Node?<K, V>)
      ensures this.key == key && this.value == value && this.next == next
    {
      this.key := key;
      this.value := value;
      this.next := next;
    }
  }

  class HashMap<K(==), V> {
    var head: Node?<K, V>
    ghost var nodes: seq<Node<K, V>>
    ghost var contents: Dict<K, V>

    /** `head` starts the chain `nodes`, node i holds entry i, and no key occurs twice. */
    ghost predicate Valid()
      reads this, nodes
    {
      && |nodes| == |contents|
      && head == (if nodes == [] then null else nodes[0])
      && (forall i :: 0 <= i < |nodes| ==> nodes[i].key == contents[i].0 && nodes[i].value == contents[i].1)
      && (forall i :: 0 <= i < |nodes| - 1 ==> nodes[i].next == nodes[i + 1])
      && (nodes != [] ==> nodes[|nodes| - 1].next == null)
      && (forall i, j :: 0 <= i < j < |nodes| ==> nodes[i] != nodes[j])
      && DistinctKeys(contents)
    }

    constructor ()
      ensures Valid() && contents == [] && nodes == []
    {
      head := null;
      nodes := [];
      contents := [];
    }

    /** Overwrites the value of the node holding key, or appends a new node at the tail. */
    method Put(key: K, value: V)
      requires Valid()
      modifies this, nodes
      ensures Valid()
      ensures contents == PyDict.Put(old(contents), key, value)
      ensures HasKey(old(contents), key) ==> nodes == old(nodes)
      ensures !HasKey(old(contents), key) ==>
        |nodes| == |old(nodes)| + 1 && nodes[..|old(nodes)|] == old(nodes) && fresh(nodes[|old(nodes)|])
    {
      if head == null {
        assert nodes == [] && contents == [];
        var n := new Node(key, value, null);
        head := n;
        nodes := [n];
        contents := [(key, value)];
        return;
      }
      var current, i := FindKeyOrTail(key);
      if current.key == key {
        PutKeepsDistinct(contents, key, value);
        SetValueAt(current, i, value);
      } else {
        AppendAfter(current, key, value);
      }
    }

    /**
     * The loop of `put`: walks from the head and stops at the node holding
     * key, or at the tail when no node does.
     */
    method FindKeyOrTail(key: K) returns (current: Node<K, V>, ghost i: nat)
      requires Valid() && nodes != []
      ensures i < |nodes| && current == nodes[i]
      ensures current.key == key ==> HasKey(contents, key) && i == IndexOf(contents, key)
      ensures current.key != key ==> !HasKey(contents, key) && i == |nodes| - 1
    {
      current := head;
      i := 0;
      while true
        invariant 0 <= i < |nodes| && current == nodes[i]
        invariant forall j :: 0 <= j < i ==> contents[j].0 != key
        decreases |nodes| - i
      {
        if current.key == key {
          return;
        }
        assert i + 1 < |nodes| ==> current.next == nodes[i + 1];
        if current.next == null {
          return;
        }
        current := current.next;
        i := i + 1;
      }
    }

    /** `current.value = value` on the node at position i. */
    method SetValueAt(current: Node<K, V>, ghost i: nat, value: V)
      requires Valid() && i < |nodes| && current == nodes[i]
      requires DistinctKeys(contents[i := (current.key, value)])
      modifies this, current
      ensures Valid() && nodes == old(nodes)
      ensures contents == old(contents)[i := (old(contents)[i].0, value)]
    {
      current.value := value;
      contents := contents[i := (current.key, value)];
      forall j | 0 <= j < |nodes|
        ensures nodes[j].key == contents[j].0 && nodes[j].value == contents[j].1
      {
        if j != i {
          assert nodes[j] != current;
        }
      }
    }

    /** `tail.next = Node(key, value)`. */
    method AppendAfter(tail: Node<K, V>, key: K, value: V)
      requires Valid() && nodes != [] && tail == nodes[|nodes| - 1] && !HasKey(contents, key)
      modifies this, tail
      ensures Valid()
      ensures |nodes| == |old(nodes)| + 1 && nodes[..|old(nodes)|] == old(nodes) && fresh(nodes[|old(nodes)|])
      ensures contents == old(contents) + [(key, value)]
    {
      var n := new Node(key, value, null);
      tail.next := n;
      nodes := nodes + [n];
      contents := contents + [(key, value)];
    }

    /** Walks the chain and returns the value of the node holding key, if any. */
    method Get(key: K) returns (r: Option<V>)
      requires Valid()
      ensures r == PyDict.Get(contents, key)
    {
      var current := head;
      ghost var i := 0;
      while current != null
        invariant 0 <= i <= |nodes|
        invariant current == if i < |nodes| then nodes[i] else null
        invariant forall j :: 0 <= j < i ==> contents[j].0 != key
        decreases |nodes| - i
      {
        if current.key == key {
          GetAt(contents, i);
          return Some(current.value);
        }
        current := current.next;
        i := i + 1;
      }
      return None;
    }

    /** `previous.next = current.next` for the node `current` at position i > 0. */
    method UnlinkAt(previous: Node<K, V>, current: Node<K, V>, ghost i: nat)
      requires Valid() && 0 < i < |nodes| && previous == nodes[i - 1] && current == nodes[i]
      requires DistinctKeys(contents[..i] + contents[i + 1..])
      modifies this, previous
      ensures Valid()
      ensures nodes == old(nodes)[..i] + old(nodes)[i + 1..]
      ensures contents == old(contents)[..i] + old(contents)[i + 1..]
    {
      previous.next := current.next;
      nodes := nodes[..i] + nodes[i + 1..];
      contents := contents[..i] + contents[i + 1..];
      forall j | 0 <= j < |nodes| - 1
        ensures nodes[j].next == nodes[j + 1]
      {
        if j != i - 1 {
          var j' := if j < i then j else j + 1;
          assert nodes[j] == old(nodes)[j'] && nodes[j + 1] == old(nodes)[j' + 1];
          assert old(nodes)[j'] != previous;
        }
      }
    }

    /** `head = head.next`. */
    method UnlinkHead()
      requires Valid() && nodes != [] && DistinctKeys(contents[1..])
      modifies this
      ensures Valid()
      ensures nodes == old(nodes)[1..] && contents == old(contents)[1..]
    {
      head := head.next;
      nodes := nodes[1..];
      contents := contents[1..];
    }

    /** Unlinks the node holding key; false when there is none. */
    method Remove(key: K) returns (removed: bool)
      requires Valid()
      modifies this, nodes
      ensures Valid()
      ensures removed == HasKey(old(contents), key)
      ensures contents == PyDict.Remove(old(contents), key)
      ensures removed ==>
        nodes == old(nodes)[..IndexOf(old(contents), key)] + old(nodes)[IndexOf(old(contents), key) + 1..]
      ensures !removed ==> nodes == old(nodes)
    {
      if head == null {
        return false;
      }
      ghost var nodes0, contents0 := nodes, contents;
      if head.key == key {
        assert contents[0].0 == key;
        assert IndexOf(contents, key) == 0;
        assert contents[..0] + contents[1..] == contents[1..];
        assert nodes[..0] + nodes[1..] == nodes[1..];
        RemoveKeepsDistinct(contents, key);
        UnlinkHead();
        assert nodes == nodes0[..0] + nodes0[1..];
        return true;
      }
      var previous, current, i := FindAfterHead(key);
      if current == null {
        return false;
      }
      RemoveKeepsDistinct(contents, key);
      UnlinkAt(previous, current, i);
      assert i == IndexOf(contents0, key) && nodes == nodes0[..i] + nodes0[i + 1..];
      return true;
    }

    /**
     * The loop of `remove` past the head: walks `previous`/`current` down the
     * chain until `current` holds key or runs off the end.
     */
    method FindAfterHead(key: K) returns (previous: Node<K, V>, current: Node?<K, V>, ghost i: nat)
      requires Valid() && nodes != [] && nodes[0].key != key
      ensures current == null <==> !HasKey(contents, key)
      ensures current != null ==>
        0 < i < |nodes| && i == IndexOf(contents, key) && previous == nodes[i - 1] && current == nodes[i]
    {
      previous := head;
      current := head.next;
      i := 1;
      while current != null
        invariant 1 <= i <= |nodes| && previous == nodes[i - 1]
        invariant current == if i < |nodes| then nodes[i] else null
        invariant forall j :: 0 <= j < i ==> contents[j].0 != key
        decreases |nodes| - i
      {
        if current.key == key {
          return;
        }
        previous := current;
        current := current.next;
        i := i + 1;
      }
    }

    method Contains(key: K) returns (r: bool)
      requires Valid()
      ensures r == HasKey(contents, key)
    {
      var current := head;
      ghost var i := 0;
      while current != null
        invariant 0 <= i <= |nodes|
        invariant current == if i < |nodes| then nodes[i] else null
        invariant forall j :: 0 <= j < i ==> contents[j].0 != key
        decreases |nodes| - i
      {
        if current.key == key {
          return true;
        }
        current := current.next;
        i := i + 1;
      }
      return false;
    }

    /** The keys in chain order, which is first-insertion order. */
    method GetKeys() returns (r: seq<K>)
      requires Valid()
      ensures r == PyDict.Keys(contents)
    {
      r := [];
      var current := head;
      ghost var i := 0;
      while current != null
        invariant 0 <= i <= |nodes| && |r| == i
        invariant current == if i < |nodes| then nodes[i] else null
        invariant forall j :: 0 <= j < i ==> r[j] == contents[j].0
        decreases |nodes| - i
      {
        r := r + [current.key];
        current := current.next;
        i := i + 1;
      }
    }

    method GetValues() returns (r: seq<V>)
      requires Valid()
      ensures r == PyDict.Values(contents)
    {
      r := [];
      var current := head;
      ghost var i := 0;
      while current != null
        invariant 0 <= i <= |nodes| && |r| == i
        invariant current == if i < |nodes| then nodes[i] else null
        invariant forall j :: 0 <= j < i ==> r[j] == contents[j].1
        decreases |nodes| - i
      {
        r := r + [current.value];
        current := current.next;
        i := i + 1;
      }
    }

    method GetItems() returns (r: seq<(K, V)>)
      requires Valid()
      ensures r == contents
    {
      r := [];
      var current := head;
      ghost var i := 0;
      while current != null
        invariant 0 <= i <= |nodes| && |r| == i
        invariant current == if i < |nodes| then nodes[i] else null
        invariant forall j :: 0 <= j < i ==> r[j] == contents[j]
        decreases |nodes| - i
      {
        r := r + [(current.key, current.value)];
        current := current.next;
        i := i + 1;
      }
    }
  }

  /** keys(), values() and items() line up: items()[i] == (keys()[i], values()[i]). */
  lemma ItemsAreKeysAndValues<K, V>(d: Dict<K, V>)
    ensures |Keys(d)| == |Values(d)| == |d|
    ensures forall i :: 0 <= i < |d| ==> d[i] == (Keys(d)[i], Values(d)[i])
  {
  }

  /** put then get returns the value and contains holds, on the linked list itself. */
  method PutThenGet<K(==), V>(m: HashMap<K, V>, key: K, value: V) returns (got: Option<V>, has: bool)
    requires m.Valid()
    modifies m, m.nodes
    ensures got == Some(value) && has
  {
    m.Put(key, value);
    got := m.Get(key);
    has := m.Contains(key);
    GetPut(old(m.contents), key, value, key);
    PutHasKey(old(m.contents), key, value);
  }

  /** remove on an empty map is False; after removing a present key it is gone. */
  method RemoveThenContains<K(==), V>(m: HashMap<K, V>, key: K) returns (removed: bool, has: bool)
    requires m.Valid()
    modifies m, m.nodes
    ensures removed == HasKey(old(m.contents), key)
    ensures old(m.contents) == [] ==> !removed
    ensures !has
  {
    removed := m.Remove(key);
    has := m.Contains(key);
    GetRemove(old(m.contents), key, key);
  }
}
