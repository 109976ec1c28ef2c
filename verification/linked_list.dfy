/** The doubly linked list (`LinkedList[T]`) of the editor. A list is
    created with one element and, since removing the only node dereferences
    nil, never becomes empty. The ghost sequence `nodes` names the nodes in
    order from `first` to `last`; `Contents()` is the sequence of their
    values. */
module LinkedList {
  import opened Outcomes

  /** A list node. The list never reassigns a node's value once the node is
      created, so `value` is a constant; only the links change. */
  class Node<T> {
    const value: T
    var next: Node?<T>
    var previous: Node?<T>

    constructor (value: T)
      ensures this.value == value && next == null && previous == null
    {
      this.value := value;
      next := null;
      previous := null;
    }
  }

  class LinkedList<T> {
    var length: int
    var first: Node<T>
    var last: Node<T>

    ghost var nodes: seq<Node<T>>

    ghost function Contents(): seq<T>
      reads this
    {
      Values(nodes)
    }

    /** The object invariant: `nodes` are distinct and chained both ways,
        `first.previous` and `last.next` are nil, and `length` counts them. */
    ghost predicate Valid()
      reads this, nodes
    {
      && 1 <= |nodes| == length
      && Distinct(nodes)
      && first == nodes[0] && last == nodes[|nodes| - 1]
      && first.previous == null && last.next == null
      && (forall i {:trigger nodes[i].next} | 0 <= i < |nodes| - 1 :: nodes[i].next == nodes[i + 1])
      && (forall i {:trigger nodes[i].previous} | 0 < i < |nodes| :: nodes[i].previous == nodes[i - 1])
    }

    /** `NewLinkedList`: a one-node list whose first and last are that node. */
    constructor (value: T)
      ensures Valid()
      ensures Contents() == [value] && length == 1 && first == last
    {
      var n := new Node(value);
      first, last, length := n, n, 1;
      nodes := [n];
    }

    /** The number of elements. */
    function Size(): (n: int)
      requires Valid()
      reads this, nodes
      ensures n == |Contents()| && n >= 1
    {
      length
    }

    /** Walks `next` from `first`, counting, until the counter reaches
        `index`; at `index == length` the walk runs off the end (nil). */
    method GetNodeAt(index: nat) returns (res: Result<Node?<T>>)
      requires Valid()
      ensures index > length ==> res == Err(OutOfRange)
      ensures index < length ==> res == Ok(nodes[index])
      ensures index == length ==> res == Ok(null)
    {
      if index > length {
        return Err(OutOfRange);
      }
      var node: Node?<T> := first;
      var i := 0;
      while node != null
        invariant 0 <= i <= index && i <= |nodes|
        invariant node == if i < |nodes| then nodes[i] else null
        decreases |nodes| - i
      {
        if i == index {
          break;
        }
        node := node.next;
        i := i + 1;
      }
      return Ok(node);
    }

    /** Links a new node after `last`. */
    method Append(value: T)
      requires Valid()
      modifies this, nodes
      ensures Valid()
      ensures Contents() == old(Contents()) + [value]
      ensures length == old(length) + 1
    {
      ghost var ns := nodes;
      DistinctFrom(ns, |ns| - 1);
      var n := new Node(value);
      AppendDistinct(ns, n);
      ValuesAppend(ns, [n]);
      n.previous := last;
      last.next := n;
      last := n;
      length := length + 1;
      nodes := ns + [n];
    }

    /** Inserts `value` so that it becomes element `index`; fails when
        `index` is past the end. */
    method InsertAt(value: T, index: nat) returns (res: Outcome)
      requires Valid()
      modifies this, nodes
      ensures Valid()
      ensures index > old(length) ==> res == Fail(OutOfRange) && Contents() == old(Contents()) && length == old(length)
      ensures index <= old(length) ==>
        && res == Pass
        && Contents() == old(Contents())[..index] + [value] + old(Contents())[index..]
        && length == old(length) + 1
    {
      if index > length {
        return Fail(OutOfRange);
      }
      if index == 0 {
        LinkFirst(value);
      } else if index < length {
        var found := GetNodeAt(index);
        LinkBefore(value, found.value, index);
      } else {
        Append(value);
        assert old(Contents())[index..] == [];
      }
      return Pass;
    }

    /** The `index == 0` branch of `InsertAt`: the new node goes in front of
        `first`. */
    method LinkFirst(value: T)
      requires Valid()
      modifies this, nodes
      ensures Valid()
      ensures Contents() == [value] + old(Contents()) && length == old(length) + 1
    {
      ghost var ns := nodes;
      DistinctFrom(ns, 0);
      var n := new Node(value);
      ValuesAppend([n], ns);
      var previousFirst := first;
      first := n;
      n.next := previousFirst;
      previousFirst.previous := first;
      PrependLinks(ns, n);
      length := length + 1;
      nodes := [n] + ns;
    }

    /** The interior branch of `InsertAt`: the new node goes between the
        node at `index` and its predecessor. */
    method LinkBefore(value: T, nodeAtIndex: Node<T>, ghost index: nat)
      requires Valid() && 0 < index < length && nodeAtIndex == nodes[index]
      modifies this, nodes
      ensures Valid()
      ensures Contents() == old(Contents())[..index] + [value] + old(Contents())[index..]
      ensures length == old(length) + 1
    {
      ghost var ns := nodes;
      DistinctFrom(ns, index - 1);
      DistinctFrom(ns, index);
      var n := new Node(value);
      InsertDistinct(ns, n, index);
      ValuesInsert(ns, n, index);
      var oldPrevious := nodeAtIndex.previous;
      oldPrevious.next := n;
      n.next := nodeAtIndex;
      n.previous := oldPrevious;
      nodeAtIndex.previous := n;
      InsertLinks(ns, n, index);
      length := length + 1;
      nodes := ns[..index] + [n] + ns[index..];
    }

    /** Unlinks the last node; the node before it becomes `last`. */
    method Pop()
      requires Valid() && length >= 2
      modifies this, nodes
      ensures Valid()
      ensures Contents() == old(Contents())[..old(length) - 1]
      ensures length == old(length) - 1
    {
      ghost var ns := nodes;
      PrefixDistinct(ns, |ns| - 1);
      DistinctFrom(ns, |ns| - 2);
      ValuesAppend(ns[..|ns| - 1], [last]);
      assert ns == ns[..|ns| - 1] + [last];
      last := last.previous;
      last.next := null;
      length := length - 1;
      nodes := ns[..|ns| - 1];
    }

    /** Removes element `index`. Fails when `index` is not an element's index
        (see `DeleteAtAsWritten` for what the code does at `index ==
        length`). Removing the only element dereferences nil, hence the
        precondition. */
    method DeleteAt(index: nat) returns (res: Outcome)
      requires Valid() && (index < length ==> length >= 2)
      modifies this, nodes
      ensures Valid()
      ensures index >= old(length) ==> res == Fail(OutOfRange) && Contents() == old(Contents()) && length == old(length)
      ensures index < old(length) ==>
        && res == Pass
        && Contents() == old(Contents())[..index] + old(Contents())[index + 1..]
        && length == old(length) - 1
    {
      if index >= length {
        return Fail(OutOfRange);
      }
      if index == 0 {
        UnlinkFirst();
      } else if index < length - 1 {
        var found := GetNodeAt(index);
        Unlink(found.value, index);
      } else {
        Pop();
        assert old(Contents())[index + 1..] == [];
      }
      return Pass;
    }

    /** The `index == 0` branch of `DeleteAt`: the second node becomes
        `first`. */
    method UnlinkFirst()
      requires Valid() && length >= 2
      modifies this, nodes
      ensures Valid()
      ensures Contents() == old(Contents())[1..] && length == old(length) - 1
    {
      ghost var ns := nodes;
      SuffixDistinct(ns, 1);
      DistinctFrom(ns, 1);
      ValuesAppend([first], ns[1..]);
      assert ns == [first] + ns[1..];
      first := first.next;
      first.previous := null;
      length := length - 1;
      nodes := ns[1..];
    }

    /** The interior branch of `DeleteAt`: the neighbours of the node at
        `index` are linked to each other. */
    method Unlink(nodeAtIndex: Node<T>, ghost index: nat)
      requires Valid() && 0 < index < length - 1 && nodeAtIndex == nodes[index]
      modifies this, nodes
      ensures Valid()
      ensures Contents() == old(Contents())[..index] + old(Contents())[index + 1..]
      ensures length == old(length) - 1
    {
      ghost var ns := nodes;
      DistinctFrom(ns, index - 1);
      DistinctFrom(ns, index + 1);
      RemoveDistinct(ns, index);
      ValuesRemove(ns, index);
      var previous := nodeAtIndex.previous;
      var next := nodeAtIndex.next;
      previous.next := next;
      next.previous := previous;
      RemoveLinks(ns, index);
      length := length - 1;
      nodes := ns[..index] + ns[index + 1..];
    }

    /** The value of element `index`; fails past the end. At `index ==
        length` the Go code dereferences the nil node `GetNodeAt` returns. */
    method GetAt(index: nat) returns (res: Result<T>)
      requires Valid() && index != length
      ensures index > length ==> res == Err(OutOfRange)
      ensures index < length ==> res == Ok(Contents()[index])
    {
      if index > length {
        return Err(OutOfRange);
      }
      var found := GetNodeAt(index);
      var node := found.value;
      return Ok(node.value);
    }

    /** Head-to-tail traversal: the pairs (i, element i) in order. */
    method Forward() returns (pairs: seq<(int, T)>)
      requires Valid()
      ensures |pairs| == |Contents()|
      ensures forall i | 0 <= i < |pairs| :: pairs[i] == (i, Contents()[i])
    {
      pairs := [];
      var node: Node?<T> := first;
      var i := 0;
      while node != null
        invariant 0 <= i <= |nodes| && |pairs| == i
        invariant node == if i < |nodes| then nodes[i] else null
        invariant forall k | 0 <= k < i :: pairs[k] == (k, nodes[k].value)
        decreases |nodes| - i
      {
        pairs := pairs + [(i, node.value)];
        node := node.next;
        i := i + 1;
      }
    }

    /** Tail-to-head traversal: the pairs (i, element i) for i from
        length - 1 down to 0. */
    method Backward() returns (pairs: seq<(int, T)>)
      requires Valid()
      ensures |pairs| == |Contents()|
      ensures forall k | 0 <= k < |pairs| ::
        pairs[k] == (|Contents()| - 1 - k, Contents()[|Contents()| - 1 - k])
    {
      pairs := [];
      var node: Node?<T> := last;
      var i := length - 1;
      while node != null
        invariant -1 <= i < |nodes| && |pairs| == |nodes| - 1 - i
        invariant node == if i >= 0 then nodes[i] else null
        invariant forall k | 0 <= k < |pairs| ::
          pairs[k] == (|nodes| - 1 - k, nodes[|nodes| - 1 - k].value)
        decreases i + 1
      {
        pairs := pairs + [(i, node.value)];
        node := node.previous;
        i := i - 1;
      }
    }

    /** The values from `first` to `last`. */
    method Print() returns (values: seq<T>)
      requires Valid()
      ensures values == Contents()
    {
      values := [];
      var node: Node?<T> := first;
      while node != null
        invariant |values| <= |nodes|
        invariant node == if |values| < |nodes| then nodes[|values|] else null
        invariant values == Values(nodes[..|values|])
        decreases |nodes| - |values|
      {
        ValuesAppend(nodes[..|values|], [node]);
        assert nodes[..|values| + 1] == nodes[..|values|] + [node];
        values := values + [node.value];
        node := node.next;
      }
      assert nodes[..|values|] == nodes;
    }
  }

  /** The values held by a sequence of nodes, in order. */
  function Values<T>(ns: seq<Node<T>>): seq<T> {
    seq(|ns|, i requires 0 <= i < |ns| => ns[i].value)
  }

  lemma {:induction false} ValuesAppend<T>(a: seq<Node<T>>, b: seq<Node<T>>)
    ensures Values(a + b) == Values(a) + Values(b)
  {
    assert forall i | 0 <= i < |a| :: (a + b)[i] == a[i];
    assert forall i | |a| <= i < |a| + |b| :: (a + b)[i] == b[i - |a|];
  }

  lemma {:induction false} ValuesInsert<T>(ns: seq<Node<T>>, n: Node<T>, index: nat)
    requires index <= |ns|
    ensures Values(ns[..index] + [n] + ns[index..]) == Values(ns)[..index] + [n.value] + Values(ns)[index..]
  {
    ValuesAppend(ns[..index] + [n], ns[index..]);
    ValuesAppend(ns[..index], [n]);
    assert Values(ns[..index]) == Values(ns)[..index];
    assert Values(ns[index..]) == Values(ns)[index..];
  }

  lemma {:induction false} ValuesRemove<T>(ns: seq<Node<T>>, index: nat)
    requires index < |ns|
    ensures Values(ns[..index] + ns[index + 1..]) == Values(ns)[..index] + Values(ns)[index + 1..]
  {
    ValuesAppend(ns[..index], ns[index + 1..]);
    assert Values(ns[..index]) == Values(ns)[..index];
    assert Values(ns[index + 1..]) == Values(ns)[index + 1..];
  }

  /** A node linked both ways in front of the head of a chain extends it. */
  lemma {:induction false} PrependLinks<T>(ns: seq<Node<T>>, n: Node<T>)
    requires 1 <= |ns|
    requires forall i {:trigger ns[i].next} | 0 <= i < |ns| - 1 :: ns[i].next == ns[i + 1]
    requires forall i {:trigger ns[i].previous} | 0 < i < |ns| :: ns[i].previous == ns[i - 1]
    requires n.next == ns[0] && ns[0].previous == n
    ensures var ms := [n] + ns;
      && (forall i {:trigger ms[i].next} | 0 <= i < |ms| - 1 :: ms[i].next == ms[i + 1])
      && (forall i {:trigger ms[i].previous} | 0 < i < |ms| :: ms[i].previous == ms[i - 1])
  {
    var ms := [n] + ns;
    forall i | 1 <= i < |ms| - 1 ensures ms[i].next == ms[i + 1] {
      assert ms[i] == ns[i - 1] && ms[i + 1] == ns[i];
    }
    forall i | 1 < i < |ms| ensures ms[i].previous == ms[i - 1] {
      assert ms[i] == ns[i - 1] && ms[i - 1] == ns[i - 2];
    }
  }

  /** Splicing `n` in before element `index` leaves a chain. */
  lemma {:induction false} InsertLinks<T>(ns: seq<Node<T>>, n: Node<T>, index: nat)
    requires 0 < index < |ns|
    requires forall i {:trigger ns[i].next} | 0 <= i < |ns| - 1 && i != index - 1 :: ns[i].next == ns[i + 1]
    requires forall i {:trigger ns[i].previous} | 0 < i < |ns| && i != index :: ns[i].previous == ns[i - 1]
    requires ns[index - 1].next == n && n.next == ns[index]
    requires n.previous == ns[index - 1] && ns[index].previous == n
    ensures var ms := ns[..index] + [n] + ns[index..];
      && (forall i {:trigger ms[i].next} | 0 <= i < |ms| - 1 :: ms[i].next == ms[i + 1])
      && (forall i {:trigger ms[i].previous} | 0 < i < |ms| :: ms[i].previous == ms[i - 1])
  {
    var ms := ns[..index] + [n] + ns[index..];
    forall i | 0 <= i < |ms| - 1 ensures ms[i].next == ms[i + 1] {
      if i < index - 1 {
        assert ms[i] == ns[i] && ms[i + 1] == ns[i + 1];
      } else if i > index {
        assert ms[i] == ns[i - 1] && ms[i + 1] == ns[i];
      }
    }
    forall i | 0 < i < |ms| ensures ms[i].previous == ms[i - 1] {
      if i < index {
        assert ms[i] == ns[i] && ms[i - 1] == ns[i - 1];
      } else if i > index + 1 {
        assert ms[i] == ns[i - 1] && ms[i - 1] == ns[i - 2];
      }
    }
  }

  /** Linking the neighbours of element `index` to each other leaves a chain
      without it. */
  lemma {:induction false} RemoveLinks<T>(ns: seq<Node<T>>, index: nat)
    requires 0 < index < |ns| - 1
    requires forall i {:trigger ns[i].next} | 0 <= i < |ns| - 1 && i != index - 1 && i != index :: ns[i].next == ns[i + 1]
    requires forall i {:trigger ns[i].previous} | 0 < i < |ns| && i != index && i != index + 1 :: ns[i].previous == ns[i - 1]
    requires ns[index - 1].next == ns[index + 1] && ns[index + 1].previous == ns[index - 1]
    ensures var ms := ns[..index] + ns[index + 1..];
      && (forall i {:trigger ms[i].next} | 0 <= i < |ms| - 1 :: ms[i].next == ms[i + 1])
      && (forall i {:trigger ms[i].previous} | 0 < i < |ms| :: ms[i].previous == ms[i - 1])
  {
    var ms := ns[..index] + ns[index + 1..];
    forall i | 0 <= i < |ms| - 1 ensures ms[i].next == ms[i + 1] {
      if i < index - 1 {
        assert ms[i] == ns[i] && ms[i + 1] == ns[i + 1];
      } else if i == index - 1 {
        assert ms[i] == ns[i] && ms[i + 1] == ns[i + 2];
      } else {
        assert ms[i] == ns[i + 1] && ms[i + 1] == ns[i + 2];
      }
    }
    forall i | 0 < i < |ms| ensures ms[i].previous == ms[i - 1] {
      if i < index {
        assert ms[i] == ns[i] && ms[i - 1] == ns[i - 1];
      } else if i == index {
        assert ms[i] == ns[i + 1] && ms[i - 1] == ns[i - 1];
      } else {
        assert ms[i] == ns[i + 1] && ms[i - 1] == ns[i];
      }
    }
  }

  /** No node occurs twice: the first is not among the rest, and so on.
      Stated recursively so that the verifier unfolds it only on demand;
      `DistinctPairs` and `PairsDistinct` relate it to pairwise inequality. */
  ghost predicate Distinct<T>(ns: seq<Node<T>>)
    decreases |ns|
  {
    |ns| == 0 || (ns[0] !in ns[1..] && Distinct(ns[1..]))
  }

  lemma {:induction false} DistinctPairs<T>(ns: seq<Node<T>>)
    requires Distinct(ns)
    ensures forall i, j | 0 <= i < j < |ns| :: ns[i] != ns[j]
    decreases |ns|
  {
    if |ns| > 0 {
      DistinctPairs(ns[1..]);
      forall i, j | 0 <= i < j < |ns| ensures ns[i] != ns[j] {
        if i == 0 {
          assert ns[j] == ns[1..][j - 1];
        } else {
          assert ns[i] == ns[1..][i - 1] && ns[j] == ns[1..][j - 1];
        }
      }
    }
  }

  lemma {:induction false} PairsDistinct<T>(ns: seq<Node<T>>)
    requires forall i, j | 0 <= i < j < |ns| :: ns[i] != ns[j]
    ensures Distinct(ns)
    decreases |ns|
  {
    if |ns| > 0 {
      var rest := ns[1..];
      forall i, j | 0 <= i < j < |rest| ensures rest[i] != rest[j] {
        assert rest[i] == ns[i + 1] && rest[j] == ns[j + 1];
      }
      PairsDistinct(rest);
    }
  }

  /** In a distinct sequence, element `j` differs from every other element. */
  lemma {:induction false} DistinctFrom<T>(ns: seq<Node<T>>, j: nat)
    requires Distinct(ns) && j < |ns|
    ensures forall k | 0 <= k < |ns| && k != j :: ns[k] != ns[j]
  {
    DistinctPairs(ns);
    forall k | 0 <= k < |ns| && k != j ensures ns[k] != ns[j] {
      if k < j { assert ns[k] != ns[j]; } else { assert ns[j] != ns[k]; }
    }
  }

  lemma {:induction false} InsertDistinct<T>(ns: seq<Node<T>>, n: Node<T>, index: nat)
    requires Distinct(ns) && n !in ns && index <= |ns|
    ensures Distinct(ns[..index] + [n] + ns[index..])
  {
    var ms := ns[..index] + [n] + ns[index..];
    DistinctPairs(ns);
    forall i, j | 0 <= i < j < |ms| ensures ms[i] != ms[j] {
      if i < index && j < index {
        assert ms[i] == ns[i] && ms[j] == ns[j];
      } else if i > index && j > index {
        assert ms[i] == ns[i - 1] && ms[j] == ns[j - 1];
      } else if i < index && j > index {
        assert ms[i] == ns[i] && ms[j] == ns[j - 1];
      } else if i == index {
        assert ms[j] == ns[j - 1];
      } else {
        assert ms[i] == ns[i];
      }
    }
    PairsDistinct(ms);
  }

  lemma {:induction false} AppendDistinct<T>(ns: seq<Node<T>>, n: Node<T>)
    requires Distinct(ns) && n !in ns
    ensures Distinct(ns + [n])
  {
    InsertDistinct(ns, n, |ns|);
    assert ns[..|ns|] + [n] + ns[|ns|..] == ns + [n];
  }

  lemma {:induction false} PrefixDistinct<T>(ns: seq<Node<T>>, k: nat)
    requires Distinct(ns) && k <= |ns|
    ensures Distinct(ns[..k])
  {
    DistinctPairs(ns);
    PairsDistinct(ns[..k]);
  }

  lemma {:induction false} SuffixDistinct<T>(ns: seq<Node<T>>, k: nat)
    requires Distinct(ns) && k <= |ns|
    ensures Distinct(ns[k..])
  {
    DistinctPairs(ns);
    var ms := ns[k..];
    forall i, j | 0 <= i < j < |ms| ensures ms[i] != ms[j] {
      assert ms[i] == ns[i + k] && ms[j] == ns[j + k];
    }
    PairsDistinct(ms);
  }

  lemma {:induction false} RemoveDistinct<T>(ns: seq<Node<T>>, index: nat)
    requires Distinct(ns) && index < |ns|
    ensures Distinct(ns[..index] + ns[index + 1..])
    ensures forall k | 0 <= k < |ns| && k != index :: ns[k] != ns[index]
  {
    var ms := ns[..index] + ns[index + 1..];
    DistinctPairs(ns);
    forall i, j | 0 <= i < j < |ms| ensures ms[i] != ms[j] {
      if i < index && j < index {
        assert ms[i] == ns[i] && ms[j] == ns[j];
      } else if i >= index && j >= index {
        assert ms[i] == ns[i + 1] && ms[j] == ns[j + 1];
      } else {
        assert ms[i] == ns[i] && ms[j] == ns[j + 1];
      }
    }
    PairsDistinct(ms);
  }

  /** The effect of the Go `DeleteAt` on (contents, Length), as written.
      `index == Length` passes the `index > Length` guard and matches none
      of the three branches, so only `ll.Length--` runs. */
  function DeleteAtAsWritten<T>(contents: seq<T>, length: int, index: nat): (r: (seq<T>, int))
    requires 1 <= length == |contents| && (index < length ==> length >= 2)
    ensures index > length ==> r == (contents, length)
    ensures index < length ==> r == (contents[..index] + contents[index + 1..], length - 1)
  {
    if index > length then (contents, length)
    else if index == length then (contents, length - 1)
    else (contents[..index] + contents[index + 1..], length - 1)
  }

  /** As written, deleting at `index == Length` succeeds, keeps every node
      and still lowers `Length`, which then no longer counts the nodes. */
  lemma {:induction false} DeleteAtPastEndDesynchronises<T>(contents: seq<T>)
    requires |contents| >= 1
    ensures var r := DeleteAtAsWritten(contents, |contents|, |contents|);
      r.0 == contents && r.1 == |contents| - 1 && r.1 != |r.0|
  {
  }
}
