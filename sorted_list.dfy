/**
 * Tree nodes and the frequency-ordered list they are threaded on
 * (`Node`, `add_node`). In the C program a node's `next` pointer links it
 * into a singly-linked list kept in ascending `freqs` order; here the list
 * is the sequence of nodes reachable from its head.
 */
module SortedList {
  import opened Binary

  /** A node of the Huffman tree. Leaves carry a symbol; internal nodes own
      their two children (`children[0]`, `children[1]`) outright. */
  datatype Node =
    | Leaf(symbol: uint8, freqs: nat)
    | Internal(freqs: nat, left: Node, right: Node)

  /** Ascending (non-decreasing) order of `freqs`. */
  ghost predicate Sorted(list: seq<Node>) {
    forall i, j :: 0 <= i < j < |list| ==> list[i].freqs <= list[j].freqs
  }

  /** The position `add_node` gives a node of frequency `f`: in front of the
      first node whose frequency is at least `f`, or at the end. */
  function InsertPos(list: seq<Node>, f: nat): (k: nat)
    ensures k <= |list|
    ensures forall i :: 0 <= i < k ==> list[i].freqs < f
    ensures k < |list| ==> f <= list[k].freqs
  {
    if list == [] || f <= list[0].freqs then 0 else 1 + InsertPos(list[1..], f)
  }

  /** The list after `add_node(list, node)`. */
  function Insert(list: seq<Node>, node: Node): (r: seq<Node>)
    ensures |r| == |list| + 1
    ensures var k := InsertPos(list, node.freqs);
      && r[k] == node
      && (forall i :: 0 <= i < k ==> r[i].freqs < node.freqs)
  {
    var k := InsertPos(list, node.freqs);
    assert list == list[..k] + list[k..];
    list[..k] + [node] + list[k..]
  }

  /** `add_node` adds `node` and nothing else. */
  lemma InsertMultiset(list: seq<Node>, node: Node)
    ensures multiset(Insert(list, node)) == multiset(list) + multiset{node}
  {
    var k := InsertPos(list, node.freqs);
    assert list == list[..k] + list[k..];
  }

  /** `node` ends up in front of every node that was already in the list
      with the same frequency. */
  lemma InsertBeforeEqual(list: seq<Node>, node: Node, i: nat)
    requires Sorted(list) && i < |list| && list[i].freqs == node.freqs
    ensures var r := Insert(list, node);
      var k := InsertPos(list, node.freqs);
      k <= i && r[i + 1] == list[i]
  {
    InsertShape(list, node);
  }

  /** `add_node` keeps a sorted list sorted. */
  lemma InsertKeepsSorted(list: seq<Node>, node: Node)
    requires Sorted(list)
    ensures Sorted(Insert(list, node))
  {
    var k := InsertPos(list, node.freqs);
    var r := Insert(list, node);
    InsertShape(list, node);
    forall i, j | 0 <= i < j < |r|
      ensures r[i].freqs <= r[j].freqs
    {
      if i == k {
        assert list[k].freqs <= list[j - 1].freqs;
      }
    }
  }

  lemma InsertShape(list: seq<Node>, node: Node)
    ensures var k := InsertPos(list, node.freqs);
      var r := Insert(list, node);
      && (forall m :: 0 <= m < k ==> r[m] == list[m])
      && (forall m :: k < m < |r| ==> r[m] == list[m - 1])
  {
    var k := InsertPos(list, node.freqs);
    assert Insert(list, node) == list[..k] + [node] + list[k..];
  }

  /** `add_node` (huffman.c): the new node goes in front of the head when its
      frequency is at most the head's; otherwise the list is walked while the
      next node's frequency is strictly smaller, and the node is linked in
      after the last node walked over. */
  method AddNode(root: seq<Node>, node: Node) returns (r: seq<Node>)
    ensures r == Insert(root, node)
  {
    if |root| == 0 {
      r := [node];
    } else if node.freqs <= root[0].freqs {
      r := [node] + root;
    } else {
      var head := 0;
      while head + 1 < |root| && root[head + 1].freqs < node.freqs
        invariant head < |root|
        invariant forall i :: 0 <= i <= head ==> root[i].freqs < node.freqs
      {
        head := head + 1;
      }
      InsertPosIs(root, node.freqs, head + 1);
      r := root[..head + 1] + [node] + root[head + 1..];
    }
  }

  /** `InsertPos` is the first position whose frequency is not below `f`. */
  lemma {:induction false} InsertPosIs(list: seq<Node>, f: nat, k: nat)
    requires k <= |list|
    requires forall i :: 0 <= i < k ==> list[i].freqs < f
    requires k < |list| ==> f <= list[k].freqs
    ensures InsertPos(list, f) == k
  {
    if k > 0 {
      InsertPosIs(list[1..], f, k - 1);
    }
  }

  /** Sum of the frequencies of the nodes on a list. */
  function SumFreqs(list: seq<Node>): nat {
    if list == [] then 0 else list[0].freqs + SumFreqs(list[1..])
  }

  lemma {:induction false} SumFreqsConcat(a: seq<Node>, b: seq<Node>)
    ensures SumFreqs(a + b) == SumFreqs(a) + SumFreqs(b)
  {
    if a == [] {
      assert a + b == b;
    } else {
      assert (a + b)[1..] == a[1..] + b;
      SumFreqsConcat(a[1..], b);
    }
  }

  /** Inserting a node adds exactly its frequency to the list's total. */
  lemma InsertSumFreqs(list: seq<Node>, node: Node)
    ensures SumFreqs(Insert(list, node)) == SumFreqs(list) + node.freqs
  {
    var k := InsertPos(list, node.freqs);
    assert list == list[..k] + list[k..];
    SumFreqsConcat(list[..k], list[k..]);
    SumFreqsConcat(list[..k] + [node], list[k..]);
    SumFreqsConcat(list[..k], [node]);
  }
}
