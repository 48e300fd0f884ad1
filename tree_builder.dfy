/**
 * Building the Huffman tree: the list of leaves that `init_tree_from_buf`
 * threads in frequency order, and `build_tree`, which merges the two front
 * nodes of that list until one node is left.
 */
module TreeBuilder {
  import opened Binary
  import opened SortedList
  import opened Symbols

  /** One leaf per entry of the symbol list, carrying that entry's count. */
  function LeafNodes(symbols: seq<uint8>, occurs: seq<nat>): seq<Node>
    requires |symbols| == |occurs|
  {
    seq(|symbols|, i requires 0 <= i < |symbols| => Leaf(symbols[i], occurs[i]))
  }

  /** The list that repeated `add_node` calls build from `nodes`, added in
      order to an initially empty list. */
  function InsertAll(nodes: seq<Node>): (r: seq<Node>)
    ensures |r| == |nodes|
  {
    if nodes == [] then []
    else Insert(InsertAll(nodes[..|nodes| - 1]), nodes[|nodes| - 1])
  }

  /** The list built by `add_node` is sorted, holds exactly the nodes added,
      and keeps their total frequency. */
  lemma {:induction false} InsertAllFacts(nodes: seq<Node>)
    ensures var r := InsertAll(nodes);
      && Sorted(r)
      && multiset(r) == multiset(nodes)
      && SumFreqs(r) == SumFreqs(nodes)
  {
    if nodes != [] {
      var init, n := nodes[..|nodes| - 1], nodes[|nodes| - 1];
      var p := InsertAll(init);
      assert nodes == init + [n];
      InsertAllFacts(init);
      assert InsertAll(nodes) == Insert(p, n);
      InsertKeepsSorted(p, n);
      InsertMultiset(p, n);
      assert multiset(nodes) == multiset(init) + multiset{n};
      InsertSumFreqs(p, n);
      SumFreqsConcat(init, [n]);
      assert SumFreqs(nodes) == SumFreqs(init) + n.freqs;
    }
  }

  /** The leaf-list loop of `init_tree_from_buf` (huffman.c): a leaf per
      symbol-list entry, each added with `add_node`. */
  method LeafList(symbols: seq<uint8>, occurs: seq<nat>) returns (root: seq<Node>)
    requires |symbols| == |occurs|
    ensures root == InsertAll(LeafNodes(symbols, occurs))
  {
    var leaves := LeafNodes(symbols, occurs);
    root := [];
    for i := 0 to |symbols|
      invariant root == InsertAll(leaves[..i])
    {
      var leaf := Leaf(symbols[i], occurs[i]);
      assert leaves[..i + 1] == leaves[..i] + [leaf];
      root := AddNode(root, leaf);
    }
    assert leaves[..|symbols|] == leaves;
  }

  /** The list `init_tree_from_buf` leaves in `tree->root`. */
  function InitialList(buf: seq<uint8>): seq<Node> {
    var symbols := CollapseRuns(buf);
    InsertAll(LeafNodes(symbols, Credits(buf, symbols)))
  }

  /** Symbols of the leaves of positive frequency in a (sub)tree. */
  function PosSymbols(node: Node): set<uint8> {
    match node
    case Leaf(s, f) => if f > 0 then {s} else {}
    case Internal(_, l, r) => PosSymbols(l) + PosSymbols(r)
  }

  function ListPosSymbols(list: seq<Node>): set<uint8> {
    if list == [] then {} else PosSymbols(list[0]) + ListPosSymbols(list[1..])
  }

  lemma {:induction false} ListPosSymbolsConcat(a: seq<Node>, b: seq<Node>)
    ensures ListPosSymbols(a + b) == ListPosSymbols(a) + ListPosSymbols(b)
  {
    if a == [] {
      assert a + b == b;
    } else {
      assert (a + b)[1..] == a[1..] + b;
      ListPosSymbolsConcat(a[1..], b);
    }
  }

  lemma ListPosSymbolsCons(x: Node, rest: seq<Node>)
    ensures ListPosSymbols([x] + rest) == PosSymbols(x) + ListPosSymbols(rest)
  {
    assert ([x] + rest)[1..] == rest;
  }

  lemma ListPosSymbolsSnoc(init: seq<Node>, x: Node)
    ensures ListPosSymbols(init + [x]) == ListPosSymbols(init) + PosSymbols(x)
  {
    ListPosSymbolsConcat(init, [x]);
    ListPosSymbolsCons(x, []);
    assert [x] + [] == [x];
  }

  lemma InsertPosSymbols(list: seq<Node>, node: Node)
    ensures ListPosSymbols(Insert(list, node)) == ListPosSymbols(list) + PosSymbols(node)
  {
    var k := InsertPos(list, node.freqs);
    assert list == list[..k] + list[k..];
    ListPosSymbolsConcat(list[..k], list[k..]);
    ListPosSymbolsConcat(list[..k] + [node], list[k..]);
    ListPosSymbolsConcat(list[..k], [node]);
  }

  lemma {:induction false} InsertAllPosSymbols(nodes: seq<Node>)
    ensures ListPosSymbols(InsertAll(nodes)) == ListPosSymbols(nodes)
  {
    if nodes != [] {
      var init, n := nodes[..|nodes| - 1], nodes[|nodes| - 1];
      InsertAllPosSymbols(init);
      InsertPosSymbols(InsertAll(init), n);
      assert nodes == init + [n];
      ListPosSymbolsSnoc(init, n);
    }
  }

  lemma {:induction false} SumFreqsLeaves(symbols: seq<uint8>, occurs: seq<nat>)
    requires |symbols| == |occurs|
    ensures SumFreqs(LeafNodes(symbols, occurs)) == SumNat(occurs)
  {
    if symbols != [] {
      assert LeafNodes(symbols, occurs)[1..] == LeafNodes(symbols[1..], occurs[1..]);
      SumFreqsLeaves(symbols[1..], occurs[1..]);
    }
  }

  lemma {:induction false} LeavesPosSymbols(symbols: seq<uint8>, occurs: seq<nat>)
    requires |symbols| == |occurs|
    ensures forall c :: c in ListPosSymbols(LeafNodes(symbols, occurs)) <==>
      exists i :: 0 <= i < |symbols| && symbols[i] == c && occurs[i] > 0
  {
    if symbols != [] {
      assert LeafNodes(symbols, occurs)[1..] == LeafNodes(symbols[1..], occurs[1..]);
      LeavesPosSymbols(symbols[1..], occurs[1..]);
      forall c | (exists i :: 0 <= i < |symbols| && symbols[i] == c && occurs[i] > 0)
        ensures c in ListPosSymbols(LeafNodes(symbols, occurs))
      {
        var i :| 0 <= i < |symbols| && symbols[i] == c && occurs[i] > 0;
        if i > 0 {
          assert symbols[1..][i - 1] == c && occurs[1..][i - 1] > 0;
        }
      }
    }
  }

  /** The initial list is sorted, has one leaf per symbol-list entry, its
      frequencies add up to the input length, and the symbols of its
      positive-frequency leaves are exactly the input's bytes. */
  lemma InitialListFacts(buf: seq<uint8>)
    ensures var list := InitialList(buf);
      && Sorted(list)
      && |list| == |CollapseRuns(buf)|
      && SumFreqs(list) == |buf|
      && (forall c :: c in ListPosSymbols(list) <==> c in buf)
      && (forall i :: 0 <= i < |list| ==> list[i].Leaf?)
  {
    var symbols := CollapseRuns(buf);
    var occurs := Credits(buf, symbols);
    var leaves := LeafNodes(symbols, occurs);
    InsertAllFacts(leaves);
    CreditsSum(buf, symbols);
    SumFreqsLeaves(symbols, occurs);
    InsertAllPosSymbols(leaves);
    LeavesPosSymbols(symbols, occurs);
    forall c | c in buf
      ensures exists i :: 0 <= i < |symbols| && symbols[i] == c && occurs[i] > 0
    {
      var k := FirstIndex(symbols, c);
      CreditOf(buf, symbols, k);
      assert occurs[k] > 0;
    }
    forall i | 0 <= i < |symbols| && occurs[i] > 0
      ensures symbols[i] in buf
    {
      CreditOf(buf, symbols, i);
    }
    var list := InitialList(buf);
    forall i | 0 <= i < |list|
      ensures list[i].Leaf?
    {
      assert list[i] in multiset(leaves);
    }
  }

  /** The internal node `build_tree` makes from the two front nodes. */
  function Merge(first: Node, second: Node): Node {
    Internal(first.freqs + second.freqs, first, second)
  }

  lemma InsertInFront(list: seq<Node>, node: Node)
    requires list != [] && node.freqs <= list[0].freqs
    ensures Insert(list, node) == [node] + list
  {
  }

  lemma InsertBehind(x: Node, rest: seq<Node>, node: Node)
    requires x.freqs < node.freqs
    ensures Insert([x] + rest, node) == [x] + Insert(rest, node)
  {
    var list := [x] + rest;
    var k := InsertPos(rest, node.freqs);
    assert list[1..] == rest;
    assert InsertPos(list, node.freqs) == k + 1;
    assert list[..k + 1] == [x] + rest[..k];
    assert list[k + 1..] == rest[k..];
  }

  /** The live list after one iteration of `build_tree`: the second node is
      unlinked, the merged node is added with `add_node` to the list headed
      by the first node, and the loop moves on to the next node. Normally the
      first node is then dropped and the merged node is in the list. When the
      second node has frequency 0, the merged node (frequency equal to the
      first's) is put in front of the first and skipped; the first node stays
      in the list and the second is no longer on it. */
  function Step(live: seq<Node>): (r: seq<Node>)
    requires |live| >= 2
    ensures |r| == |live| - 1
    ensures SumFreqs(r) == SumFreqs(live)
    ensures live[1].freqs > 0 ==> r == Insert(live[2..], Merge(live[0], live[1]))
    ensures live[1].freqs == 0 ==> r == [live[0]] + live[2..]
  {
    var m := Merge(live[0], live[1]);
    var rest := live[2..];
    assert live == [live[0]] + ([live[1]] + rest);
    SumFreqsConcat([live[0]], [live[1]] + rest);
    SumFreqsConcat([live[1]], rest);
    SumFreqsConcat([live[0]], rest);
    if live[1].freqs > 0 then
      InsertBehind(live[0], rest, m);
      InsertSumFreqs(rest, m);
      Insert([live[0]] + rest, m)[1..]
    else
      InsertInFront([live[0]] + rest, m);
      Insert([live[0]] + rest, m)[1..]
  }

  /** One iteration of the `build_tree` loop computes `Step`. */
  lemma StepIs(live: seq<Node>, list: seq<Node>)
    requires |live| >= 2
    requires list == Insert([live[0]] + live[2..], Merge(live[0], live[1]))
    ensures list[1..] == Step(live)
  {
  }

  lemma StepKeepsSorted(live: seq<Node>)
    requires |live| >= 2 && Sorted(live)
    ensures Sorted(Step(live))
  {
    var rest := live[2..];
    assert Sorted(rest);
    if live[1].freqs > 0 {
      InsertKeepsSorted(rest, Merge(live[0], live[1]));
    } else {
      assert Step(live) == [live[0]] + rest;
    }
  }

  /** The root `build_tree` ends with. */
  function Build(live: seq<Node>): Node
    requires |live| >= 1
    decreases |live|
  {
    if |live| == 1 then live[0] else Build(Step(live))
  }

  /** The root's frequency is the sum of the frequencies on the initial list. */
  lemma {:induction false} BuildFreqs(live: seq<Node>)
    requires |live| >= 1
    ensures Build(live).freqs == SumFreqs(live)
    decreases |live|
  {
    if |live| == 1 {
      assert live == [live[0]] + [];
    } else {
      BuildFreqs(Step(live));
    }
  }

  /** Every internal node's frequency is the sum of its children's. */
  ghost predicate WellWeighted(node: Node) {
    match node
    case Leaf(_, _) => true
    case Internal(f, l, r) => f == l.freqs + r.freqs && WellWeighted(l) && WellWeighted(r)
  }

  ghost predicate AllWellWeighted(list: seq<Node>) {
    forall i :: 0 <= i < |list| ==> WellWeighted(list[i])
  }

  /** A well-weighted node of frequency 0 has no leaf of positive frequency. */
  lemma {:induction false} ZeroHasNoPosSymbols(node: Node)
    requires WellWeighted(node) && node.freqs == 0
    ensures PosSymbols(node) == {}
  {
    if node.Internal? {
      ZeroHasNoPosSymbols(node.left);
      ZeroHasNoPosSymbols(node.right);
    }
  }

  /** Merging keeps every node on the list well weighted. */
  lemma StepKeepsWellWeighted(live: seq<Node>)
    requires |live| >= 2 && AllWellWeighted(live)
    ensures AllWellWeighted(Step(live))
  {
    var rest := live[2..];
    var m := Merge(live[0], live[1]);
    var r := Step(live);
    if live[1].freqs > 0 {
      InsertShape(rest, m);
      var k := InsertPos(rest, m.freqs);
      forall i | 0 <= i < |r|
        ensures WellWeighted(r[i])
      {
        if i < k {
          assert r[i] == live[i + 2];
        } else if i > k {
          assert r[i] == live[i + 1];
        }
      }
    } else {
      forall i | 0 <= i < |r|
        ensures WellWeighted(r[i])
      {
        if i > 0 {
          assert r[i] == live[i + 1];
        }
      }
    }
  }

  /** Merging loses no symbol of positive frequency. */
  lemma StepKeepsSymbols(live: seq<Node>)
    requires |live| >= 2 && WellWeighted(live[1])
    ensures ListPosSymbols(Step(live)) == ListPosSymbols(live)
  {
    var rest := live[2..];
    assert live == [live[0]] + ([live[1]] + rest);
    ListPosSymbolsCons(live[0], [live[1]] + rest);
    ListPosSymbolsCons(live[1], rest);
    if live[1].freqs > 0 {
      MergedSymbols(live[0], live[1], rest);
    } else {
      ZeroHasNoPosSymbols(live[1]);
      ListPosSymbolsCons(live[0], rest);
    }
  }

  lemma MergedSymbols(first: Node, second: Node, rest: seq<Node>)
    ensures ListPosSymbols(Insert(rest, Merge(first, second))) ==
      PosSymbols(first) + (PosSymbols(second) + ListPosSymbols(rest))
  {
    InsertPosSymbols(rest, Merge(first, second));
  }

  /** Every symbol that has a leaf of positive frequency on the initial list
      has one in the final tree: only zero-frequency leaves are lost. */
  lemma {:induction false} BuildKeepsSymbols(live: seq<Node>)
    requires |live| >= 1 && AllWellWeighted(live)
    ensures PosSymbols(Build(live)) == ListPosSymbols(live)
    decreases |live|
  {
    if |live| == 1 {
      assert live[1..] == [];
    } else {
      StepKeepsWellWeighted(live);
      StepKeepsSymbols(live);
      BuildKeepsSymbols(Step(live));
    }
  }

  /** The Huffman tree of an input (`init_tree_from_buf` then
      `build_tree`): its root's frequency is the input length, and every
      input byte has a leaf of positive frequency in it. */
  lemma TreeOfInput(buf: seq<uint8>)
    requires buf != []
    ensures |InitialList(buf)| >= 1
    ensures Build(InitialList(buf)).freqs == |buf|
    ensures forall c :: c in PosSymbols(Build(InitialList(buf))) <==> c in buf
  {
    var list := InitialList(buf);
    InitialListFacts(buf);
    BuildFreqs(list);
    BuildKeepsSymbols(list);
  }

  /** Number of leaves of a (sub)tree: the entries `dfs` writes for it. */
  function LeafCount(node: Node): (n: nat)
    ensures n >= 1
  {
    match node
    case Leaf(_, _) => 1
    case Internal(_, l, r) => LeafCount(l) + LeafCount(r)
  }

  function ListLeafCount(list: seq<Node>): nat {
    if list == [] then 0 else LeafCount(list[0]) + ListLeafCount(list[1..])
  }

  lemma {:induction false} ListLeafCountConcat(a: seq<Node>, b: seq<Node>)
    ensures ListLeafCount(a + b) == ListLeafCount(a) + ListLeafCount(b)
  {
    if a == [] {
      assert a + b == b;
    } else {
      assert (a + b)[1..] == a[1..] + b;
      ListLeafCountConcat(a[1..], b);
    }
  }

  /** Merging never adds leaves; it drops the second node's leaves when that
      node has frequency 0. */
  lemma StepLeafCount(live: seq<Node>)
    requires |live| >= 2
    ensures ListLeafCount(Step(live)) <= ListLeafCount(live)
  {
    var rest := live[2..];
    assert live[1..][1..] == rest;
    assert ListLeafCount(live) == LeafCount(live[0]) + LeafCount(live[1]) + ListLeafCount(rest);
    if live[1].freqs > 0 {
      InsertLeafCount(rest, Merge(live[0], live[1]));
    } else {
      assert ([live[0]] + rest)[1..] == rest;
    }
  }

  lemma InsertLeafCount(list: seq<Node>, node: Node)
    ensures ListLeafCount(Insert(list, node)) == ListLeafCount(list) + LeafCount(node)
  {
    var k := InsertPos(list, node.freqs);
    assert list == list[..k] + list[k..];
    ListLeafCountConcat(list[..k], list[k..]);
    ListLeafCountConcat(list[..k] + [node], list[k..]);
    ListLeafCountConcat(list[..k], [node]);
  }

  lemma {:induction false} BuildLeafCount(live: seq<Node>)
    requires |live| >= 1
    ensures LeafCount(Build(live)) <= ListLeafCount(live)
    decreases |live|
  {
    if |live| == 1 {
      assert live[1..] == [];
    } else {
      StepLeafCount(live);
      BuildLeafCount(Step(live));
    }
  }

  lemma {:induction false} LeavesLeafCount(list: seq<Node>)
    requires forall i :: 0 <= i < |list| ==> list[i].Leaf?
    ensures ListLeafCount(list) == |list|
  {
    if list != [] {
      LeavesLeafCount(list[1..]);
    }
  }

  /** The tree of an input has at most as many leaves as the symbol list has
      entries, so `dfs` stays within the table `tree2book` allocates. */
  lemma TreeLeafCount(buf: seq<uint8>)
    requires buf != []
    ensures |InitialList(buf)| >= 1
    ensures LeafCount(Build(InitialList(buf))) <= |CollapseRuns(buf)|
  {
    InitialListFacts(buf);
    LeavesLeafCount(InitialList(buf));
    BuildLeafCount(InitialList(buf));
  }

  /** huffman.h `Tree`: the head of the node list (after `build_tree`, the
      root) and the number of symbol-list entries. */
  class Tree {
    /** The nodes reachable from `root` along `next`; `root` is `live[0]`. */
    var live: seq<Node>
    var numSymbols: nat

    constructor (live: seq<Node>, numSymbols: nat)
      ensures this.live == live && this.numSymbols == numSymbols
    {
      this.live := live;
      this.numSymbols := numSymbols;
    }

    /** `build_tree` (huffman.c). The C loop reads `head->next` of the head
        it starts from, so the list must not be empty. */
    method BuildTree()
      requires |live| >= 1
      modifies this`live
      ensures live == [Build(old(live))]
      ensures numSymbols == old(numSymbols)
    {
      // `head` walks the list: the nodes from the current head on.
      var head := live;
      while |head| > 1
        invariant |head| >= 1
        invariant Build(head) == Build(old(live))
        decreases |head|
      {
        var root := Internal(head[0].freqs + head[1].freqs, head[0], head[1]);
        var list := AddNode([head[0]] + head[2..], root);
        StepIs(head, list);
        head := list[1..];
      }
      assert head == [head[0]];
      live := head;
    }
  }

  /** `init_tree_from_buf` (huffman.c): symbol list, counts, then the
      sorted leaf list. */
  method InitTreeFromBuf(buf: seq<uint8>) returns (tree: Tree)
    ensures fresh(tree)
    ensures tree.live == InitialList(buf)
    ensures tree.numSymbols == |CollapseRuns(buf)|
  {
    var symbols := InitSymbolList(buf);
    var occurs := CountOccurrences(buf, symbols);
    var root := LeafList(symbols, occurs);
    tree := new Tree(root, |symbols|);
  }
}
