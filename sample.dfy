/** The sample input AAAABCCCDDE traced through the whole pipeline: its
    symbol list, counts, sorted leaf list, tree, code book and bit stream. */
module Sample {
  import opened Binary
  import opened SortedList
  import opened Symbols
  import opened TreeBuilder
  import opened CodeBook
  import opened BitWriter
  import opened Container
  import opened Encoder
  import opened Decoder

  /** The bytes of "AAAABCCCDDE". */
  const Input: seq<uint8> := [0x41, 0x41, 0x41, 0x41, 0x42, 0x43, 0x43, 0x43, 0x44, 0x44, 0x45]

  /** The bits `compress` sends for `Input`. */
  const Stream: seq<bit> := [0, 0, 0, 0, 1, 1, 0, 1, 1, 0, 1, 0, 1, 0, 1, 1, 1, 1, 1, 1, 1, 1, 0, 0]

  /** The code book `encode` builds for `Input`. */
  const Codes: seq<CodeTable> := [CodeTable(0x41, 0, 1), CodeTable(0x43, 2, 2), CodeTable(0x45, 12, 4), CodeTable(0x42, 13, 4), CodeTable(0x44, 7, 3)]

  lemma InsertAllSnoc(nodes: seq<Node>, n: Node)
    ensures InsertAll(nodes + [n]) == Insert(InsertAll(nodes), n)
  {
    assert (nodes + [n])[..|nodes|] == nodes;
  }

  /** The symbol list of the first 3 bytes of the sample. */
  lemma Symbols3()
    ensures CollapseRuns([0x41, 0x41, 0x41]) == [0x41]
  {
    assert [0x41][..0] == [];
    assert CollapseRuns([0x41]) == [0x41];
    assert [0x41, 0x41][..1] == [0x41];
    assert CollapseRuns([0x41, 0x41]) == [0x41];
    assert [0x41, 0x41, 0x41][..2] == [0x41, 0x41];
  }

  /** The symbol list of the first 6 bytes of the sample. */
  lemma Symbols6()
    ensures CollapseRuns([0x41, 0x41, 0x41, 0x41, 0x42, 0x43]) == [0x41, 0x42, 0x43]
  {
    Symbols3();
    assert [0x41, 0x41, 0x41, 0x41][..3] == [0x41, 0x41, 0x41];
    assert CollapseRuns([0x41, 0x41, 0x41, 0x41]) == [0x41];
    assert [0x41, 0x41, 0x41, 0x41, 0x42][..4] == [0x41, 0x41, 0x41, 0x41];
    assert CollapseRuns([0x41, 0x41, 0x41, 0x41, 0x42]) == [0x41, 0x42];
    assert [0x41, 0x41, 0x41, 0x41, 0x42, 0x43][..5] == [0x41, 0x41, 0x41, 0x41, 0x42];
  }

  /** The symbol list of the first 9 bytes of the sample. */
  lemma Symbols9()
    ensures CollapseRuns([0x41, 0x41, 0x41, 0x41, 0x42, 0x43, 0x43, 0x43, 0x44]) == [0x41, 0x42, 0x43, 0x44]
  {
    Symbols6();
    assert [0x41, 0x41, 0x41, 0x41, 0x42, 0x43, 0x43][..6] == [0x41, 0x41, 0x41, 0x41, 0x42, 0x43];
    assert CollapseRuns([0x41, 0x41, 0x41, 0x41, 0x42, 0x43, 0x43]) == [0x41, 0x42, 0x43];
    assert [0x41, 0x41, 0x41, 0x41, 0x42, 0x43, 0x43, 0x43][..7] == [0x41, 0x41, 0x41, 0x41, 0x42, 0x43, 0x43];
    assert CollapseRuns([0x41, 0x41, 0x41, 0x41, 0x42, 0x43, 0x43, 0x43]) == [0x41, 0x42, 0x43];
    assert [0x41, 0x41, 0x41, 0x41, 0x42, 0x43, 0x43, 0x43, 0x44][..8] == [0x41, 0x41, 0x41, 0x41, 0x42, 0x43, 0x43, 0x43];
  }

  /** The symbol list of the first 11 bytes of the sample. */
  lemma Symbols11()
    ensures CollapseRuns([0x41, 0x41, 0x41, 0x41, 0x42, 0x43, 0x43, 0x43, 0x44, 0x44, 0x45]) == [0x41, 0x42, 0x43, 0x44, 0x45]
  {
    Symbols9();
    assert [0x41, 0x41, 0x41, 0x41, 0x42, 0x43, 0x43, 0x43, 0x44, 0x44][..9] == [0x41, 0x41, 0x41, 0x41, 0x42, 0x43, 0x43, 0x43, 0x44];
    assert CollapseRuns([0x41, 0x41, 0x41, 0x41, 0x42, 0x43, 0x43, 0x43, 0x44, 0x44]) == [0x41, 0x42, 0x43, 0x44];
    assert [0x41, 0x41, 0x41, 0x41, 0x42, 0x43, 0x43, 0x43, 0x44, 0x44, 0x45][..10] == [0x41, 0x41, 0x41, 0x41, 0x42, 0x43, 0x43, 0x43, 0x44, 0x44];
  }

  /** The symbol list of the sample. */
  lemma SampleSymbols()
    ensures CollapseRuns(Input) == [0x41, 0x42, 0x43, 0x44, 0x45]
  {
    Symbols11();
    assert Input == [0x41, 0x41, 0x41, 0x41, 0x42, 0x43, 0x43, 0x43, 0x44, 0x44, 0x45];
  }

  /** Where each symbol of the sample is first listed. */
  lemma SampleIndex()
    ensures FirstIndex([0x41, 0x42, 0x43, 0x44, 0x45], 0x41) == 0
    ensures FirstIndex([0x41, 0x42, 0x43, 0x44, 0x45], 0x42) == 1
    ensures FirstIndex([0x41, 0x42, 0x43, 0x44, 0x45], 0x43) == 2
    ensures FirstIndex([0x41, 0x42, 0x43, 0x44, 0x45], 0x44) == 3
    ensures FirstIndex([0x41, 0x42, 0x43, 0x44, 0x45], 0x45) == 4
  {
    assert [0x41, 0x42, 0x43, 0x44, 0x45][1..] == [0x42, 0x43, 0x44, 0x45];
    assert [0x42, 0x43, 0x44, 0x45][1..] == [0x43, 0x44, 0x45];
    assert [0x43, 0x44, 0x45][1..] == [0x44, 0x45];
    assert [0x44, 0x45][1..] == [0x45];
  }

  /** The counts after the first 3 bytes of the sample. */
  lemma Counts3()
    ensures Credits([0x41, 0x41, 0x41], [0x41, 0x42, 0x43, 0x44, 0x45]) == [3, 0, 0, 0, 0]
  {
    SampleIndex();
    assert [0x41][..0] == [];
    assert Credits([0x41], [0x41, 0x42, 0x43, 0x44, 0x45]) == [1, 0, 0, 0, 0];
    assert [0x41, 0x41][..1] == [0x41];
    assert Credits([0x41, 0x41], [0x41, 0x42, 0x43, 0x44, 0x45]) == [2, 0, 0, 0, 0];
    assert [0x41, 0x41, 0x41][..2] == [0x41, 0x41];
  }

  /** The counts after the first 6 bytes of the sample. */
  lemma Counts6()
    ensures Credits([0x41, 0x41, 0x41, 0x41, 0x42, 0x43], [0x41, 0x42, 0x43, 0x44, 0x45]) == [4, 1, 1, 0, 0]
  {
    SampleIndex();
    Counts3();
    assert [0x41, 0x41, 0x41, 0x41][..3] == [0x41, 0x41, 0x41];
    assert Credits([0x41, 0x41, 0x41, 0x41], [0x41, 0x42, 0x43, 0x44, 0x45]) == [4, 0, 0, 0, 0];
    assert [0x41, 0x41, 0x41, 0x41, 0x42][..4] == [0x41, 0x41, 0x41, 0x41];
    assert Credits([0x41, 0x41, 0x41, 0x41, 0x42], [0x41, 0x42, 0x43, 0x44, 0x45]) == [4, 1, 0, 0, 0];
    assert [0x41, 0x41, 0x41, 0x41, 0x42, 0x43][..5] == [0x41, 0x41, 0x41, 0x41, 0x42];
  }

  /** The counts after the first 9 bytes of the sample. */
  lemma Counts9()
    ensures Credits([0x41, 0x41, 0x41, 0x41, 0x42, 0x43, 0x43, 0x43, 0x44], [0x41, 0x42, 0x43, 0x44, 0x45]) == [4, 1, 3, 1, 0]
  {
    SampleIndex();
    Counts6();
    assert [0x41, 0x41, 0x41, 0x41, 0x42, 0x43, 0x43][..6] == [0x41, 0x41, 0x41, 0x41, 0x42, 0x43];
    assert Credits([0x41, 0x41, 0x41, 0x41, 0x42, 0x43, 0x43], [0x41, 0x42, 0x43, 0x44, 0x45]) == [4, 1, 2, 0, 0];
    assert [0x41, 0x41, 0x41, 0x41, 0x42, 0x43, 0x43, 0x43][..7] == [0x41, 0x41, 0x41, 0x41, 0x42, 0x43, 0x43];
    assert Credits([0x41, 0x41, 0x41, 0x41, 0x42, 0x43, 0x43, 0x43], [0x41, 0x42, 0x43, 0x44, 0x45]) == [4, 1, 3, 0, 0];
    assert [0x41, 0x41, 0x41, 0x41, 0x42, 0x43, 0x43, 0x43, 0x44][..8] == [0x41, 0x41, 0x41, 0x41, 0x42, 0x43, 0x43, 0x43];
  }

  /** The counts after the first 11 bytes of the sample. */
  lemma Counts11()
    ensures Credits([0x41, 0x41, 0x41, 0x41, 0x42, 0x43, 0x43, 0x43, 0x44, 0x44, 0x45], [0x41, 0x42, 0x43, 0x44, 0x45]) == [4, 1, 3, 2, 1]
  {
    SampleIndex();
    Counts9();
    assert [0x41, 0x41, 0x41, 0x41, 0x42, 0x43, 0x43, 0x43, 0x44, 0x44][..9] == [0x41, 0x41, 0x41, 0x41, 0x42, 0x43, 0x43, 0x43, 0x44];
    assert Credits([0x41, 0x41, 0x41, 0x41, 0x42, 0x43, 0x43, 0x43, 0x44, 0x44], [0x41, 0x42, 0x43, 0x44, 0x45]) == [4, 1, 3, 2, 0];
    assert [0x41, 0x41, 0x41, 0x41, 0x42, 0x43, 0x43, 0x43, 0x44, 0x44, 0x45][..10] == [0x41, 0x41, 0x41, 0x41, 0x42, 0x43, 0x43, 0x43, 0x44, 0x44];
  }

  /** The counts of the sample: each byte is credited to its first entry. */
  lemma SampleCounts()
    ensures Credits(Input, [0x41, 0x42, 0x43, 0x44, 0x45]) == [4, 1, 3, 2, 1]
  {
    Counts11();
    assert Input == [0x41, 0x41, 0x41, 0x41, 0x42, 0x43, 0x43, 0x43, 0x44, 0x44, 0x45];
  }

  /** The list after two leaves. */
  lemma SampleAdded2()
    ensures InsertAll([Leaf(0x41, 4), Leaf(0x42, 1)]) == [Leaf(0x42, 1), Leaf(0x41, 4)]
  {
    var a, b, c, d, e := Leaf(0x41, 4), Leaf(0x42, 1), Leaf(0x43, 3), Leaf(0x44, 2), Leaf(0x45, 1);
    InsertAllSnoc([a], b);
    InsertAllSnoc([], a);
    assert [] + [a] == [a];
    assert [a] + [b] == [a, b];
    InsertInFront([a], b);
  }

  /** The list after three leaves. */
  lemma SampleAdded3()
    ensures InsertAll([Leaf(0x41, 4), Leaf(0x42, 1), Leaf(0x43, 3)]) == [Leaf(0x42, 1), Leaf(0x43, 3), Leaf(0x41, 4)]
  {
    var a, b, c, d, e := Leaf(0x41, 4), Leaf(0x42, 1), Leaf(0x43, 3), Leaf(0x44, 2), Leaf(0x45, 1);
    SampleAdded2();
    InsertAllSnoc([a, b], c);
    assert [a, b] + [c] == [a, b, c];
    assert InsertAll([a, b]) == [b] + [a];
    InsertBehind(b, [a], c);
    InsertInFront([a], c);
    assert [b] + ([c] + [a]) == [b, c, a];
  }

  /** The list after four leaves. */
  lemma SampleAdded4()
    ensures InsertAll([Leaf(0x41, 4), Leaf(0x42, 1), Leaf(0x43, 3), Leaf(0x44, 2)]) == [Leaf(0x42, 1), Leaf(0x44, 2), Leaf(0x43, 3), Leaf(0x41, 4)]
  {
    var a, b, c, d, e := Leaf(0x41, 4), Leaf(0x42, 1), Leaf(0x43, 3), Leaf(0x44, 2), Leaf(0x45, 1);
    SampleAdded3();
    InsertAllSnoc([a, b, c], d);
    assert [a, b, c] + [d] == [a, b, c, d];
    assert InsertAll([a, b, c]) == [b] + [c, a];
    InsertBehind(b, [c, a], d);
    InsertInFront([c, a], d);
    assert [b] + ([d] + [c, a]) == [b, d, c, a];
  }

  /** Adding the leaves in symbol-list order. */
  lemma SampleSorted()
    ensures InsertAll([Leaf(0x41, 4), Leaf(0x42, 1), Leaf(0x43, 3), Leaf(0x44, 2), Leaf(0x45, 1)]) == [Leaf(0x45, 1), Leaf(0x42, 1), Leaf(0x44, 2), Leaf(0x43, 3), Leaf(0x41, 4)]
  {
    var a, b, c, d, e := Leaf(0x41, 4), Leaf(0x42, 1), Leaf(0x43, 3), Leaf(0x44, 2), Leaf(0x45, 1);
    SampleAdded4();
    InsertAllSnoc([a, b, c, d], e);
    assert [a, b, c, d] + [e] == [a, b, c, d, e];
    InsertInFront([b, d, c, a], e);
  }

  /** The sorted leaf list of the sample: ties go in front. */
  lemma SampleList()
    ensures InitialList(Input) == [Leaf(0x45, 1), Leaf(0x42, 1), Leaf(0x44, 2), Leaf(0x43, 3), Leaf(0x41, 4)]
  {
    SampleSymbols();
    SampleCounts();
    assert LeafNodes([0x41, 0x42, 0x43, 0x44, 0x45], [4, 1, 3, 2, 1]) == [Leaf(0x41, 4), Leaf(0x42, 1), Leaf(0x43, 3), Leaf(0x44, 2), Leaf(0x45, 1)];
    SampleSorted();
  }

  /** First merge: E and B. */
  lemma SampleStep1()
    ensures Step([Leaf(0x45, 1), Leaf(0x42, 1), Leaf(0x44, 2), Leaf(0x43, 3), Leaf(0x41, 4)]) == [Internal(2, Leaf(0x45, 1), Leaf(0x42, 1)), Leaf(0x44, 2), Leaf(0x43, 3), Leaf(0x41, 4)]
  {
    var a, b, c, d, e := Leaf(0x41, 4), Leaf(0x42, 1), Leaf(0x43, 3), Leaf(0x44, 2), Leaf(0x45, 1);
    var n2 := Internal(2, e, b);
    var n4 := Internal(4, n2, d);
    var n7 := Internal(7, c, n4);
    assert [e, b, d, c, a][2..] == [d, c, a];
    InsertInFront([d, c, a], n2);
  }

  /** Second merge: (E B) and D; the new node goes in front of A, whose frequency it equals. */
  lemma SampleStep2()
    ensures Step([Internal(2, Leaf(0x45, 1), Leaf(0x42, 1)), Leaf(0x44, 2), Leaf(0x43, 3), Leaf(0x41, 4)]) == [Leaf(0x43, 3), Internal(4, Internal(2, Leaf(0x45, 1), Leaf(0x42, 1)), Leaf(0x44, 2)), Leaf(0x41, 4)]
  {
    var a, b, c, d, e := Leaf(0x41, 4), Leaf(0x42, 1), Leaf(0x43, 3), Leaf(0x44, 2), Leaf(0x45, 1);
    var n2 := Internal(2, e, b);
    var n4 := Internal(4, n2, d);
    var n7 := Internal(7, c, n4);
    assert [n2, d, c, a][2..] == [c, a];
    InsertBehind(c, [a], n4);
    InsertInFront([a], n4);
  }

  /** Third merge: C and ((E B) D). */
  lemma SampleStep3()
    ensures Step([Leaf(0x43, 3), Internal(4, Internal(2, Leaf(0x45, 1), Leaf(0x42, 1)), Leaf(0x44, 2)), Leaf(0x41, 4)]) == [Leaf(0x41, 4), Internal(7, Leaf(0x43, 3), Internal(4, Internal(2, Leaf(0x45, 1), Leaf(0x42, 1)), Leaf(0x44, 2)))]
  {
    var a, b, c, d, e := Leaf(0x41, 4), Leaf(0x42, 1), Leaf(0x43, 3), Leaf(0x44, 2), Leaf(0x45, 1);
    var n2 := Internal(2, e, b);
    var n4 := Internal(4, n2, d);
    var n7 := Internal(7, c, n4);
    assert [c, n4, a][2..] == [a];
    InsertBehind(a, [], n7);
  }

  /** The last two merges. */
  lemma BuildTail()
    ensures Build([Leaf(0x43, 3), Internal(4, Internal(2, Leaf(0x45, 1), Leaf(0x42, 1)), Leaf(0x44, 2)), Leaf(0x41, 4)]) == Internal(11, Leaf(0x41, 4), Internal(7, Leaf(0x43, 3), Internal(4, Internal(2, Leaf(0x45, 1), Leaf(0x42, 1)), Leaf(0x44, 2))))
  {
    var a, b, c, d, e := Leaf(0x41, 4), Leaf(0x42, 1), Leaf(0x43, 3), Leaf(0x44, 2), Leaf(0x45, 1);
    var n2 := Internal(2, e, b);
    var n4 := Internal(4, n2, d);
    var n7 := Internal(7, c, n4);
    SampleStep3();
    assert Build([c, n4, a]) == Build([a, n7]);
    assert Step([a, n7]) == [Internal(11, a, n7)];
  }

  /** Building the tree from the sorted leaves. */
  lemma SampleBuild()
    ensures Build([Leaf(0x45, 1), Leaf(0x42, 1), Leaf(0x44, 2), Leaf(0x43, 3), Leaf(0x41, 4)]) == Internal(11, Leaf(0x41, 4), Internal(7, Leaf(0x43, 3), Internal(4, Internal(2, Leaf(0x45, 1), Leaf(0x42, 1)), Leaf(0x44, 2))))
  {
    var a, b, c, d, e := Leaf(0x41, 4), Leaf(0x42, 1), Leaf(0x43, 3), Leaf(0x44, 2), Leaf(0x45, 1);
    var n2 := Internal(2, e, b);
    var n4 := Internal(4, n2, d);
    var n7 := Internal(7, c, n4);
    SampleStep1();
    SampleStep2();
    BuildTail();
    assert Build([e, b, d, c, a]) == Build([n2, d, c, a]);
    assert Build([n2, d, c, a]) == Build([c, n4, a]);
  }

  /** The tree of the sample. */
  lemma SampleTree()
    ensures RootOf(Input) == Internal(11, Leaf(0x41, 4), Internal(7, Leaf(0x43, 3), Internal(4, Internal(2, Leaf(0x45, 1), Leaf(0x42, 1)), Leaf(0x44, 2))))
  {
    SampleList();
    SampleBuild();
  }

  /** The code book of the sample tree. */
  lemma SampleTable()
    ensures DfsTable(Internal(11, Leaf(0x41, 4), Internal(7, Leaf(0x43, 3), Internal(4, Internal(2, Leaf(0x45, 1), Leaf(0x42, 1)), Leaf(0x44, 2)))), 0, 0) == [CodeTable(0x41, 0, 1), CodeTable(0x43, 2, 2), CodeTable(0x45, 12, 4), CodeTable(0x42, 13, 4), CodeTable(0x44, 7, 3)]
  {
  }

  /** The code book of the sample: A = 0, C = 10, E = 1100, B = 1101, D = 111. */
  lemma SampleBook()
    ensures BookOf(Input) == Codes
  {
    SampleTree();
    SampleTable();
    assert Codes == [CodeTable(0x41, 0, 1), CodeTable(0x43, 2, 2), CodeTable(0x45, 12, 4), CodeTable(0x42, 13, 4), CodeTable(0x44, 7, 3)];
  }

  /** Each byte of the sample finds its entry. */
  lemma SampleFind()
    ensures FindSymbol(Codes, 0x41) == Hit(CodeTable(0x41, 0, 1))
    ensures FindSymbol(Codes, 0x43) == Hit(CodeTable(0x43, 2, 2))
    ensures FindSymbol(Codes, 0x45) == Hit(CodeTable(0x45, 12, 4))
    ensures FindSymbol(Codes, 0x42) == Hit(CodeTable(0x42, 13, 4))
    ensures FindSymbol(Codes, 0x44) == Hit(CodeTable(0x44, 7, 3))
  {
    assert Codes == [CodeTable(0x41, 0, 1), CodeTable(0x43, 2, 2), CodeTable(0x45, 12, 4), CodeTable(0x42, 13, 4), CodeTable(0x44, 7, 3)];
    assert [CodeTable(0x41, 0, 1), CodeTable(0x43, 2, 2), CodeTable(0x45, 12, 4), CodeTable(0x42, 13, 4), CodeTable(0x44, 7, 3)][1..] == [CodeTable(0x43, 2, 2), CodeTable(0x45, 12, 4), CodeTable(0x42, 13, 4), CodeTable(0x44, 7, 3)];
    assert [CodeTable(0x43, 2, 2), CodeTable(0x45, 12, 4), CodeTable(0x42, 13, 4), CodeTable(0x44, 7, 3)][1..] == [CodeTable(0x45, 12, 4), CodeTable(0x42, 13, 4), CodeTable(0x44, 7, 3)];
    assert [CodeTable(0x45, 12, 4), CodeTable(0x42, 13, 4), CodeTable(0x44, 7, 3)][1..] == [CodeTable(0x42, 13, 4), CodeTable(0x44, 7, 3)];
    assert [CodeTable(0x42, 13, 4), CodeTable(0x44, 7, 3)][1..] == [CodeTable(0x44, 7, 3)];
  }

  /** The bit strings of the sample codes. */
  lemma SampleCodes()
    ensures CodeBits(CodeTable(0x41, 0, 1)) == [0]
    ensures CodeBits(CodeTable(0x43, 2, 2)) == [1, 0]
    ensures CodeBits(CodeTable(0x45, 12, 4)) == [1, 1, 0, 0]
    ensures CodeBits(CodeTable(0x42, 13, 4)) == [1, 1, 0, 1]
    ensures CodeBits(CodeTable(0x44, 7, 3)) == [1, 1, 1]
  {
  }

  /** Sending A appends its code. */
  lemma SendA(p: seq<uint8>)
    ensures StreamBits(Codes, p + [0x41]) == StreamBits(Codes, p) + [0]
  {
    SampleFind();
    SampleCodes();
    StreamBitsSnoc(Codes, p, 0x41);
  }

  /** Sending B appends its code. */
  lemma SendB(p: seq<uint8>)
    ensures StreamBits(Codes, p + [0x42]) == StreamBits(Codes, p) + [1, 1, 0, 1]
  {
    SampleFind();
    SampleCodes();
    StreamBitsSnoc(Codes, p, 0x42);
  }

  /** Sending C appends its code. */
  lemma SendC(p: seq<uint8>)
    ensures StreamBits(Codes, p + [0x43]) == StreamBits(Codes, p) + [1, 0]
  {
    SampleFind();
    SampleCodes();
    StreamBitsSnoc(Codes, p, 0x43);
  }

  /** Sending D appends its code. */
  lemma SendD(p: seq<uint8>)
    ensures StreamBits(Codes, p + [0x44]) == StreamBits(Codes, p) + [1, 1, 1]
  {
    SampleFind();
    SampleCodes();
    StreamBitsSnoc(Codes, p, 0x44);
  }

  /** Sending E appends its code. */
  lemma SendE(p: seq<uint8>)
    ensures StreamBits(Codes, p + [0x45]) == StreamBits(Codes, p) + [1, 1, 0, 0]
  {
    SampleFind();
    SampleCodes();
    StreamBitsSnoc(Codes, p, 0x45);
  }

  /** The bits sent for the first 1 bytes of the sample. */
  lemma Stream1()
    ensures StreamBits(Codes, [0x41]) == [0]
  {
    SendA([]);
    assert [] + [0x41] == [0x41];
  }

  /** The bits sent for the first 2 bytes of the sample. */
  lemma Stream2()
    ensures StreamBits(Codes, [0x41, 0x41]) == [0, 0]
  {
    Stream1();
    SendA([0x41]);
    assert [0x41] + [0x41] == [0x41, 0x41];
  }

  /** The bits sent for the first 3 bytes of the sample. */
  lemma Stream3()
    ensures StreamBits(Codes, [0x41, 0x41, 0x41]) == [0, 0, 0]
  {
    Stream2();
    SendA([0x41, 0x41]);
    assert [0x41, 0x41] + [0x41] == [0x41, 0x41, 0x41];
  }

  /** The bits sent for the first 4 bytes of the sample. */
  lemma Stream4()
    ensures StreamBits(Codes, [0x41, 0x41, 0x41, 0x41]) == [0, 0, 0, 0]
  {
    Stream3();
    SendA([0x41, 0x41, 0x41]);
    assert [0x41, 0x41, 0x41] + [0x41] == [0x41, 0x41, 0x41, 0x41];
  }

  /** The bits sent for the first 5 bytes of the sample. */
  lemma Stream5()
    ensures StreamBits(Codes, [0x41, 0x41, 0x41, 0x41, 0x42]) == [0, 0, 0, 0, 1, 1, 0, 1]
  {
    Stream4();
    SendB([0x41, 0x41, 0x41, 0x41]);
    assert [0x41, 0x41, 0x41, 0x41] + [0x42] == [0x41, 0x41, 0x41, 0x41, 0x42];
  }

  /** The bits sent for the first 6 bytes of the sample. */
  lemma Stream6()
    ensures StreamBits(Codes, [0x41, 0x41, 0x41, 0x41, 0x42, 0x43]) == [0, 0, 0, 0, 1, 1, 0, 1, 1, 0]
  {
    Stream5();
    SendC([0x41, 0x41, 0x41, 0x41, 0x42]);
    assert [0x41, 0x41, 0x41, 0x41, 0x42] + [0x43] == [0x41, 0x41, 0x41, 0x41, 0x42, 0x43];
  }

  /** The bits sent for the first 7 bytes of the sample. */
  lemma Stream7()
    ensures StreamBits(Codes, [0x41, 0x41, 0x41, 0x41, 0x42, 0x43, 0x43]) == [0, 0, 0, 0, 1, 1, 0, 1, 1, 0, 1, 0]
  {
    Stream6();
    SendC([0x41, 0x41, 0x41, 0x41, 0x42, 0x43]);
    assert [0x41, 0x41, 0x41, 0x41, 0x42, 0x43] + [0x43] == [0x41, 0x41, 0x41, 0x41, 0x42, 0x43, 0x43];
  }

  /** The bits sent for the first 8 bytes of the sample. */
  lemma Stream8()
    ensures StreamBits(Codes, [0x41, 0x41, 0x41, 0x41, 0x42, 0x43, 0x43, 0x43]) == [0, 0, 0, 0, 1, 1, 0, 1, 1, 0, 1, 0, 1, 0]
  {
    Stream7();
    SendC([0x41, 0x41, 0x41, 0x41, 0x42, 0x43, 0x43]);
    assert [0x41, 0x41, 0x41, 0x41, 0x42, 0x43, 0x43] + [0x43] == [0x41, 0x41, 0x41, 0x41, 0x42, 0x43, 0x43, 0x43];
  }

  /** The bits sent for the first 9 bytes of the sample. */
  lemma Stream9()
    ensures StreamBits(Codes, [0x41, 0x41, 0x41, 0x41, 0x42, 0x43, 0x43, 0x43, 0x44]) == [0, 0, 0, 0, 1, 1, 0, 1, 1, 0, 1, 0, 1, 0, 1, 1, 1]
  {
    Stream8();
    SendD([0x41, 0x41, 0x41, 0x41, 0x42, 0x43, 0x43, 0x43]);
    assert [0x41, 0x41, 0x41, 0x41, 0x42, 0x43, 0x43, 0x43] + [0x44] == [0x41, 0x41, 0x41, 0x41, 0x42, 0x43, 0x43, 0x43, 0x44];
  }

  /** The bits sent for the first 10 bytes of the sample. */
  lemma Stream10()
    ensures StreamBits(Codes, [0x41, 0x41, 0x41, 0x41, 0x42, 0x43, 0x43, 0x43, 0x44, 0x44]) == [0, 0, 0, 0, 1, 1, 0, 1, 1, 0, 1, 0, 1, 0, 1, 1, 1, 1, 1, 1]
  {
    Stream9();
    SendD([0x41, 0x41, 0x41, 0x41, 0x42, 0x43, 0x43, 0x43, 0x44]);
    assert [0x41, 0x41, 0x41, 0x41, 0x42, 0x43, 0x43, 0x43, 0x44] + [0x44] == [0x41, 0x41, 0x41, 0x41, 0x42, 0x43, 0x43, 0x43, 0x44, 0x44];
  }

  /** The bits sent for the first 11 bytes of the sample. */
  lemma Stream11()
    ensures StreamBits(Codes, [0x41, 0x41, 0x41, 0x41, 0x42, 0x43, 0x43, 0x43, 0x44, 0x44, 0x45]) == [0, 0, 0, 0, 1, 1, 0, 1, 1, 0, 1, 0, 1, 0, 1, 1, 1, 1, 1, 1, 1, 1, 0, 0]
  {
    Stream10();
    SendE([0x41, 0x41, 0x41, 0x41, 0x42, 0x43, 0x43, 0x43, 0x44, 0x44]);
    assert [0x41, 0x41, 0x41, 0x41, 0x42, 0x43, 0x43, 0x43, 0x44, 0x44] + [0x45] == [0x41, 0x41, 0x41, 0x41, 0x42, 0x43, 0x43, 0x43, 0x44, 0x44, 0x45];
  }

  /** The bits `compress` sends for the sample: 24 of them. */
  lemma SampleBits()
    ensures StreamBits(Codes, Input) == Stream
  {
    Stream11();
    assert Input == [0x41, 0x41, 0x41, 0x41, 0x42, 0x43, 0x43, 0x43, 0x44, 0x44, 0x45];
    assert Stream == [0, 0, 0, 0, 1, 1, 0, 1, 1, 0, 1, 0, 1, 0, 1, 1, 1, 1, 1, 1, 1, 1, 0, 0];
  }

  /** The byte 0x0D, most significant bit first. */
  lemma Byte0D()
    ensures Value([0, 0, 0, 0, 1, 1, 0, 1]) == 0x0D
  {
    Pow2Values();
    ValueOfBits(0x0D, 8);
    assert Bits(0x0D, 8) == [0, 0, 0, 0, 1, 1, 0, 1];
  }

  /** The byte 0xAB, most significant bit first. */
  lemma ByteAB()
    ensures Value([1, 0, 1, 0, 1, 0, 1, 1]) == 0xAB
  {
    Pow2Values();
    ValueOfBits(0xAB, 8);
    assert Bits(0xAB, 8) == [1, 0, 1, 0, 1, 0, 1, 1];
  }

  /** The byte 0xFC, most significant bit first. */
  lemma ByteFC()
    ensures Value([1, 1, 1, 1, 1, 1, 0, 0]) == 0xFC
  {
    Pow2Values();
    ValueOfBits(0xFC, 8);
    assert Bits(0xFC, 8) == [1, 1, 1, 1, 1, 1, 0, 0];
  }

  /** The bits from bit 16 on, packed. */
  lemma Packed2()
    ensures FullBytes([1, 1, 1, 1, 1, 1, 0, 0]) == [0xFC]
  {
    ByteFC();
    assert [1, 1, 1, 1, 1, 1, 0, 0][..8] == [1, 1, 1, 1, 1, 1, 0, 0];
    assert [1, 1, 1, 1, 1, 1, 0, 0][8..] == [];
  }

  /** The bits from bit 8 on, packed. */
  lemma Packed1()
    ensures FullBytes([1, 0, 1, 0, 1, 0, 1, 1, 1, 1, 1, 1, 1, 1, 0, 0]) == [0xAB, 0xFC]
  {
    ByteAB();
    Packed2();
    assert [1, 0, 1, 0, 1, 0, 1, 1, 1, 1, 1, 1, 1, 1, 0, 0][..8] == [1, 0, 1, 0, 1, 0, 1, 1];
    assert [1, 0, 1, 0, 1, 0, 1, 1, 1, 1, 1, 1, 1, 1, 0, 0][8..] == [1, 1, 1, 1, 1, 1, 0, 0];
  }

  /** The bits from bit 0 on, packed. */
  lemma Packed0()
    ensures FullBytes([0, 0, 0, 0, 1, 1, 0, 1, 1, 0, 1, 0, 1, 0, 1, 1, 1, 1, 1, 1, 1, 1, 0, 0]) == [0x0D, 0xAB, 0xFC]
  {
    Byte0D();
    Packed1();
    assert [0, 0, 0, 0, 1, 1, 0, 1, 1, 0, 1, 0, 1, 0, 1, 1, 1, 1, 1, 1, 1, 1, 0, 0][..8] == [0, 0, 0, 0, 1, 1, 0, 1];
    assert [0, 0, 0, 0, 1, 1, 0, 1, 1, 0, 1, 0, 1, 0, 1, 1, 1, 1, 1, 1, 1, 1, 0, 0][8..] == [1, 0, 1, 0, 1, 0, 1, 1, 1, 1, 1, 1, 1, 1, 0, 0];
  }

  /** The bits packed into whole bytes, most significant bit first. */
  lemma SampleBytes()
    ensures FullBytes(Stream) == [0x0D, 0xAB, 0xFC]
  {
    Packed0();
    assert Stream == [0, 0, 0, 0, 1, 1, 0, 1, 1, 0, 1, 0, 1, 0, 1, 1, 1, 1, 1, 1, 1, 1, 0, 0];
  }

  /** No code of the sample is longer than 32 bits. */
  lemma SampleShort()
    ensures !Overlong(Codes)
  {
    forall e | e in Codes
      ensures e.numBits <= 32
    {
    }
  }

  /** `encode` lists all five entries and writes the container. */
  lemma SampleWritten()
    ensures EncodeSpec(Input) == Written(Container.Container(Codes, Input))
  {
    SampleBook();
    SampleSymbols();
    SampleShort();
    assert PrintLoop(|BookOf(Input)|, |CollapseRuns(Input)|) == Printed;
  }

  /** The stream of the sample fills whole bytes, none of them a separator. */
  lemma SampleStream()
    ensures |StreamBits(Codes, Input)| % 8 == 0
    ensures GS !in FullBytes(StreamBits(Codes, Input))
  {
    SampleBits();
    SampleBytes();
    assert |Stream| == 24;
  }

  /** The round trip of `encode` and `decode`, for an input whose book is
      known. */
  lemma RoundTripVia(buf: seq<uint8>, table: seq<CodeTable>)
    requires EncodeSpec(buf).Written? && BookOf(buf) == table
    requires 4 < |buf| <= 16 && buf[0] != buf[4]
    requires |StreamBits(table, buf)| % 8 == 0 && GS !in FullBytes(StreamBits(table, buf))
    ensures DecodeSpec(EncodeSpec(buf).file) == Decoded(buf)
  {
    Pow2Monotone(4, 64);
    EncodeDecode(buf, 0, 4);
  }

  /** The sample has eleven bytes; its first and fifth differ. */
  lemma InputShape()
    ensures |Input| == 11 && Input[0] == 0x41 && Input[4] == 0x42
  {
  }

  /** Decoding the file `encode` writes for the sample gives the sample back. */
  lemma SampleRoundTrip()
    ensures EncodeSpec(Input).Written? && DecodeSpec(EncodeSpec(Input).file) == Decoded(Input)
  {
    SampleWritten();
    SampleBook();
    SampleStream();
    InputShape();
    RoundTripVia(Input, Codes);
  }

  /** An entry storing symbol 'A', a length of 33 bits and the code bytes
      01 00 00 00 01. */
  const LongEntry: seq<uint8> := [0x41, 0x21, 0x01, 0x00, 0x00, 0x00, 0x01]

  /** `read_codebook` reads that entry as 'A' with the one-bit code 1: the
      fifth code byte replaces the stored length. */
  lemma SampleOverwrite()
    ensures ParseEntry(LongEntry, Cursor(0, false)).0 == CodeTable(0x41, 1, 1)
    ensures !EntryOverruns(LongEntry, Cursor(0, false))
  {
    assert CodeBytes(0x21) == 5;
    LengthOverwritten(LongEntry, 0, false);
    assert LongEntry[2..7] == [0x01, 0x00, 0x00, 0x00, 0x01];
    assert CodeField([0x01, 0x00, 0x00, 0x00, 0x01]) == 1 by {
      assert [0x01, 0x00, 0x00, 0x00, 0x01][..4] == [0x01, 0x00, 0x00, 0x00];
    }
  }

  /** A stored count of 2^61 + 1 entries leaves `read_codebook` a table
      with room for one: the second entry pointer is stored past it. */
  lemma SampleWrappedTable()
    ensures TableSlots(WrapCount + 1) == 1
  {
    TableSlotsWrap(WrapCount + 1);
  }
}
