/**
 * `encode` (main.c): the symbol list and leaf list of the input, the tree,
 * the code book, the listing of the code book and the compressed file.
 */
module Encoder {
  import opened Binary
  import opened SortedList
  import opened Symbols
  import opened TreeBuilder
  import opened CodeBook
  import opened BitWriter
  import opened Container
  import opened Decoder

  /** How the `print_table` loop of `encode` ends: every slot printed, a
      slot `dfs` never filled (a NULL `CodeTable *` that `print_table`
      dereferences), or the `uint8_t` index wrapping before it reaches
      `num_symbols` (the loop never ends). */
  datatype PrintEnd = Printed | NullSlot | Wraps

  /** The end of the listing loop over `slots` slots of which the first
      `filled` hold an entry. */
  function PrintLoop(filled: nat, slots: nat): (r: PrintEnd)
    ensures r == Printed <==> slots <= filled && slots < 256
    ensures r == NullSlot <==> filled < slots && filled < 256
  {
    if filled < slots && filled < 256 then NullSlot
    else if slots >= 256 then Wraps
    else Printed
  }

  /** The listing loop of `encode` over the `numSymbols` slots of `book`,
      with the printing itself left out. */
  method PrintTables(book: Book, numSymbols: nat) returns (r: PrintEnd)
    ensures r == PrintLoop(|book.table|, numSymbols)
  {
    var i := 0;
    while i < numSymbols && i < 256
      invariant i <= 256 && i <= |book.table|
      invariant i <= numSymbols || numSymbols < i <= |book.table|
    {
      if i >= |book.table| {
        return NullSlot;
      }
      i := i + 1;
    }
    r := if i == 256 && numSymbols >= 256 then Wraps else Printed;
  }

  /** How `encode` ends. `EmptyInput`: an empty input leaves no node, and
      `build_tree` dereferences the NULL list. `EmptySlot`, `PrintSpins`:
      the listing loop crashes or never ends. `CodeOverrun`: `compress`
      copies more bytes of a code than its four-byte `code` field holds.
      `Written`: the bytes of the output file. */
  datatype EncodeOutcome = Written(file: seq<uint8>) | EmptyInput | EmptySlot | PrintSpins | CodeOverrun

  /** Some code is longer than the 32 bits of its field. */
  predicate Overlong(table: seq<CodeTable>) {
    exists e :: e in table && e.numBits > 32
  }

  /** The root of the tree `encode` builds for a non-empty input. */
  function RootOf(buf: seq<uint8>): Node
    requires buf != []
  {
    TreeLeafCount(buf);
    Build(InitialList(buf))
  }

  /** The code book `encode` builds for a non-empty input. */
  function BookOf(buf: seq<uint8>): seq<CodeTable>
    requires buf != []
  {
    DfsTable(RootOf(buf), 0, 0)
  }

  /** `encode` on the input bytes `buf`. */
  function EncodeSpec(buf: seq<uint8>): EncodeOutcome {
    if buf == [] then EmptyInput
    else
      match PrintLoop(|BookOf(buf)|, |CollapseRuns(buf)|)
      case NullSlot => EmptySlot
      case Wraps => PrintSpins
      case Printed =>
        if Overlong(BookOf(buf)) then CodeOverrun
        else Written(Container.Container(BookOf(buf), buf))
  }

  /** `encode` (main.c), with the printed statistics left out: the tree,
      the code book, its listing, then `compress` into a fresh file. */
  method Encode(buf: seq<uint8>) returns (r: EncodeOutcome)
    ensures r == EncodeSpec(buf)
  {
    if buf == [] {
      return EmptyInput;
    }
    var tree := InitTreeFromBuf(buf);
    TreeLeafCount(buf);
    tree.BuildTree();
    var book := Tree2Book(tree);
    var printed := PrintTables(book, tree.numSymbols);
    if printed == NullSlot {
      return EmptySlot;
    } else if printed == Wraps {
      return PrintSpins;
    }
    if exists e :: e in book.table && e.numBits > 32 {
      return CodeOverrun;
    }
    SearchEnds(book.table, buf);
    var w := new Writer();
    Compress(w, buf, book);
    r := Written(w.out);
    assert w.out == Container.Container(book.table, buf);
    EncodeWrites(buf, book.table);
  }

  lemma EncodeWrites(buf: seq<uint8>, table: seq<CodeTable>)
    requires buf != [] && table == BookOf(buf)
    requires PrintLoop(|table|, |CollapseRuns(buf)|) == Printed && !Overlong(table)
    ensures EncodeSpec(buf) == Written(Container.Container(table, buf))
  {
  }

  /** A table shorter than 256 entries never makes `search_symbol` spin. */
  lemma SearchEnds(table: seq<CodeTable>, buf: seq<uint8>)
    requires |table| < 256
    ensures forall i :: 0 <= i < |buf| ==> !FindSymbol(table, buf[i]).Spins?
  {
    forall i | 0 <= i < |buf|
      ensures !FindSymbol(table, buf[i]).Spins?
    {
      FindSymbolMeaning(table, buf[i]);
    }
  }

  /** A tree is shallower than its number of leaves. */
  lemma {:induction false} HeightBelowLeaves(node: Node)
    ensures Height(node) < LeafCount(node)
  {
    match node
    case Leaf(_, _) =>
    case Internal(_, l, r) =>
      HeightBelowLeaves(l);
      HeightBelowLeaves(r);
  }

  /** While the lengths do not wrap, `dfs` gives every leaf its depth below
      the start, at least 1 below an internal node, and some leaf the full
      height. */
  lemma {:induction false} DfsDepths(node: Node, code: uint32, len: uint8)
    requires len + Height(node) < 256
    ensures forall e :: e in DfsTable(node, code, len) ==>
      len + (if node.Internal? then 1 else 0) <= e.numBits <= len + Height(node)
    ensures exists e :: e in DfsTable(node, code, len) && e.numBits == len + Height(node)
  {
    match node
    case Leaf(s, _) =>
      assert CodeTable(s, code, len) in DfsTable(node, code, len);
    case Internal(_, l, r) =>
      var c, n := Shl1(code), Inc8(len);
      DfsDepths(l, c, n);
      DfsDepths(r, c + 1, n);
      if Height(l) < Height(r) {
        var e :| e in DfsTable(r, c + 1, n) && e.numBits == n + Height(r);
        assert e in DfsTable(node, code, len);
      } else {
        var e :| e in DfsTable(l, c, n) && e.numBits == n + Height(l);
        assert e in DfsTable(node, code, len);
      }
  }

  /** Every symbol of positive frequency in a tree has an entry. */
  lemma {:induction false} DfsSymbols(node: Node, code: uint32, len: uint8)
    ensures forall c :: c in PosSymbols(node) ==>
      exists e :: e in DfsTable(node, code, len) && e.symbol == c
  {
    match node
    case Leaf(s, _) =>
      assert CodeTable(s, code, len) in DfsTable(node, code, len);
    case Internal(_, l, r) =>
      var c, n := Shl1(code), Inc8(len);
      DfsSymbols(l, c, n);
      DfsSymbols(r, c + 1, n);
      forall x | x in PosSymbols(node)
        ensures exists e :: e in DfsTable(node, code, len) && e.symbol == x
      {
        if x in PosSymbols(l) {
          var e :| e in DfsTable(l, c, n) && e.symbol == x;
          assert e in DfsTable(node, code, len);
        } else {
          assert x in PosSymbols(r);
          var e :| e in DfsTable(r, c + 1, n) && e.symbol == x;
          assert e in DfsTable(node, code, len);
        }
      }
  }

  /** When `encode` writes a file, its code book has one entry per
      symbol-list entry, fewer than 256, is prefix free, each code fits
      its length of at most 32 bits, and every input byte has an entry. */
  lemma WrittenBook(buf: seq<uint8>)
    requires EncodeSpec(buf).Written?
    ensures buf != []
    ensures |BookOf(buf)| == |CollapseRuns(buf)| < 256
    ensures PrefixFree(BookOf(buf)) && Canonical(BookOf(buf))
    ensures forall e :: e in BookOf(buf) ==> e.numBits <= 32
    ensures forall i :: 0 <= i < |buf| ==> FindSymbol(BookOf(buf), buf[i]).Hit?
  {
    var root, table := RootOf(buf), BookOf(buf);
    TreeLeafCount(buf);
    HeightBelowLeaves(root);
    DfsDepths(root, 0, 0);
    BookOfTree(root);
    TreeOfInput(buf);
    DfsSymbols(root, 0, 0);
    forall i | 0 <= i < |buf|
      ensures FindSymbol(table, buf[i]).Hit?
    {
      assert buf[i] in buf;
      FindSymbolMeaning(table, buf[i]);
    }
  }

  /** When the input has two different bytes, the root is internal and
      every code of the book `encode` writes has at least one bit. */
  lemma WrittenCodesNonEmpty(buf: seq<uint8>, i: nat, j: nat)
    requires EncodeSpec(buf).Written?
    requires i < |buf| && j < |buf| && buf[i] != buf[j]
    ensures forall e :: e in BookOf(buf) ==> 1 <= e.numBits
  {
    var root := RootOf(buf);
    WrittenBook(buf);
    TreeLeafCount(buf);
    HeightBelowLeaves(root);
    TreeOfInput(buf);
    assert buf[i] in buf && buf[j] in buf;
    DfsDepths(root, 0, 0);
  }

  /** Decoding the file `encode` writes gives the input back, when the
      input has two different bytes, the bit stream fills whole bytes and
      none of its bytes is a GROUP_SEPARATOR. */
  lemma EncodeDecode(buf: seq<uint8>, i: nat, j: nat)
    requires EncodeSpec(buf).Written?
    requires i < |buf| && j < |buf| && buf[i] != buf[j]
    requires |buf| < Pow2(64)
    requires |StreamBits(BookOf(buf), buf)| % 8 == 0
    requires GS !in FullBytes(StreamBits(BookOf(buf), buf))
    ensures DecodeSpec(EncodeSpec(buf).file) == Decoded(buf)
  {
    WrittenBook(buf);
    WrittenCodesNonEmpty(buf, i, j);
    ContainerRoundTrip(BookOf(buf), buf);
  }

  /** An input of one repeated byte collapses to a single symbol. */
  lemma OneRun(buf: seq<uint8>)
    requires buf != [] && forall i :: 0 <= i < |buf| ==> buf[i] == buf[0]
    ensures CollapseRuns(buf) == [buf[0]]
  {
    var r := CollapseRuns(buf);
    assert buf[0] in buf;
    assert r[0] in buf;
    if |r| >= 2 {
      assert false;
    }
  }

  /** The book `encode` builds for one repeated byte: a single entry with
      the empty code, zero bits long. */
  lemma OneSymbolBook(buf: seq<uint8>)
    requires buf != [] && forall i :: 0 <= i < |buf| ==> buf[i] == buf[0]
    ensures BookOf(buf) == [CodeTable(buf[0], 0, 0)]
    ensures |CollapseRuns(buf)| == 1
  {
    var list := InitialList(buf);
    OneRun(buf);
    InitialListFacts(buf);
    assert buf[0] in buf;
    assert buf[0] in ListPosSymbols(list);
    assert list[1..] == [];
  }

  /** With an empty code for every byte, the stream has no bits. */
  lemma {:induction false} NoStreamBits(c: uint8, buf: seq<uint8>)
    requires forall i :: 0 <= i < |buf| ==> buf[i] == c
    ensures StreamBits([CodeTable(c, 0, 0)], buf) == []
    decreases |buf|
  {
    if buf != [] {
      NoStreamBits(c, buf[..|buf| - 1]);
    }
  }

  /** For an input of one repeated byte `encode` writes a code book with
      one zero-bit code and an empty stream. */
  lemma OneSymbolFile(buf: seq<uint8>)
    requires buf != [] && forall i :: 0 <= i < |buf| ==> buf[i] == buf[0]
    ensures EncodeSpec(buf) == Written(Header([CodeTable(buf[0], 0, 0)], |buf|) + Trailer([]))
  {
    var table := [CodeTable(buf[0], 0, 0)];
    OneSymbolContainer(buf);
    NoStreamBits(buf[0], buf);
    assert Container.Container(table, buf) == Header(table, |buf|) + Trailer([]);
  }

  /** A file `compress` writes with no stream bits decodes to no bytes at
      all, whatever length its header records. */
  lemma DecodeEmptyStream(table: seq<CodeTable>, buf: seq<uint8>)
    requires StreamBits(table, buf) == []
    requires |table| < WrapCount && |buf| < Pow2(64)
    requires forall e :: e in table ==> e.numBits <= 32 && e.code < Pow2(e.numBits)
    ensures DecodeSpec(Container.Container(table, buf)) == Decoded([])
  {
    var file := Container.Container(table, buf);
    var next := Cursor(|Header(table, |buf|)|, false);
    HeaderOfContainer(table, |buf|, Trailer(StreamBits(table, buf)));
    EmptyStreamBody(table, buf);
    SpecOfHeader(file, table, |buf|, next);
  }

  /** The empty stream is followed by the separator and a full bit count. */
  lemma EmptyStreamBody(table: seq<CodeTable>, buf: seq<uint8>)
    requires StreamBits(table, buf) == []
    ensures DecodeBody(Container.Container(table, buf), table, |buf|, Cursor(|Header(table, |buf|)|, false)) == Decoded([])
  {
    StreamOfContainer(table, buf);
  }

  /** Encoding an input of one repeated byte and decoding the file gives no
      bytes back: the input is lost. */
  lemma OneSymbolLost(buf: seq<uint8>)
    requires buf != [] && forall i :: 0 <= i < |buf| ==> buf[i] == buf[0]
    requires |buf| < Pow2(64)
    ensures EncodeSpec(buf).Written?
    ensures DecodeSpec(EncodeSpec(buf).file) == Decoded([])
  {
    var table := [CodeTable(buf[0], 0, 0)];
    OneSymbolContainer(buf);
    assert EncodeSpec(buf).file == Container.Container(table, buf);
    NoStreamBits(buf[0], buf);
    assert Pow2(0) == 1;
    forall e | e in table
      ensures e.numBits <= 32 && e.code < Pow2(e.numBits)
    {
      assert e == table[0];
    }
    DecodeEmptyStream(table, buf);
  }

  /** For an input of one repeated byte `encode` writes the container of
      the one-entry code book with the zero-bit code. */
  lemma OneSymbolContainer(buf: seq<uint8>)
    requires buf != [] && forall i :: 0 <= i < |buf| ==> buf[i] == buf[0]
    ensures EncodeSpec(buf) == Written(Container.Container([CodeTable(buf[0], 0, 0)], buf))
  {
    var table := [CodeTable(buf[0], 0, 0)];
    OneSymbolBook(buf);
    assert !Overlong(table);
    EncodeWrites(buf, table);
  }
}
