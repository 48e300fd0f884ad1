/**
 * The code book: the table of (symbol, code, length) entries that `dfs`
 * collects from the Huffman tree, and the linear searches the encoder and
 * the decoder run over it.
 */
module CodeBook {
  import opened Binary
  import opened SortedList
  import opened TreeBuilder

  /** huffman.h `CodeTable`: `code` holds the low `numBits` bits of the
      code, most significant first. */
  datatype CodeTable = CodeTable(symbol: uint8, code: uint32, numBits: uint8)

  /** `code <<= 1` on a `uint32_t`: the top bit is dropped. */
  function Shl1(code: uint32): (r: uint32)
    ensures r == (2 * code) % TWO_32
    ensures r % 2 == 0
  {
    if code < 0x8000_0000 then 2 * code else 2 * code - TWO_32
  }

  /** `len++` on a `uint8_t`. */
  function Inc8(len: uint8): (r: uint8)
    ensures r == (len + 1) % 256
  {
    if len == 255 then 0 else len + 1
  }

  /** The entries `dfs(book, node, code, len)` appends, in the order it
      appends them: left subtree (code shifted, bit 0) before right subtree
      (bit 1). */
  function DfsTable(node: Node, code: uint32, len: uint8): (r: seq<CodeTable>)
    ensures |r| == LeafCount(node)
  {
    match node
    case Leaf(s, _) => [CodeTable(s, code, len)]
    case Internal(_, l, rt) =>
      var c := Shl1(code);
      DfsTable(l, c, Inc8(len)) + DfsTable(rt, c + 1, Inc8(len))
  }

  /** Length of the longest root-to-leaf path. */
  function Height(node: Node): nat {
    match node
    case Leaf(_, _) => 0
    case Internal(_, l, r) => 1 + (if Height(l) < Height(r) then Height(r) else Height(l))
  }

  /** A leaf's symbol and the branch bits leading to it (0 for
      `children[0]`, 1 for `children[1]`), after `prefix`. */
  datatype Path = Path(symbol: uint8, bits: seq<bit>)

  /** The root-to-leaf paths of a tree, left to right. */
  function Paths(node: Node, prefix: seq<bit>): (r: seq<Path>)
    ensures |r| == LeafCount(node)
  {
    match node
    case Leaf(s, _) => [Path(s, prefix)]
    case Internal(_, l, rt) => Paths(l, prefix + [0]) + Paths(rt, prefix + [1])
  }

  predicate IsPrefix(a: seq<bit>, b: seq<bit>) {
    |a| <= |b| && b[..|a|] == a
  }

  /** Every path starts with `prefix` and is at most `Height` longer. */
  lemma {:induction false} PathsShape(node: Node, prefix: seq<bit>)
    ensures forall p :: p in Paths(node, prefix) ==>
      IsPrefix(prefix, p.bits) && |p.bits| <= |prefix| + Height(node)
  {
    match node
    case Leaf(_, _) =>
    case Internal(_, l, r) =>
      PathsShape(l, prefix + [0]);
      PathsShape(r, prefix + [1]);
      forall p | p in Paths(node, prefix)
        ensures IsPrefix(prefix, p.bits) && |p.bits| <= |prefix| + Height(node)
      {
        var b: bit := if p in Paths(l, prefix + [0]) then 0 else 1;
        assert (prefix + [b])[..|prefix|] == prefix;
        assert p.bits[..|prefix|] == p.bits[..|prefix| + 1][..|prefix|];
      }
  }

  /** No path is a prefix of another. */
  ghost predicate PathsPrefixFree(ps: seq<Path>) {
    forall i, j :: 0 <= i < |ps| && 0 <= j < |ps| && i != j ==> !IsPrefix(ps[i].bits, ps[j].bits)
  }

  /** No path of a tree is a prefix of another: the code is prefix free. */
  lemma {:induction false} TreePrefixFree(node: Node, prefix: seq<bit>)
    ensures PathsPrefixFree(Paths(node, prefix))
  {
    match node
    case Leaf(_, _) =>
    case Internal(_, l, r) =>
      var left, right := Paths(l, prefix + [0]), Paths(r, prefix + [1]);
      var ps := left + right;
      TreePrefixFree(l, prefix + [0]);
      TreePrefixFree(r, prefix + [1]);
      PathsShape(l, prefix + [0]);
      PathsShape(r, prefix + [1]);
      forall i, j | 0 <= i < |ps| && 0 <= j < |ps| && i != j
        ensures !IsPrefix(ps[i].bits, ps[j].bits)
      {
        if i < |left| && j < |left| {
          assert ps[i] == left[i] && ps[j] == left[j];
        } else if i >= |left| && j >= |left| {
          assert ps[i] == right[i - |left|] && ps[j] == right[j - |left|];
        } else {
          BranchBit(ps[i].bits, prefix, if i < |left| then 0 else 1, left, right, i);
          BranchBit(ps[j].bits, prefix, if j < |left| then 0 else 1, left, right, j);
          DifferAt(ps[i].bits, ps[j].bits, |prefix|);
        }
      }
  }

  /** Strings that differ at some position are not prefixes of each other. */
  lemma DifferAt(a: seq<bit>, b: seq<bit>, k: nat)
    requires k < |a| && k < |b| && a[k] != b[k]
    ensures !IsPrefix(a, b)
  {
    if |a| <= |b| {
      assert b[..|a|][k] == b[k];
    }
  }

  /** A path of the left subtree has bit 0 after the prefix, one of the
      right subtree bit 1. */
  lemma BranchBit(bits: seq<bit>, prefix: seq<bit>, b: bit, left: seq<Path>, right: seq<Path>, i: nat)
    requires forall p :: p in left ==> IsPrefix(prefix + [0], p.bits)
    requires forall p :: p in right ==> IsPrefix(prefix + [1], p.bits)
    requires i < |left| + |right| && bits == (left + right)[i].bits
    requires b == if i < |left| then 0 else 1
    ensures |bits| > |prefix| && bits[|prefix|] == b
  {
    var p := (left + right)[i];
    if i < |left| {
      assert p in left;
    } else {
      assert p in right;
    }
    assert bits[..|prefix| + 1][|prefix|] == (prefix + [b])[|prefix|];
  }

  /** Entry `i` of a table is for the leaf of path `i`: same symbol, length
      the path length, code the path's value. */
  ghost predicate Agrees(t: seq<CodeTable>, ps: seq<Path>) {
    |t| == |ps| &&
    forall i :: 0 <= i < |t| ==>
      t[i].symbol == ps[i].symbol && t[i].numBits == |ps[i].bits| && t[i].code == Value(ps[i].bits)
  }

  /** `dfs` started with the code and length of `prefix` writes, for every
      leaf, its path as the code: `num_bits` is the path length and `code`
      the path's value, as long as no path is longer than 32 bits (the
      width of `code`). */
  lemma {:induction false} DfsIsPaths(node: Node, prefix: seq<bit>, code: uint32, len: uint8)
    requires |prefix| + Height(node) <= 32
    requires code == Value(prefix) && len == |prefix|
    ensures Agrees(DfsTable(node, code, len), Paths(node, prefix))
  {
    match node
    case Leaf(_, _) =>
    case Internal(_, l, r) =>
      var c, n := Shl1(code), Inc8(len);
      var p0: seq<bit>, p1: seq<bit> := prefix + [0], prefix + [1];
      Pow2Monotone(|prefix| + 1, 32);
      Pow2Values();
      ValueAppend(prefix, 0);
      ValueAppend(prefix, 1);
      DfsIsPaths(l, p0, c, n);
      DfsIsPaths(r, p1, c + 1, n);
      AgreesConcat(DfsTable(l, c, n), DfsTable(r, c + 1, n), Paths(l, p0), Paths(r, p1));
  }

  lemma AgreesConcat(tl: seq<CodeTable>, tr: seq<CodeTable>, pl: seq<Path>, pr: seq<Path>)
    requires Agrees(tl, pl) && Agrees(tr, pr)
    ensures Agrees(tl + tr, pl + pr)
  {
    var t, ps := tl + tr, pl + pr;
    forall i | 0 <= i < |t|
      ensures t[i].symbol == ps[i].symbol && t[i].numBits == |ps[i].bits|
      ensures t[i].code == Value(ps[i].bits)
    {
      if i < |tl| {
        assert t[i] == tl[i] && ps[i] == pl[i];
      } else {
        assert t[i] == tr[i - |tl|] && ps[i] == pr[i - |tl|];
      }
    }
  }

  /** The bit string an entry stands for. */
  function CodeBits(e: CodeTable): seq<bit> {
    Bits(e.code, e.numBits)
  }

  /** No entry's bit string is a prefix of another entry's. */
  ghost predicate PrefixFree(table: seq<CodeTable>) {
    forall i, j :: 0 <= i < |table| && 0 <= j < |table| && i != j ==>
      !IsPrefix(CodeBits(table[i]), CodeBits(table[j]))
  }

  /** Every code fits in its length: `code < 2^num_bits`. */
  ghost predicate Canonical(table: seq<CodeTable>) {
    forall i :: 0 <= i < |table| ==> table[i].code < Pow2(table[i].numBits)
  }

  /** The code book of a tree no deeper than 32 is prefix free, each code
      fits its length, and the lengths are the leaf depths. */
  lemma BookOfTree(root: Node)
    requires Height(root) <= 32
    ensures PrefixFree(DfsTable(root, 0, 0))
    ensures Canonical(DfsTable(root, 0, 0))
    ensures forall e :: e in DfsTable(root, 0, 0) ==> e.numBits <= Height(root)
  {
    var t, ps := DfsTable(root, 0, 0), Paths(root, []);
    DfsIsPaths(root, [], 0, 0);
    TreePrefixFree(root, []);
    PathsShape(root, []);
    forall i | 0 <= i < |t|
      ensures CodeBits(t[i]) == ps[i].bits && t[i].code < Pow2(t[i].numBits)
      ensures t[i].numBits <= Height(root)
    {
      BitsOfValue(ps[i].bits);
      assert ps[i] in ps;
    }
  }

  /** The result of a linear search of the table. `Spins`: the `uint8_t`
      loop index wraps before reaching `num_symbols` (256 or more entries,
      none of the first 256 matching), so the C loop never ends. */
  datatype Lookup = Hit(entry: CodeTable) | Miss | Spins

  /** How the search loop ends when the first match is at index `k`
      (`k == |table|`: no match). */
  function ScanEnd(table: seq<CodeTable>, k: nat): (r: Lookup)
    requires k <= |table|
    ensures r.Hit? <==> k < |table| && k < 256
    ensures r.Hit? ==> r.entry == table[k]
    ensures r.Spins? <==> k >= 256
  {
    if k < |table| && k < 256 then Hit(table[k])
    else if |table| >= 256 then Spins
    else Miss
  }

  function SymbolIndex(table: seq<CodeTable>, symbol: uint8): (k: nat)
    ensures k <= |table|
    ensures forall j :: 0 <= j < k ==> table[j].symbol != symbol
    ensures k < |table| ==> table[k].symbol == symbol
  {
    if table == [] || table[0].symbol == symbol then 0 else 1 + SymbolIndex(table[1..], symbol)
  }

  function CodeIndex(table: seq<CodeTable>, code: uint32, len: uint8): (k: nat)
    ensures k <= |table|
    ensures forall j :: 0 <= j < k ==> table[j].code != code || table[j].numBits != len
    ensures k < |table| ==> table[k].code == code && table[k].numBits == len
  {
    if table == [] || (table[0].code == code && table[0].numBits == len) then 0
    else 1 + CodeIndex(table[1..], code, len)
  }

  /** What `search_symbol` finds. */
  function FindSymbol(table: seq<CodeTable>, symbol: uint8): Lookup {
    ScanEnd(table, SymbolIndex(table, symbol))
  }

  /** What `search_code` finds. */
  function FindCode(table: seq<CodeTable>, code: uint32, len: uint8): Lookup {
    ScanEnd(table, CodeIndex(table, code, len))
  }

  /** `search_symbol` returns the first entry for the symbol; it returns
      NULL exactly when the table is shorter than 256 entries and none is
      for the symbol. */
  lemma FindSymbolMeaning(table: seq<CodeTable>, symbol: uint8)
    ensures var r := FindSymbol(table, symbol);
      && (r.Hit? ==>
            (r.entry.symbol == symbol
             && exists k :: 0 <= k < |table| && k < 256 && table[k] == r.entry
                  && forall j :: 0 <= j < k ==> table[j].symbol != symbol))
      && (r.Miss? <==> |table| < 256 && forall e :: e in table ==> e.symbol != symbol)
      && (r.Spins? <==> |table| >= 256 && forall j :: 0 <= j < 256 ==> table[j].symbol != symbol)
  {
    var k := SymbolIndex(table, symbol);
    if k < |table| {
      assert table[k] in table;
    }
  }

  /** In a prefix-free table at most one entry has a given code and length,
      so `search_code` finds the entry whose bits were read, if it is among
      the first 256. */
  lemma FindCodeOfEntry(table: seq<CodeTable>, i: nat)
    requires PrefixFree(table) && i < |table| && i < 256
    ensures FindCode(table, table[i].code, table[i].numBits) == Hit(table[i])
  {
    var k := CodeIndex(table, table[i].code, table[i].numBits);
    if k != i {
      assert false;
    }
  }

  /** huffman.h `CodeBook`: `table` holds the `num_symbols` entries written
      so far; `capacity` is the number of slots `tree2book` allocated. */
  class Book {
    var table: seq<CodeTable>
    const capacity: nat

    constructor (capacity: nat)
      ensures table == [] && this.capacity == capacity
    {
      table := [];
      this.capacity := capacity;
    }

    /** `dfs` (huffman.c): a leaf gets the next slot with the code and
        length it was reached with; an internal node passes the shifted code
        and the incremented length to its children, `code + 1` to the
        right one. The slots needed fit in the allocation. */
    method Dfs(node: Node, code: uint32, len: uint8)
      requires |table| + LeafCount(node) <= capacity
      modifies this
      ensures table == old(table) + DfsTable(node, code, len)
      decreases node
    {
      match node
      case Leaf(s, _) =>
        table := table + [CodeTable(s, code, len)];
      case Internal(_, l, r) =>
        var len' := Inc8(len);
        var code' := Shl1(code);
        Dfs(l, code', len');
        Dfs(r, code' + 1, len');
    }

    /** `search_symbol` (huffman.c). */
    method SearchSymbol(symbol: uint8) returns (r: Lookup)
      ensures r == FindSymbol(table, symbol)
    {
      var i := 0;
      while i < 256 && i < |table| && table[i].symbol != symbol
        invariant i <= 256 && i <= |table|
        invariant forall j :: 0 <= j < i ==> table[j].symbol != symbol
      {
        i := i + 1;
      }
      r := if i < 256 && i < |table| then Hit(table[i]) else if i == 256 then Spins else Miss;
    }

    /** `search_code` (huffman.c): the entry with exactly this code and
        length. */
    method SearchCode(code: uint32, len: uint8) returns (r: Lookup)
      ensures r == FindCode(table, code, len)
    {
      var i := 0;
      while i < 256 && i < |table| && !(table[i].code == code && table[i].numBits == len)
        invariant i <= 256 && i <= |table|
        invariant forall j :: 0 <= j < i ==> table[j].code != code || table[j].numBits != len
      {
        i := i + 1;
      }
      r := if i < 256 && i < |table| then Hit(table[i]) else if i == 256 then Spins else Miss;
    }
  }

  /** `tree2book` (huffman.c): a table with one slot per symbol-list entry,
      filled by `dfs` from the root with code 0 and length 0. */
  method Tree2Book(tree: Tree) returns (book: Book)
    requires |tree.live| >= 1 && LeafCount(tree.live[0]) <= tree.numSymbols
    ensures fresh(book)
    ensures book.table == DfsTable(tree.live[0], 0, 0)
    ensures book.capacity == tree.numSymbols
  {
    book := new Book(tree.numSymbols);
    book.Dfs(tree.live[0], 0, 0);
  }

  lemma BitsFromLow(num: nat, len: nat)
    ensures forall i :: 0 <= i < len ==> Bits(num, len)[len - 1 - i] == num / Pow2(i) % 2
  {
    forall i | 0 <= i < len
      ensures Bits(num, len)[len - 1 - i] == num / Pow2(i) % 2
    {
      BitAt(num, len, len - 1 - i);
    }
  }

  /** `bitstr` (huffman.c): character `len - 1 - i` is '1' exactly when bit
      `i` of `num` is set. */
  function BitStr(num: uint32, len: uint8): (r: string)
    ensures |r| == len
    ensures forall i :: 0 <= i < len ==> (r[len - 1 - i] == '1' <==> num / Pow2(i) % 2 == 1)
    ensures forall i :: 0 <= i < len ==> r[i] == '0' || r[i] == '1'
  {
    var bs := Bits(num, len);
    BitsFromLow(num, len);
    seq(len, j requires 0 <= j < len => if bs[j] == 1 then '1' else '0')
  }
}
