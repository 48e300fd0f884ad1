/**
 * The symbol list and the occurrence counts that `init_tree_from_buf`
 * builds from the input bytes (`init_symbol_list` and the counting loop).
 */
module Symbols {
  import opened Binary

  /** The input with every run of equal adjacent bytes collapsed to one byte:
      what `init_symbol_list` returns. A byte that reappears after a
      different byte appears again. */
  function CollapseRuns(s: seq<uint8>): (r: seq<uint8>)
    ensures |r| <= |s|
    ensures s == [] <==> r == []
    ensures s != [] ==> r[|r| - 1] == s[|s| - 1]
    ensures forall i :: 0 <= i < |r| - 1 ==> r[i] != r[i + 1]
    ensures forall c :: c in s <==> c in r
  {
    if s == [] then []
    else
      var p := CollapseRuns(s[..|s| - 1]);
      var c := s[|s| - 1];
      assert s == s[..|s| - 1] + [c];
      if p == [] || c != p[|p| - 1] then p + [c] else p
  }

  /** One more input byte: appended unless it repeats the last entry. */
  lemma CollapseSnoc(s: seq<uint8>, c: uint8)
    ensures var p := CollapseRuns(s);
      CollapseRuns(s + [c]) == if p == [] || c != p[|p| - 1] then p + [c] else p
  {
    assert (s + [c])[..|s + [c]| - 1] == s;
  }

  /** `init_symbol_list` (huffman.c): a byte is appended to the list unless
      it equals the byte appended last. The C function starts `count` from
      the caller's `tree->num_symbols`, which nothing initialises; the model
      starts it from 0. */
  method InitSymbolList(buf: seq<uint8>) returns (list: seq<uint8>)
    ensures list == CollapseRuns(buf)
  {
    var a := new uint8[|buf|];
    var count := 0;
    for i := 0 to |buf|
      invariant count <= i
      invariant a[..count] == CollapseRuns(buf[..i])
    {
      var c := buf[i];
      ghost var prev := a[..count];
      assert buf[..i + 1] == buf[..i] + [c];
      CollapseSnoc(buf[..i], c);
      if count == 0 || c != a[count - 1] {
        a[count] := c;
        assert a[..count] == prev;
        assert a[..count + 1] == a[..count] + [a[count]];
        count := count + 1;
      } else {
        assert a[..count] == prev;
      }
    }
    assert buf[..|buf|] == buf;
    list := a[..count];
  }

  /** Index of the first entry of `symbols` equal to `c`, or `|symbols|`. */
  function FirstIndex(symbols: seq<uint8>, c: uint8): (k: nat)
    ensures k <= |symbols|
    ensures forall j :: 0 <= j < k ==> symbols[j] != c
    ensures k < |symbols| ==> symbols[k] == c
  {
    if symbols == [] || symbols[0] == c then 0 else 1 + FirstIndex(symbols[1..], c)
  }

  /** The counts after crediting every byte of `buf`, in order, to the first
      entry of `symbols` equal to it (the counting loop of
      `init_tree_from_buf`, over a zeroed `occurs` array). */
  function Credits(buf: seq<uint8>, symbols: seq<uint8>): (occ: seq<nat>)
    ensures |occ| == |symbols|
  {
    if buf == [] then seq(|symbols|, _ => 0)
    else
      var occ := Credits(buf[..|buf| - 1], symbols);
      var k := FirstIndex(symbols, buf[|buf| - 1]);
      if k < |symbols| then occ[k := occ[k] + 1] else occ
  }

  /** The counting loop (huffman.c): for each input byte, the first entry of
      the symbol list equal to it has its count incremented. */
  method CountOccurrences(buf: seq<uint8>, symbols: seq<uint8>) returns (occurs: seq<nat>)
    ensures occurs == Credits(buf, symbols)
  {
    var a := new nat[|symbols|](_ => 0);
    for i := 0 to |buf|
      invariant a[..] == Credits(buf[..i], symbols)
    {
      var c := buf[i];
      var j := 0;
      while j < |symbols| && c != symbols[j]
        invariant j <= |symbols|
        invariant forall k :: 0 <= k < j ==> symbols[k] != c
      {
        j := j + 1;
      }
      assert buf[..i + 1][..i] == buf[..i];
      if j < |symbols| {
        a[j] := a[j] + 1;
      }
    }
    assert buf[..|buf|] == buf;
    occurs := a[..];
  }

  /** Number of occurrences of `c` in `s`. */
  function Occurrences(s: seq<uint8>, c: uint8): nat {
    multiset(s)[c]
  }

  /** The count of entry `j` is the number of occurrences of its symbol when
      `j` is the symbol's first entry, and 0 for every later entry. */
  lemma {:induction false} CreditOf(buf: seq<uint8>, symbols: seq<uint8>, j: nat)
    requires j < |symbols|
    ensures Credits(buf, symbols)[j] ==
      if FirstIndex(symbols, symbols[j]) == j then Occurrences(buf, symbols[j]) else 0
  {
    if buf != [] {
      var init, c := buf[..|buf| - 1], buf[|buf| - 1];
      CreditOf(init, symbols, j);
      assert buf == init + [c];
      assert multiset(buf) == multiset(init) + multiset{c};
    }
  }

  function SumNat(s: seq<nat>): nat {
    if s == [] then 0 else s[0] + SumNat(s[1..])
  }

  lemma {:induction false} SumNatIncrement(s: seq<nat>, k: nat)
    requires k < |s|
    ensures SumNat(s[k := s[k] + 1]) == SumNat(s) + 1
  {
    if k > 0 {
      assert s[k := s[k] + 1][1..] == s[1..][k - 1 := s[k] + 1];
      SumNatIncrement(s[1..], k - 1);
    }
  }

  lemma {:induction false} SumNatZeros(n: nat)
    ensures SumNat(seq(n, _ => 0)) == 0
  {
    if n > 0 {
      assert seq(n, _ => 0)[1..] == seq(n - 1, _ => 0);
      SumNatZeros(n - 1);
    }
  }

  /** When every input byte has an entry, the counts add up to the input
      length. */
  lemma {:induction false} CreditsSum(buf: seq<uint8>, symbols: seq<uint8>)
    requires forall c :: c in buf ==> c in symbols
    ensures SumNat(Credits(buf, symbols)) == |buf|
  {
    if buf == [] {
      SumNatZeros(|symbols|);
    } else {
      var init, c := buf[..|buf| - 1], buf[|buf| - 1];
      assert forall x :: x in init ==> x in buf;
      CreditsSum(init, symbols);
      assert c in symbols;
      var k := FirstIndex(symbols, c);
      SumNatIncrement(Credits(init, symbols), k);
    }
  }
}
