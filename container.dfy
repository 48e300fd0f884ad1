/**
 * The compressed file: signature, code book, original length, bit stream
 * and bit count, separated by GROUP_SEPARATOR bytes (`compress`), and the
 * reading side (`fread`/`fseek` on the file, `read_codebook`).
 */
module Container {
  import opened Binary
  import opened CodeBook
  import opened BitWriter

  /** huffman.h GROUP_SEPARATOR. */
  const GS: uint8 := 0x29

  /** huffman.h FILE_SIGN, "HUFFBOOK", FILE_SIGN_LEN bytes. */
  const Signature: seq<uint8> := [0x48, 0x55, 0x46, 0x46, 0x42, 0x4F, 0x4F, 0x4B]
  const SignatureLen: nat := 8

  /** Width in bytes of the `uint64_t` fields (entry count, original
      length, bit count). */
  const U64: nat := 8

  /** Bytes of `code` stored for a code of `numBits` bits: the fewest that
      hold that many bits. */
  function CodeBytes(numBits: uint8): (k: nat)
    ensures numBits <= 8 * k < numBits + 8
  {
    numBits / 8 + (if numBits % 8 != 0 then 1 else 0)
  }

  /** One code-book entry on disk: symbol, length, then the low
      `CodeBytes(numBits)` bytes of the code, little-endian. This is what
      `compress` writes for codes of at most 32 bits, the only ones it is
      given. */
  function EntryBytes(e: CodeTable): seq<uint8> {
    [e.symbol, e.numBits] + LE(e.code, CodeBytes(e.numBits))
  }

  function BookBytes(table: seq<CodeTable>): seq<uint8> {
    if table == [] then [] else BookBytes(table[..|table| - 1]) + EntryBytes(table[|table| - 1])
  }

  lemma {:induction false} BookBytesConcat(a: seq<CodeTable>, b: seq<CodeTable>)
    ensures BookBytes(a + b) == BookBytes(a) + BookBytes(b)
    decreases |b|
  {
    if b == [] {
      assert a + b == a;
    } else {
      var init, last := b[..|b| - 1], b[|b| - 1];
      assert (a + b)[..|a + b| - 1] == a + init;
      assert (a + b)[|a + b| - 1] == last;
      BookBytesConcat(a, init);
      Assoc3(BookBytes(a), BookBytes(init), EntryBytes(last));
    }
  }

  lemma BookBytesCons(table: seq<CodeTable>)
    requires table != []
    ensures BookBytes(table) == EntryBytes(table[0]) + BookBytes(table[1..])
  {
    assert table == [table[0]] + table[1..];
    BookBytesConcat([table[0]], table[1..]);
    assert [table[0]][..0] == [];
  }

  /** Everything `compress` writes before the bit stream. */
  function Header(table: seq<CodeTable>, len: nat): seq<uint8> {
    Signature + LE(|table|, U64) + BookBytes(table) + [GS] + LE(len, U64) + [GS]
  }

  /** The bits `compress` sends for `buf`: each byte's code when
      `search_symbol` finds an entry, nothing when it does not. */
  function StreamBits(table: seq<CodeTable>, buf: seq<uint8>): seq<bit> {
    if buf == [] then []
    else
      var prev := StreamBits(table, buf[..|buf| - 1]);
      match FindSymbol(table, buf[|buf| - 1])
      case Hit(e) => prev + CodeBits(e)
      case _ => prev
  }

  /** The last byte's code, when it has one, comes last. */
  lemma StreamBitsSnoc(table: seq<CodeTable>, buf: seq<uint8>, c: uint8)
    requires FindSymbol(table, c).Hit?
    ensures StreamBits(table, buf + [c]) == StreamBits(table, buf) + CodeBits(FindSymbol(table, c).entry)
  {
    assert (buf + [c])[..|buf|] == buf;
  }

  /** The file `compress` produces. The bits after the last full byte stay
      in `write_bit`'s static byte and never reach the file; the count is
      the number of bits sent, complete bytes or not. */
  function Container(table: seq<CodeTable>, buf: seq<uint8>): seq<uint8> {
    Header(table, |buf|) + Trailer(StreamBits(table, buf))
  }

  /** Everything from the bit stream on. */
  function Trailer(bits: seq<bit>): seq<uint8> {
    FullBytes(bits) + [GS] + LE(|bits|, U64)
  }

  /** `compress` (huffman.c), with the statistics it prints left out. It
      needs every code to fit the 4-byte `code` field it copies from and
      every search to end. */
  method Compress(w: Writer, buf: seq<uint8>, book: Book)
    requires w.Valid() && w.pending == []
    requires forall e :: e in book.table ==> e.numBits <= 32
    requires forall i :: 0 <= i < |buf| ==> !FindSymbol(book.table, buf[i]).Spins?
    modifies w
    ensures w.Valid()
    ensures w.out == old(w.out) + Container(book.table, buf)
    ensures w.pending == Leftover(StreamBits(book.table, buf))
  {
    WriteHeader(w, book.table, |buf|);
    var count := WriteStream(w, buf, book);
    w.WriteBytes([GS]);
    w.WriteBytes(LE(count, U64));
    ContainerParts(old(w.out), book.table, buf);
  }

  /** The container is the header, the full bytes of the stream, a
      separator and the bit count, appended in that order. */
  lemma ContainerParts(out: seq<uint8>, table: seq<CodeTable>, buf: seq<uint8>)
    ensures var bits := StreamBits(table, buf);
      out + Header(table, |buf|) + FullBytes(bits) + [GS] + LE(|bits|, U64) ==
      out + Container(table, buf)
  {
    var bits := StreamBits(table, buf);
    Assoc5(out, Header(table, |buf|), FullBytes(bits), [GS], LE(|bits|, U64));
  }

  lemma Assoc5<T>(a: seq<T>, b: seq<T>, c: seq<T>, d: seq<T>, e: seq<T>)
    ensures a + b + c + d + e == a + (b + (c + d + e))
  {
  }

  /** The part of `compress` before the bit stream, for codes that fit the
      four bytes of `code`. */
  method WriteHeader(w: Writer, table: seq<CodeTable>, len: nat)
    requires forall e :: e in table ==> e.numBits <= 32
    modifies w`out
    ensures w.out == old(w.out) + Header(table, len)
  {
    w.WriteBytes(Signature);
    w.WriteBytes(LE(|table|, U64));
    WriteEntries(w, table);
    w.WriteBytes([GS]);
    w.WriteBytes(LE(len, U64));
    w.WriteBytes([GS]);
  }

  /** The code-book loop of `compress`: symbol, length and the code's low
      bytes for every entry. The bytes are copied from `code`, so they stay
      within that field only for codes of at most 32 bits. */
  method WriteEntries(w: Writer, table: seq<CodeTable>)
    requires forall e :: e in table ==> e.numBits <= 32
    modifies w`out
    ensures w.out == old(w.out) + BookBytes(table)
  {
    for i := 0 to |table|
      invariant w.out == old(w.out) + BookBytes(table[..i])
    {
      var e := table[i];
      var bytes := e.numBits / 8 + (if e.numBits % 8 != 0 then 1 else 0);
      assert bytes == CodeBytes(e.numBits);
      ghost var before := w.out;
      w.WriteBytes([e.symbol]);
      w.WriteBytes([e.numBits]);
      w.WriteBytes(LE(e.code, bytes));
      EntryParts(before, e);
      BookBytesPrefix(table, i);
    }
    assert table[..|table|] == table;
  }

  /** An entry is written as its symbol, its length and its code bytes. */
  lemma EntryParts(out: seq<uint8>, e: CodeTable)
    ensures out + [e.symbol] + [e.numBits] + LE(e.code, CodeBytes(e.numBits)) == out + EntryBytes(e)
  {
  }

  /** The bytes of the first `i + 1` entries are those of the first `i`
      and then entry `i`. */
  lemma BookBytesPrefix(table: seq<CodeTable>, i: nat)
    requires i < |table|
    ensures BookBytes(table[..i + 1]) == BookBytes(table[..i]) + EntryBytes(table[i])
  {
    assert table[..i + 1][..i] == table[..i];
  }

  /** The data loop of `compress`: every byte's code, through `write_bit`;
      `count` is the number of bits sent. */
  method WriteStream(w: Writer, buf: seq<uint8>, book: Book) returns (count: nat)
    requires w.Valid() && w.pending == []
    requires forall e :: e in book.table ==> e.numBits <= 32
    requires forall i :: 0 <= i < |buf| ==> !FindSymbol(book.table, buf[i]).Spins?
    modifies w
    ensures w.Valid()
    ensures count == |StreamBits(book.table, buf)|
    ensures w.out == old(w.out) + FullBytes(StreamBits(book.table, buf))
    ensures w.pending == Leftover(StreamBits(book.table, buf))
  {
    var table := book.table;
    count := 0;
    for i := 0 to |buf|
      invariant w.Valid()
      invariant count == |StreamBits(table, buf[..i])|
      invariant w.out == old(w.out) + FullBytes(StreamBits(table, buf[..i]))
      invariant w.pending == Leftover(StreamBits(table, buf[..i]))
    {
      assert buf[..i + 1][..i] == buf[..i];
      ghost var s := StreamBits(table, buf[..i]);
      ghost var t := StreamBits(table, buf[..i + 1]);
      var r := book.SearchSymbol(buf[i]);
      if r.Hit? {
        assert t == s + CodeBits(r.entry);
        assert r.entry in table by {
          FindSymbolMeaning(table, buf[i]);
        }
        count := count + r.entry.numBits;
        FullBytesAppend(s, CodeBits(r.entry));
        w.WriteCode(r.entry);
      } else {
        assert !r.Spins?;
        assert t == s;
      }
    }
    assert buf[..|buf|] == buf;
  }

  /** Where a reader stands in the file: its offset and the end-of-file
      indicator. */
  datatype Cursor = Cursor(pos: nat, eof: bool)

  /** `fread` of up to `n` bytes at `c`: the bytes there, the offset moved
      past them, and the end-of-file indicator set on a short read. */
  function ReadAt(data: seq<uint8>, c: Cursor, n: nat): (r: (seq<uint8>, Cursor))
    requires c.pos <= |data|
    ensures |r.0| <= n && r.1.pos == c.pos + |r.0| <= |data|
    ensures r.0 == data[c.pos..r.1.pos]
    ensures |r.0| == n || r.1.pos == |data|
    ensures r.1.eof <==> c.eof || |r.0| < n
  {
    var k := Min(n, |data| - c.pos);
    (data[c.pos..c.pos + k], Cursor(c.pos + k, c.eof || k < n))
  }

  /** Reading exactly the bytes that are there. */
  lemma ReadExact(pre: seq<uint8>, x: seq<uint8>, post: seq<uint8>, eof: bool)
    ensures ReadAt(pre + x + post, Cursor(|pre|, eof), |x|).0 == x
    ensures ReadAt(pre + x + post, Cursor(|pre|, eof), |x|).1 == Cursor(|pre| + |x|, eof)
  {
    assert (pre + x + post)[|pre|..|pre| + |x|] == x;
  }

  /** The byte `fread(&b, 1, 1, fp)` leaves in a variable that held
      `before`. */
  function ByteOr(got: seq<uint8>, before: uint8): uint8 {
    if got == [] then before else got[0]
  }

  /** The value `fread` leaves in the zeroed four-byte `code` field from
      the bytes it got: the first four, least significant first. Later
      bytes land after the field (see `CodeRoom`). */
  function CodeField(got: seq<uint8>): uint32
    decreases |got|
  {
    if |got| > 4 then CodeField(got[..4])
    else
      Pow2Monotone(8 * |got|, 32);
      Pow2Values();
      FromLE(got)
  }

  /** The room `read_codebook` has for the code bytes of an entry. A
      `CodeTable` takes 12 bytes: `symbol`, three bytes of padding, the
      four bytes of `code`, `num_bits` and three more bytes of padding. The
      code bytes are read into `code` and on: the fifth overwrites
      `num_bits`, the sixth to eighth fall in the padding, and a ninth
      lies past the end of the struct. */
  const CodeRoom: nat := 8

  /** The fields of a code-book entry as `read_codebook` reads them, in
      turn, into `e`: field 0 is the symbol, 1 the length and 2 the code,
      `CodeBytes(numBits)` bytes of which the first four land in `code` and
      a fifth in `numBits`. A short read leaves the field as it was. */
  function ReadFields(data: seq<uint8>, c: Cursor, field: nat, e: CodeTable): (r: (CodeTable, Cursor))
    requires c.pos <= |data| && field <= 3
    ensures r.1.pos <= |data|
    decreases 3 - field
  {
    if field == 3 then (e, c)
    else if field == 0 then
      var got := ReadAt(data, c, 1);
      ReadFields(data, got.1, 1, e.(symbol := ByteOr(got.0, e.symbol)))
    else if field == 1 then
      var got := ReadAt(data, c, 1);
      ReadFields(data, got.1, 2, e.(numBits := ByteOr(got.0, e.numBits)))
    else
      var got := ReadAt(data, c, CodeBytes(e.numBits));
      ReadFields(data, got.1, 3, e.(code := if got.0 == [] then e.code else CodeField(got.0),
                                    numBits := if |got.0| > 4 then got.0[4] else e.numBits))
  }

  /** One entry, read into a zeroed `CodeTable`. */
  function ParseEntry(data: seq<uint8>, c: Cursor): (r: (CodeTable, Cursor))
    requires c.pos <= |data|
    ensures r.1.pos <= |data|
  {
    ReadFields(data, c, 0, CodeTable(0, 0, 0))
  }

  /** `n` entries read one after the other. */
  function ParseEntries(data: seq<uint8>, c: Cursor, n: nat): (r: (seq<CodeTable>, Cursor))
    requires c.pos <= |data|
    ensures |r.0| == n && r.1.pos <= |data|
    decreases n
  {
    if n == 0 then ([], c)
    else
      var first := ParseEntry(data, c);
      var rest := ParseEntries(data, first.1, n - 1);
      ([first.0] + rest.0, rest.1)
  }

  /** The code book `read_codebook` returns and where it leaves the file:
      it seeks to offset 8, reads the 8-byte entry count and then that many
      entries. */
  function ParseBook(data: seq<uint8>): (r: (seq<CodeTable>, Cursor))
    ensures r.1.pos <= |data|
  {
    var count := ReadAt(data, Cursor(Min(SignatureLen, |data|), false), U64);
    ParseEntries(data, count.1, FromLE(count.0))
  }

  /** The entry at `c` has more code bytes than `CodeRoom`, so reading it
      stores past the end of its `CodeTable`. */
  predicate EntryOverruns(data: seq<uint8>, c: Cursor)
    requires c.pos <= |data|
  {
    var symbol := ReadAt(data, c, 1);
    var length := ReadAt(data, symbol.1, 1);
    |ReadAt(data, length.1, CodeBytes(ByteOr(length.0, 0))).0| > CodeRoom
  }

  /** One of the `n` entries from `c` overruns its `CodeTable`. */
  predicate EntriesOverrun(data: seq<uint8>, c: Cursor, n: nat)
    requires c.pos <= |data|
    decreases n
  {
    n > 0 && (EntryOverruns(data, c) || EntriesOverrun(data, ParseEntry(data, c).1, n - 1))
  }

  /** `read_codebook` stores past the end of some entry's `CodeTable`. */
  predicate BookOverruns(data: seq<uint8>)
  {
    var count := ReadAt(data, Cursor(Min(SignatureLen, |data|), false), U64);
    EntriesOverrun(data, count.1, FromLE(count.0))
  }

  /** `sizeof(CodeTable *)`, on the usual 64-bit platform. */
  const PointerSize: nat := 8

  /** 2^64: `size_t` arithmetic is taken modulo this. */
  const TWO_64: nat := 0x1_0000_0000_0000_0000

  /** 2^61: the entry count at which the table's byte size wraps. */
  const WrapCount: nat := 0x2000_0000_0000_0000

  /** The entry pointers `read_codebook`'s table has room for. It allocates
      `num_symbols * sizeof(CodeTable *)` bytes, a `size_t` product that
      wraps modulo 2^64. */
  function TableSlots(count: nat): nat {
    (count * PointerSize) % TWO_64 / PointerSize
  }

  /** For a count read from eight bytes, the room is the count modulo
      2^61, and the table has room for every entry exactly when the count
      is below 2^61. */
  lemma TableSlotsWrap(count: nat)
    requires count < TWO_64
    ensures TableSlots(count) == count % WrapCount
    ensures TableSlots(count) < count <==> count >= WrapCount
  {
    ScaledMod(count, PointerSize, WrapCount);
  }

  /** The two wide powers of two, as numbers. */
  lemma Pow2Wide()
    ensures Pow2(61) == WrapCount && Pow2(64) == TWO_64
  {
    Pow2Values();
    Pow2Add(32, 29);
    Pow2Add(32, 32);
    Pow2Add(24, 5);
  }

  /** Scaling by `k` commutes with the remainder modulo `m`. */
  lemma ScaledMod(c: nat, k: nat, m: nat)
    requires k > 0 && m > 0
    ensures (c * k) % (k * m) / k == c % m
    ensures c % m < c <==> c >= m
  {
    var q, r := c / m, c % m;
    DivMod(c, m);
    assert c * k == (k * m) * q + k * r by {
      Distribute(k, m, q, r);
    }
    MulStrict(r, m, k);
    DivUnique(c * k, k * m, q, k * r);
    DivUnique(k * r, k, r, 0);
    if c >= m {
      assert q != 0;
      MulAtLeast(m, q);
    } else {
      DivUnique(c, m, 0, c);
    }
  }

  /** `read_codebook` stores an entry pointer past the end of its table
      before any entry overruns its `CodeTable`. This happens when the count
      needs more slots than the table has and none of the entries read into
      the slots it does have overruns. */
  predicate TableOverruns(data: seq<uint8>)
  {
    var count := ReadAt(data, Cursor(Min(SignatureLen, |data|), false), U64);
    var n := FromLE(count.0);
    TableSlots(n) < n && !EntriesOverrun(data, count.1, TableSlots(n))
  }

  /** An overrun among the first `m` entries is one among the first `n`. */
  lemma {:induction false} EntriesOverrunPrefix(data: seq<uint8>, c: Cursor, m: nat, n: nat)
    requires c.pos <= |data| && m <= n && EntriesOverrun(data, c, m)
    ensures EntriesOverrun(data, c, n)
    decreases m
  {
    if !EntryOverruns(data, c) {
      EntriesOverrunPrefix(data, ParseEntry(data, c).1, m - 1, n - 1);
    }
  }

  /** A stored length of 33 to 64 bits is overwritten by the fifth code
      byte, and the entry stays within its `CodeTable`. */
  lemma LengthOverwritten(data: seq<uint8>, p: nat, eof: bool)
    requires p + 2 <= |data| && 32 < data[p + 1] <= 64
    requires p + 2 + CodeBytes(data[p + 1]) <= |data|
    ensures ParseEntry(data, Cursor(p, eof)).0 ==
      CodeTable(data[p], CodeField(data[p + 2..p + 2 + CodeBytes(data[p + 1])]), data[p + 6])
    ensures !EntryOverruns(data, Cursor(p, eof))
  {
    var k := CodeBytes(data[p + 1]);
    ReadSlice(data, Cursor(p, eof), [data[p]]);
    ReadSlice(data, Cursor(p + 1, eof), [data[p + 1]]);
    ReadSlice(data, Cursor(p + 2, eof), data[p + 2..p + 2 + k]);
  }

  /** An entry whose bytes are all there overruns its `CodeTable` exactly
      when its stored length is above 64 bits. */
  lemma OverrunsIff(data: seq<uint8>, p: nat, eof: bool)
    requires p + 2 <= |data| && p + 2 + CodeBytes(data[p + 1]) <= |data|
    ensures EntryOverruns(data, Cursor(p, eof)) <==> data[p + 1] > 64
  {
    var k := CodeBytes(data[p + 1]);
    ReadSlice(data, Cursor(p, eof), [data[p]]);
    ReadSlice(data, Cursor(p + 1, eof), [data[p + 1]]);
    ReadSlice(data, Cursor(p + 2, eof), data[p + 2..p + 2 + k]);
  }

  /** Reading bytes the file holds at the cursor. */
  lemma ReadSlice(data: seq<uint8>, c: Cursor, x: seq<uint8>)
    requires c.pos + |x| <= |data| && data[c.pos..c.pos + |x|] == x
    ensures ReadAt(data, c, |x|).0 == x
    ensures ReadAt(data, c, |x|).1 == Cursor(c.pos + |x|, c.eof)
  {
  }

  /** Cutting a slice that holds `a + b` after `a`. */
  lemma SliceSplit<T>(s: seq<T>, i: nat, j: nat, k: nat, a: seq<T>, b: seq<T>)
    requires i <= j <= k <= |s| && j - i == |a| && s[i..k] == a + b
    ensures s[i..j] == a && s[j..k] == b
  {
    assert s[i..j] == s[i..k][..j - i];
    assert s[j..k] == s[i..k][j - i..];
  }

  /** An entry written by `compress` reads back as itself when its code
      fits its length and the length is at most 32. */
  lemma ParseEntryAt(data: seq<uint8>, p: nat, e: CodeTable, eof: bool)
    requires e.numBits <= 32 && e.code < Pow2(e.numBits)
    requires p + |EntryBytes(e)| <= |data| && data[p..p + |EntryBytes(e)|] == EntryBytes(e)
    ensures ParseEntry(data, Cursor(p, eof)).0 == e
    ensures ParseEntry(data, Cursor(p, eof)).1 == Cursor(p + |EntryBytes(e)|, eof)
    ensures !EntryOverruns(data, Cursor(p, eof))
  {
    var k := CodeBytes(e.numBits);
    var code := LE(e.code, k);
    var end := p + |EntryBytes(e)|;
    assert EntryBytes(e) == [e.symbol] + ([e.numBits] + code);
    SliceSplit(data, p, p + 1, end, [e.symbol], [e.numBits] + code);
    SliceSplit(data, p + 1, p + 2, end, [e.numBits], code);
    ReadSlice(data, Cursor(p, eof), [e.symbol]);
    ReadSlice(data, Cursor(p + 1, eof), [e.numBits]);
    ReadSlice(data, Cursor(p + 2, eof), code);
    assert k <= 4;
    assert CodeField(code) == FromLE(code);
    Pow2Monotone(e.numBits, 8 * k);
    FromLEOfLE(e.code, k);
  }

  /** `ParseEntries` reads one entry, then the rest. */
  lemma ParseEntriesStep(data: seq<uint8>, c: Cursor, n: nat)
    requires c.pos <= |data| && n > 0
    ensures ParseEntries(data, c, n).0 ==
      [ParseEntry(data, c).0] + ParseEntries(data, ParseEntry(data, c).1, n - 1).0
    ensures ParseEntries(data, c, n).1 == ParseEntries(data, ParseEntry(data, c).1, n - 1).1
  {
  }

  /** Every entry's length is at most 32 and its code fits the length:
      what `compress` needs to store the entry and `read_codebook` to read
      it back. */
  predicate Storable(table: seq<CodeTable>)
  {
    table == [] || (table[0].numBits <= 32 && table[0].code < Pow2(table[0].numBits) && Storable(table[1..]))
  }

  /** Every entry of the table is storable. */
  lemma {:induction false} StorableOf(table: seq<CodeTable>)
    requires forall e :: e in table ==> e.numBits <= 32 && e.code < Pow2(e.numBits)
    ensures Storable(table)
    decreases |table|
  {
    if table != [] {
      assert forall e :: e in table[1..] ==> e in table;
      StorableOf(table[1..]);
    }
  }

  /** The bytes from `p` to `end` are the entries of `table`, one after the
      other. */
  predicate StoredAt(data: seq<uint8>, p: nat, end: nat, table: seq<CodeTable>)
    requires p <= end <= |data|
    decreases |table|
  {
    if table == [] then p == end
    else
      var q := p + |EntryBytes(table[0])|;
      q <= end && data[p..q] == EntryBytes(table[0]) && StoredAt(data, q, end, table[1..])
  }

  /** A table's bytes are its entries one after the other. */
  lemma {:induction false} BookBytesStored(data: seq<uint8>, p: nat, end: nat, table: seq<CodeTable>)
    requires p <= end <= |data| && data[p..end] == BookBytes(table)
    ensures StoredAt(data, p, end, table)
    decreases |table|
  {
    if table != [] {
      FirstEntrySlice(data, p, end, table);
      BookBytesStored(data, p + |EntryBytes(table[0])|, end, table[1..]);
    }
  }

  /** The entries of `table` read back one after the other from `p`,
      ending at `end`, with the end-of-file indicator left as it was. */
  predicate ReadsBack(data: seq<uint8>, p: nat, end: nat, table: seq<CodeTable>, eof: bool)
    requires p <= |data|
    decreases |table|
  {
    if table == [] then p == end
    else
      var r := ParseEntry(data, Cursor(p, eof));
      && r.0 == table[0] && r.1.eof == eof && !EntryOverruns(data, Cursor(p, eof))
      && ReadsBack(data, r.1.pos, end, table[1..], eof)
  }

  /** Stored entries read back. */
  lemma {:induction false} StoredReadsBack(data: seq<uint8>, p: nat, end: nat, table: seq<CodeTable>, eof: bool)
    requires Storable(table) && p <= end <= |data| && StoredAt(data, p, end, table)
    ensures ReadsBack(data, p, end, table, eof)
    decreases |table|
  {
    if table != [] {
      var e := table[0];
      ParseEntryAt(data, p, e, eof);
      StoredReadsBack(data, p + |EntryBytes(e)|, end, table[1..], eof);
    }
  }

  /** Entries that read back one by one are what `ParseEntries` returns;
      `n` is their number. */
  lemma {:induction false} ParseEntriesReadsBack(data: seq<uint8>, c: Cursor, end: nat, table: seq<CodeTable>, n: nat)
    requires n == |table| && c.pos <= |data| && ReadsBack(data, c.pos, end, table, c.eof)
    ensures ParseEntries(data, c, n).0 == table
    ensures ParseEntries(data, c, n).1 == Cursor(end, c.eof)
    ensures !EntriesOverrun(data, c, n)
    decreases n
  {
    if n > 0 {
      var e, rest := table[0], table[1..];
      var q := ParseEntry(data, Cursor(c.pos, c.eof)).1;
      assert c == Cursor(c.pos, c.eof);
      assert ParseEntry(data, c).0 == e && q.eof == c.eof && !EntryOverruns(data, c);
      assert ReadsBack(data, q.pos, end, rest, c.eof);
      ParseEntriesReadsBack(data, q, end, rest, n - 1);
      ParseCons(data, c, n, e, q, rest, Cursor(end, c.eof));
      assert table == [e] + rest;
    }
  }

  /** The bytes of a stored table start with those of its first entry. */
  lemma FirstEntrySlice(data: seq<uint8>, p: nat, end: nat, table: seq<CodeTable>)
    requires table != [] && p <= end <= |data| && data[p..end] == BookBytes(table)
    ensures var q := p + |EntryBytes(table[0])|;
      && q <= end && data[p..q] == EntryBytes(table[0]) && data[q..end] == BookBytes(table[1..])
  {
    BookBytesCons(table);
    SliceSplit(data, p, p + |EntryBytes(table[0])|, end, EntryBytes(table[0]), BookBytes(table[1..]));
  }

  /** An entry followed by the rest. */
  lemma ParseCons(data: seq<uint8>, c: Cursor, n: nat, e: CodeTable, q: Cursor, rest: seq<CodeTable>, last: Cursor)
    requires c.pos <= |data|
    requires n > 0
    requires q.pos <= |data|
    requires ParseEntry(data, c).0 == e
    requires ParseEntry(data, c).1 == q
    requires ParseEntries(data, q, n - 1).0 == rest
    requires ParseEntries(data, q, n - 1).1 == last
    ensures ParseEntries(data, c, n).0 == [e] + rest && ParseEntries(data, c, n).1 == last
    ensures EntriesOverrun(data, c, n) == (EntryOverruns(data, c) || EntriesOverrun(data, q, n - 1))
  {
    ParseEntriesStep(data, c, n);
  }

  /** `read_codebook` on a file `compress` wrote returns the table that was
      written and leaves the file just after it, at the separator. */
  lemma ParseBookOfHeader(table: seq<CodeTable>, len: nat, rest: seq<uint8>)
    requires |table| < Pow2(64)
    requires Storable(table)
    ensures ParseBook(Header(table, len) + rest).0 == table
    ensures ParseBook(Header(table, len) + rest).1 == Cursor(SignatureLen + U64 + |BookBytes(table)|, false)
    ensures !BookOverruns(Header(table, len) + rest)
  {
    var data := Header(table, len) + rest;
    var end := SignatureLen + U64 + |BookBytes(table)|;
    HeaderSlices(table, len, rest);
    ParseBookAt(data, table, end);
  }

  /** Where a header holds the entry count and the entries. */
  lemma HeaderSlices(table: seq<CodeTable>, len: nat, rest: seq<uint8>)
    ensures BookAt(Header(table, len) + rest, table, SignatureLen + U64 + |BookBytes(table)|)
  {
    var data := Header(table, len) + rest;
    var tail := [GS] + LE(len, U64) + [GS] + rest;
    RegroupTail(Signature, LE(|table|, U64), BookBytes(table), [GS], LE(len, U64), [GS], rest);
    Quarters(Signature, LE(|table|, U64), BookBytes(table), tail);
    BookBytesStored(data, SignatureLen + U64, SignatureLen + U64 + |BookBytes(table)|, table);
  }

  lemma RegroupTail<T>(a: seq<T>, b: seq<T>, c: seq<T>, d: seq<T>, e: seq<T>, f: seq<T>, g: seq<T>)
    ensures a + b + c + d + e + f + g == a + b + c + (d + e + f + g)
  {
  }

  /** The second and third of four concatenated sequences. */
  lemma Quarters<T>(a: seq<T>, b: seq<T>, c: seq<T>, d: seq<T>)
    ensures (a + b + c + d)[|a|..|a| + |b|] == b
    ensures (a + b + c + d)[|a| + |b|..|a| + |b| + |c|] == c
  {
    assert (a + b + c + d)[|a|..|a| + |b|] == (a + b)[|a|..];
    assert (a + b + c + d)[|a| + |b|..|a| + |b| + |c|] == (a + b + c)[|a| + |b|..];
  }

  /** `data` holds, after the signature, the entry count of `table` and
      then its entries, up to `end`. */
  predicate BookAt(data: seq<uint8>, table: seq<CodeTable>, end: nat)
  {
    && SignatureLen + U64 <= end <= |data|
    && data[SignatureLen..SignatureLen + U64] == LE(|table|, U64)
    && StoredAt(data, SignatureLen + U64, end, table)
  }

  /** `read_codebook` on any file holding an entry count at offset 8 and
      that many stored entries after it. */
  lemma ParseBookAt(data: seq<uint8>, table: seq<CodeTable>, end: nat)
    requires |table| < Pow2(64) && Storable(table)
    requires BookAt(data, table, end)
    ensures ParseBook(data).0 == table && ParseBook(data).1 == Cursor(end, false)
    ensures !BookOverruns(data)
  {
    var count := ReadAt(data, Cursor(Min(SignatureLen, |data|), false), U64);
    assert count.0 == LE(|table|, U64);
    FromLEOfLE(|table|, U64);
    StoredReadsBack(data, SignatureLen + U64, end, table, false);
    ParseEntriesReadsBack(data, count.1, end, table, FromLE(count.0));
  }

  /** A stored book overruns `read_codebook`'s table exactly when it has
      2^61 or more entries. */
  lemma TableOverrunsAt(data: seq<uint8>, table: seq<CodeTable>, end: nat)
    requires |table| < Pow2(64) && Storable(table)
    requires BookAt(data, table, end)
    ensures TableOverruns(data) <==> |table| >= WrapCount
  {
    Pow2Wide();
    var count := ReadAt(data, Cursor(Min(SignatureLen, |data|), false), U64);
    var n := FromLE(count.0);
    assert count.0 == LE(|table|, U64);
    FromLEOfLE(|table|, U64);
    ParseBookAt(data, table, end);
    TableSlotsWrap(n);
    if TableSlots(n) < n && EntriesOverrun(data, count.1, TableSlots(n)) {
      EntriesOverrunPrefix(data, count.1, TableSlots(n), n);
    }
  }

  /** The header `compress` writes overruns `read_codebook`'s table exactly
      when its book has 2^61 or more entries. */
  lemma HeaderTableIff(table: seq<CodeTable>, len: nat, rest: seq<uint8>)
    requires |table| < Pow2(64) && Storable(table)
    ensures TableOverruns(Header(table, len) + rest) <==> |table| >= WrapCount
  {
    HeaderSlices(table, len, rest);
    TableOverrunsAt(Header(table, len) + rest, table, SignatureLen + U64 + |BookBytes(table)|);
  }

  /** The input file: its bytes, the offset of the next read and the
      end-of-file indicator. */
  class Reader {
    const data: seq<uint8>
    var pos: nat
    var eof: bool

    ghost predicate Valid()
      reads this
    {
      pos <= |data|
    }

    function At(): Cursor
      reads this
    {
      Cursor(pos, eof)
    }

    constructor (data: seq<uint8>)
      ensures Valid() && this.data == data && pos == 0 && !eof
    {
      this.data := data;
      pos := 0;
      eof := false;
    }

    /** `fread` of `n` bytes: as many as remain, at most `n`. */
    method Read(n: nat) returns (got: seq<uint8>)
      requires Valid()
      modifies this
      ensures Valid()
      ensures got == ReadAt(data, old(At()), n).0 && At() == ReadAt(data, old(At()), n).1
    {
      var k := Min(n, |data| - pos);
      got := data[pos..pos + k];
      pos := pos + k;
      eof := eof || k < n;
    }

    /** `fread(&byte, 1, 1, fp)`: one byte, or none at the end of the
        file, where the end-of-file indicator is set. */
    method ReadByte() returns (got: seq<uint8>)
      requires Valid()
      modifies this
      ensures Valid()
      ensures old(pos) < |data| ==> got == [data[old(pos)]] && pos == old(pos) + 1 && eof == old(eof)
      ensures old(pos) == |data| ==> got == [] && pos == old(pos) && eof
    {
      got := Read(1);
    }

    /** `fseek(fp, offset, SEEK_SET)`: clears the end-of-file indicator. An
        offset past the end reads like the end itself. */
    method Seek(offset: nat)
      modifies this
      ensures Valid() && pos == Min(offset, |data|) && !eof
    {
      pos := Min(offset, |data|);
      eof := false;
    }
  }

  /** `read_codebook` (huffman.c), with `print_table` left out. Each entry
      starts zeroed (`new_codetable`), so fields a short read does not reach
      stay 0. The table has room for `TableSlots` of the entries;
      `pastTable` tells whether an entry pointer is stored past it before
      any entry overruns. */
  method ReadCodebook(f: Reader) returns (book: Book, overrun: bool, pastTable: bool)
    requires f.Valid()
    modifies f
    ensures fresh(book) && book.capacity == TableSlots(FromLE(ReadAt(f.data, Cursor(Min(SignatureLen, |f.data|), false), U64).0))
    ensures f.Valid()
    ensures book.table == ParseBook(f.data).0 && f.At() == ParseBook(f.data).1
    ensures overrun == BookOverruns(f.data)
    ensures pastTable == TableOverruns(f.data)
  {
    f.Seek(SignatureLen);
    var countBytes := f.Read(U64);
    var n := FromLE(countBytes);
    var slots := TableSlots(n);
    book := new Book(slots);
    overrun, pastTable := ReadEntries(f, book, n, slots);
  }

  /** The loop of `read_codebook`: `n` entries appended to the book, which
      has room for `slots` of them. `overrun` tells whether an entry ran
      past its `CodeTable`, and `pastTable` whether entry `slots` is stored
      past the table before any of the entries in the table overran. */
  method ReadEntries(f: Reader, book: Book, n: nat, slots: nat) returns (overrun: bool, pastTable: bool)
    requires f.Valid() && book.table == []
    modifies f, book`table
    ensures f.Valid()
    ensures book.table == ParseEntries(f.data, old(f.At()), n).0
    ensures f.At() == ParseEntries(f.data, old(f.At()), n).1
    ensures overrun == EntriesOverrun(f.data, old(f.At()), n)
    ensures pastTable == (slots < n && !EntriesOverrun(f.data, old(f.At()), slots))
  {
    ghost var c0, data := f.At(), f.data;
    overrun, pastTable := false, false;
    for i := 0 to n
      invariant f.Valid() && f.data == data
      invariant book.table == ParseEntries(data, c0, i).0 && f.At() == ParseEntries(data, c0, i).1
      invariant overrun == EntriesOverrun(data, c0, i)
      invariant pastTable == (slots < i && !EntriesOverrun(data, c0, slots))
    {
      if i == slots {
        pastTable := !overrun;
      }
      ParseEntriesSnoc(data, c0, i);
      var e, over := ReadEntry(f);
      book.table := book.table + [e];
      overrun := overrun || over;
    }
  }

  /** Reading `n + 1` entries is reading `n` and then one more. */
  lemma {:induction false} ParseEntriesSnoc(data: seq<uint8>, c: Cursor, n: nat)
    requires c.pos <= |data|
    ensures var last := ParseEntry(data, ParseEntries(data, c, n).1);
      && ParseEntries(data, c, n + 1).0 == ParseEntries(data, c, n).0 + [last.0]
      && ParseEntries(data, c, n + 1).1 == last.1
    ensures EntriesOverrun(data, c, n + 1) ==
      (EntriesOverrun(data, c, n) || EntryOverruns(data, ParseEntries(data, c, n).1))
    decreases n
  {
    if n > 0 {
      var first := ParseEntry(data, c);
      ParseEntriesSnoc(data, first.1, n - 1);
      ParseEntriesStep(data, c, n);
      ParseEntriesStep(data, c, n + 1);
      var last := ParseEntry(data, ParseEntries(data, first.1, n - 1).1);
      Assoc3([first.0], ParseEntries(data, first.1, n - 1).0, [last.0]);
    }
  }

  lemma Assoc3<T>(a: seq<T>, b: seq<T>, c: seq<T>)
    ensures a + (b + c) == a + b + c
  {
  }

  /** The body of `read_codebook`'s loop: one entry into a zeroed
      `CodeTable`; `overrun` tells whether its code bytes ran past it. */
  method ReadEntry(f: Reader) returns (e: CodeTable, overrun: bool)
    requires f.Valid()
    modifies f
    ensures f.Valid()
    ensures e == ParseEntry(f.data, old(f.At())).0 && f.At() == ParseEntry(f.data, old(f.At())).1
    ensures overrun == EntryOverruns(f.data, old(f.At()))
  {
    ghost var c0 := f.At();
    var s := f.Read(1);
    ghost var e1 := CodeTable(ByteOr(s, 0), 0, 0);
    assert ParseEntry(f.data, c0) == ReadFields(f.data, f.At(), 1, e1);
    var nb := f.Read(1);
    var numBits := ByteOr(nb, 0);
    ghost var e2 := e1.(numBits := numBits);
    assert ParseEntry(f.data, c0) == ReadFields(f.data, f.At(), 2, e2);
    var code := f.Read(CodeBytes(numBits));
    e := CodeTable(ByteOr(s, 0), if code == [] then 0 else CodeField(code),
                   if |code| > 4 then code[4] else numBits);
    assert ParseEntry(f.data, c0) == ReadFields(f.data, f.At(), 3, e);
    overrun := |code| > CodeRoom;
  }
}
