/**
 * The decoder (`decode`, main.c): check the signature, read the code book
 * and the two header fields, then feed the bits of the stream, most
 * significant first, one at a time to `search_code` until a
 * GROUP_SEPARATOR byte or the end of the file.
 */
module Decoder {
  import opened Binary
  import opened CodeBook
  import opened BitWriter
  import opened Container

  /** The decoder's registers: the bits read since the last symbol
      (`bits`, `bit_count`) and the symbols decoded so far
      (`data[..data_len]`). */
  datatype ReadState = ReadState(bits: uint32, count: uint8, out: seq<uint8>)

  /** Where feeding bits leaves the decoder. `Hang`: `search_code` never
      returns. `Overrun`: a symbol was found while `data_len` had already
      reached `origin_len`, so `data[data_len]` lies past the end of the
      array. */
  datatype Feed = Next(st: ReadState) | Hang | Overrun

  /** One pass of the inner loop: `bits <<= 1; bits |= bit_i;
      bit_count++`, then `search_code`. The shifted value is even, so the
      or is an addition. */
  function FeedBit(table: seq<CodeTable>, limit: nat, st: ReadState, b: bit): Feed {
    var bits := Shl1(st.bits) + b;
    var count := Inc8(st.count);
    match FindCode(table, bits, count)
    case Hit(e) =>
      if |st.out| < limit then Next(ReadState(0, 0, st.out + [e.symbol])) else Overrun
    case Miss => Next(ReadState(bits, count, st.out))
    case Spins => Hang
  }

  /** The bits fed one after the other; `limit` is `origin_len`. */
  function FeedBits(table: seq<CodeTable>, limit: nat, st: ReadState, bs: seq<bit>): Feed {
    if bs == [] then Next(st)
    else
      match FeedBits(table, limit, st, bs[..|bs| - 1])
      case Next(s) => FeedBit(table, limit, s, bs[|bs| - 1])
      case Hang => Hang
      case Overrun => Overrun
  }

  /** The decoder only ever appends symbols, and never beyond `data`'s
      `origin_len` bytes: a symbol with no room is an overrun. */
  lemma {:induction false} FeedBitsGrows(table: seq<CodeTable>, limit: nat, st: ReadState, bs: seq<bit>)
    requires |st.out| <= limit
    ensures var r := FeedBits(table, limit, st, bs);
      r.Next? ==> st.out <= r.st.out && |r.st.out| <= limit
  {
    if bs != [] {
      FeedBitsGrows(table, limit, st, bs[..|bs| - 1]);
    }
  }

  /** Feeding more bits after `f`. */
  function Then(table: seq<CodeTable>, limit: nat, f: Feed, bs: seq<bit>): Feed {
    match f
    case Next(s) => FeedBits(table, limit, s, bs)
    case Hang => Hang
    case Overrun => Overrun
  }

  /** Feeding `a + b` is feeding `a`, then `b`; a hang or an overrun ends
      the feeding for good. */
  lemma {:induction false} FeedBitsAppend(table: seq<CodeTable>, limit: nat, st: ReadState, a: seq<bit>, b: seq<bit>)
    ensures FeedBits(table, limit, st, a + b) == Then(table, limit, FeedBits(table, limit, st, a), b)
    decreases |b|
  {
    if b == [] {
      assert a + b == a;
    } else {
      var init := b[..|b| - 1];
      assert (a + b)[..|a + b| - 1] == a + init;
      assert (a + b)[|a + b| - 1] == b[|b| - 1];
      FeedBitsAppend(table, limit, st, a, init);
    }
  }

  /** A bit string of at most 32 bits as the `uint32_t` holding it. */
  function Register(p: seq<bit>): (r: uint32)
    requires |p| <= 32
    ensures r == Value(p)
  {
    Pow2Monotone(|p|, 32);
    Pow2Values();
    Value(p)
  }

  /** Shifting a bit into the register appends it to the bits held. */
  lemma ShiftBit(p: seq<bit>, b: bit)
    requires |p| < 32
    ensures Shl1(Register(p)) + b == Register(p + [b])
  {
    Pow2Monotone(|p|, 31);
    Pow2Values();
    assert Pow2(31) == 0x8000_0000;
    ValueAppend(p, b);
  }

  /** The bits of a code's proper prefix find no entry in a prefix-free
      table of fewer than 256 entries. */
  lemma PrefixMisses(table: seq<CodeTable>, i: nat, k: nat)
    requires PrefixFree(table) && |table| < 256 && i < |table|
    requires 1 <= k < table[i].numBits <= 32
    ensures FindCode(table, Register(CodeBits(table[i])[..k]), k) == Miss
  {
    var p := CodeBits(table[i])[..k];
    var j := CodeIndex(table, Register(p), k);
    if j < |table| {
      BitsOfValue(p);
      assert IsPrefix(CodeBits(table[j]), CodeBits(table[i]));
      assert false;
    }
  }

  /** After the first `k` bits of entry `i`'s code (short of the whole
      code), `bits` and `bit_count` hold exactly those bits and nothing was
      decoded. */
  lemma {:induction false} FeedPrefix(table: seq<CodeTable>, limit: nat, i: nat, k: nat, out: seq<uint8>)
    requires PrefixFree(table) && |table| < 256 && i < |table|
    requires table[i].numBits <= 32 && k < table[i].numBits
    ensures var p := CodeBits(table[i])[..k];
      FeedBits(table, limit, ReadState(0, 0, out), p) == Next(ReadState(Register(p), k, out))
  {
    var cb := CodeBits(table[i]);
    if k > 0 {
      var p, b := cb[..k - 1], cb[k - 1];
      FeedPrefix(table, limit, i, k - 1, out);
      assert cb[..k][..k - 1] == p && cb[..k] == p + [b];
      ShiftBit(p, b);
      PrefixMisses(table, i, k);
    }
  }

  /** The whole code of entry `i` decodes to the entry's symbol and resets
      the registers, when `data` has room for it. */
  lemma FeedCode(table: seq<CodeTable>, limit: nat, i: nat, out: seq<uint8>)
    requires PrefixFree(table) && Canonical(table) && |table| < 256 && i < |table|
    requires 1 <= table[i].numBits <= 32 && |out| < limit
    ensures FeedBits(table, limit, ReadState(0, 0, out), CodeBits(table[i])) ==
      Next(ReadState(0, 0, out + [table[i].symbol]))
  {
    var cb := CodeBits(table[i]);
    var k := table[i].numBits - 1;
    var p, b := cb[..k], cb[k];
    FeedPrefix(table, limit, i, k, out);
    assert cb == p + [b];
    ShiftBit(p, b);
    BitsOfValue(cb);
    ValueOfBits(table[i].code, table[i].numBits);
    FindCodeOfEntry(table, i);
  }

  /** What the encoder sends for `buf` decodes back to `buf`, when the
      table is prefix free, every code has 1 to 32 bits, the table has
      fewer than 256 entries, every byte has an entry and `data` is large
      enough. */
  lemma {:induction false} ReadBack(table: seq<CodeTable>, limit: nat, buf: seq<uint8>, out: seq<uint8>)
    requires PrefixFree(table) && Canonical(table) && |table| < 256
    requires forall e :: e in table ==> 1 <= e.numBits <= 32
    requires forall i :: 0 <= i < |buf| ==> FindSymbol(table, buf[i]).Hit?
    requires |out| + |buf| <= limit
    ensures FeedBits(table, limit, ReadState(0, 0, out), StreamBits(table, buf)) ==
      Next(ReadState(0, 0, out + buf))
  {
    if buf == [] {
      assert out + buf == out;
    } else {
      var init, c := buf[..|buf| - 1], buf[|buf| - 1];
      assert buf == init + [c];
      assert forall i :: 0 <= i < |init| ==> init[i] == buf[i];
      ReadBack(table, limit, init, out);
      var k := SymbolIndex(table, c);
      assert FindSymbol(table, c).Hit?;
      var e := table[k];
      assert e in table;
      StreamBitsSnoc(table, init, c);
      FeedBitsAppend(table, limit, ReadState(0, 0, out), StreamBits(table, init), CodeBits(e));
      FeedCode(table, limit, k, out + init);
      Assoc3(out, init, [c]);
    }
  }

  /** Feeding one more bit after reaching state `s`. */
  lemma FeedBitsSnoc(table: seq<CodeTable>, limit: nat, st: ReadState, p: seq<bit>, b: bit, s: ReadState)
    requires FeedBits(table, limit, st, p) == Next(s)
    ensures FeedBits(table, limit, st, p + [b]) == FeedBit(table, limit, s, b)
  {
    assert (p + [b])[..|p|] == p;
  }

  /** `(byte & 1 << i) >> i`: bit `i` of the byte, which is bit `7 - i`
      counted from the most significant end. */
  function BitOf(byte: uint8, i: nat): (b: bit)
    requires i < 8
    ensures b == Bits(byte, 8)[7 - i]
  {
    BitAt(byte, 8, 7 - i);
    byte / Pow2(i) % 2
  }

  /** The body of the inner loop of `decode` for one bit: shift it into
      `bits`, count it and look the code up; a hit stores the symbol in
      `data[data_len]` and clears the registers. The model stops where the
      C program would hang or write past `data`. */
  method ShiftIn(book: Book, limit: nat, st: ReadState, bit: bit) returns (r: Feed)
    ensures r == FeedBit(book.table, limit, st, bit)
  {
    var bits := Shl1(st.bits) + bit;
    var bitCount := Inc8(st.count);
    var found := book.SearchCode(bits, bitCount);
    match found
    case Spins =>
      r := Hang;
    case Miss =>
      r := Next(ReadState(bits, bitCount, st.out));
    case Hit(e) =>
      if |st.out| >= limit {
        r := Overrun;
      } else {
        r := Next(ReadState(0, 0, st.out + [e.symbol]));
      }
  }

  lemma PrefixSnoc<T>(s: seq<T>, k: nat)
    requires k < |s|
    ensures s[..k + 1] == s[..k] + [s[k]]
  {
  }

  /** A hang or an overrun after a prefix of `bs` is the outcome of all
      of `bs`. */
  lemma FeedBitsRest(table: seq<CodeTable>, limit: nat, st: ReadState, bs: seq<bit>, k: nat)
    requires k <= |bs| && !FeedBits(table, limit, st, bs[..k]).Next?
    ensures FeedBits(table, limit, st, bs) == FeedBits(table, limit, st, bs[..k])
  {
    FeedBitsAppend(table, limit, st, bs[..k], bs[k..]);
    assert bs[..k] + bs[k..] == bs;
  }

  /** The inner loop of `decode` for one byte: bit `i` is
      `(byte & 1 << i) >> i`, for `i` from 7 down to 0. */
  method FeedByte(book: Book, limit: nat, st: ReadState, byte: uint8) returns (r: Feed)
    ensures r == FeedBits(book.table, limit, st, Bits(byte, 8))
  {
    var bs := Bits(byte, 8);
    var cur := st;
    for i := 8 downto 0
      invariant FeedBits(book.table, limit, st, bs[..8 - i]) == Next(cur)
    {
      var bit := BitOf(byte, i);
      PrefixSnoc(bs, 7 - i);
      FeedBitsSnoc(book.table, limit, st, bs[..7 - i], bit, cur);
      r := ShiftIn(book, limit, cur, bit);
      if !r.Next? {
        FeedBitsRest(book.table, limit, st, bs, 8 - i);
        return;
      }
      cur := r.st;
    }
    assert bs[..8] == bs;
    r := Next(cur);
  }

  /** Offset of the first GROUP_SEPARATOR byte at or after `pos`, or the
      end of the file. */
  function StreamEnd(data: seq<uint8>, pos: nat): (k: nat)
    requires pos <= |data|
    ensures pos <= k <= |data|
    ensures forall j :: pos <= j < k ==> data[j] != GS
    ensures k < |data| ==> data[k] == GS
    decreases |data| - pos
  {
    if pos == |data| || data[pos] == GS then pos else StreamEnd(data, pos + 1)
  }

  /** Where the byte loop leaves the file when it runs to its end: just
      past the separator, or at the end of the file with the end-of-file
      indicator set by the `fread` that found nothing. */
  function AfterStream(data: seq<uint8>, c: Cursor): Cursor
    requires c.pos <= |data|
  {
    var end := StreamEnd(data, c.pos);
    if end < |data| then Cursor(end + 1, c.eof) else Cursor(|data|, true)
  }

  /** The registers and `data_len` as `decode` sets them up. */
  const Start := ReadState(0, 0, [])

  /** The file's bytes from `start` up to `pos` fed one after the other:
      what the byte loop has done when it is about to read at `pos`. */
  function FeedFrom(table: seq<CodeTable>, limit: nat, data: seq<uint8>, start: nat, pos: nat): Feed
    requires start <= pos <= |data|
    decreases pos - start
  {
    if pos == start then Next(Start)
    else Then(table, limit, FeedFrom(table, limit, data, start, pos - 1), Bits(data[pos - 1], 8))
  }

  /** Feeding the file's bytes from `start` to `pos` is feeding their bits. */
  predicate FedAsBits(table: seq<CodeTable>, limit: nat, data: seq<uint8>, start: nat, pos: nat)
    requires start <= pos <= |data|
  {
    FeedFrom(table, limit, data, start, pos) == FeedBits(table, limit, Start, Unpack(data[start..pos]))
  }

  /** Feeding the file's bytes is feeding their bits. */
  lemma {:induction false} FeedFromIsBits(table: seq<CodeTable>, limit: nat, data: seq<uint8>, start: nat, pos: nat)
    requires start <= pos <= |data|
    ensures FedAsBits(table, limit, data, start, pos)
    decreases pos - start
  {
    if pos > start {
      var init, last := data[start..pos - 1], data[pos - 1];
      FeedFromIsBits(table, limit, data, start, pos - 1);
      assert data[start..pos] == init + [last];
      ThenByte(table, limit, FeedFrom(table, limit, data, start, pos - 1), init, last, data[start..pos]);
    }
  }

  /** Feeding one more byte after the bytes `init` is feeding the bits of
      `init` and of that byte together. */
  lemma ThenByte(table: seq<CodeTable>, limit: nat, f: Feed, init: seq<uint8>, last: uint8, whole: seq<uint8>)
    requires f == FeedBits(table, limit, Start, Unpack(init)) && whole == init + [last]
    ensures Then(table, limit, f, Bits(last, 8)) == FeedBits(table, limit, Start, Unpack(whole))
  {
    UnpackConcat(init, [last]);
    assert Unpack([last]) == Bits(last, 8);
    ThenAppend(table, limit, f, Unpack(init), Bits(last, 8), Unpack(whole));
  }

  /** Feeding more bits after the bits `a` is feeding `a` and them together. */
  lemma ThenAppend(table: seq<CodeTable>, limit: nat, f: Feed, a: seq<bit>, b: seq<bit>, ab: seq<bit>)
    requires f == FeedBits(table, limit, Start, a) && ab == a + b
    ensures Then(table, limit, f, b) == FeedBits(table, limit, Start, ab)
  {
    FeedBitsAppend(table, limit, Start, a, b);
  }

  /** Once the decoder hangs or overruns, further bytes change nothing. */
  lemma {:induction false} FeedFromStuck(table: seq<CodeTable>, limit: nat, data: seq<uint8>, start: nat, pos: nat, end: nat)
    requires start <= pos <= end <= |data| && !FeedFrom(table, limit, data, start, pos).Next?
    ensures FeedFrom(table, limit, data, start, end) == FeedFrom(table, limit, data, start, pos)
    decreases end - pos
  {
    if end > pos {
      FeedFromStuck(table, limit, data, start, pos, end - 1);
    }
  }

  /** Between `start` and the end of the stream, the end is where the
      file ends or a separator stands. */
  lemma StreamEndAt(data: seq<uint8>, start: nat, pos: nat)
    requires start <= |data| && start <= pos <= StreamEnd(data, start)
    ensures pos == StreamEnd(data, start) <==> pos == |data| || data[pos] == GS
  {
  }

  /** Where the byte loop stops, from the separator it read or the end of
      the file it reached. */
  lemma AfterStreamAt(data: seq<uint8>, c: Cursor, pos: nat)
    requires c.pos <= pos <= |data| && pos == StreamEnd(data, c.pos)
    ensures pos < |data| ==> AfterStream(data, c) == Cursor(pos + 1, c.eof)
    ensures pos == |data| ==> AfterStream(data, c) == Cursor(|data|, true)
  {
  }

  /** The byte loop of `decode` (`while (fread(&byte, 1, 1, fp) == 1)`):
      bytes up to a GROUP_SEPARATOR or the end of the file, each through
      the inner loop. */
  method ReadStream(f: Reader, book: Book, limit: nat) returns (r: Feed)
    requires f.Valid()
    modifies f
    ensures f.Valid()
    ensures r == FeedFrom(book.table, limit, f.data, old(f.pos), StreamEnd(f.data, old(f.pos)))
    ensures r.Next? ==> f.At() == AfterStream(f.data, old(f.At()))
  {
    ghost var start, end := f.pos, StreamEnd(f.data, f.pos);
    var st := Start;
    while true
      invariant f.Valid() && start <= f.pos <= end && f.eof == old(f.eof)
      invariant FeedFrom(book.table, limit, f.data, start, f.pos) == Next(st)
      decreases |f.data| - f.pos
    {
      ghost var pos := f.pos;
      var got := f.ReadByte();
      StreamEndAt(f.data, start, pos);
      if got == [] || got[0] == GS {
        AfterStreamAt(f.data, old(f.At()), pos);
        return Next(st);
      }
      var byte := got[0];
      var fed := FeedByte(book, limit, st, byte);
      if !fed.Next? {
        FeedFromStuck(book.table, limit, f.data, start, f.pos, end);
        return fed;
      }
      st := fed.st;
    }
  }

  /** What reading the header leaves: a bad signature, an entry pointer
      stored past the code-book table, a code-book entry stored past its
      `CodeTable`, a missing separator, or the code book, `origin_len` and
      the position of the stream. */
  datatype HeaderRead = BadSig | BadTable | BadBook | BadSep | HeaderOk(table: seq<CodeTable>, originLen: nat, next: Cursor)

  /** The header part of `decode`. `byte` is not initialised before the
      first separator is read; it is taken as 0 here, which is not a
      separator, like the 0x00 it is reset to before the second. A short
      read of the signature leaves bytes of `sign` unset, which cannot all
      match the non-zero signature bytes. */
  function DecodeHeader(file: seq<uint8>): (h: HeaderRead)
    ensures h.HeaderOk? ==> h.next.pos <= |file|
  {
    var sig := ReadAt(file, Cursor(0, false), SignatureLen);
    if sig.0 != Signature then BadSig
    else if TableOverruns(file) then BadTable
    else if BookOverruns(file) then BadBook
    else
      var book := ParseBook(file);
      var sep := ReadAt(file, book.1, 1);
      if ByteOr(sep.0, 0) != GS then BadSep
      else
        var len := ReadAt(file, sep.1, U64);
        var sep2 := ReadAt(file, len.1, 1);
        if ByteOr(sep2.0, 0) != GS then BadSep
        else HeaderOk(book.0, FromLE(len.0), sep2.1)
  }

  /** How `decode` ends. `TableOverrun`: `read_codebook` stores an entry
      pointer past the end of its table, whose size wrapped. `BookOverrun`:
      `read_codebook` stores the code of an entry past the end of its
      `CodeTable`. `Hangs`: `search_code` never returns.
      `DataOverrun`: a symbol is stored past the `origin_len` bytes of
      `data`. `BadFormat`: the end of the file comes before or within the
      bit count. `Decoded`: the symbols decoded, `data[..data_len]`. */
  datatype DecodeOutcome =
    | BadSignature | TableOverrun | BookOverrun | BadHeader | Hangs | DataOverrun | BadFormat | Decoded(data: seq<uint8>)

  /** The stream and trailer part of `decode`, after the header. */
  function DecodeBody(file: seq<uint8>, table: seq<CodeTable>, originLen: nat, c: Cursor): DecodeOutcome
    requires c.pos <= |file|
  {
    match FeedFrom(table, originLen, file, c.pos, StreamEnd(file, c.pos))
    case Hang => Hangs
    case Overrun => DataOverrun
    case Next(st) =>
      var total := ReadAt(file, AfterStream(file, c), U64);
      if total.1.eof then BadFormat else Decoded(st.out)
  }

  /** `decode` (main.c) on the bytes of the input file. */
  function DecodeSpec(file: seq<uint8>): DecodeOutcome {
    match DecodeHeader(file)
    case BadSig => BadSignature
    case BadTable => TableOverrun
    case BadBook => BookOverrun
    case BadSep => BadHeader
    case HeaderOk(table, originLen, c) => DecodeBody(file, table, originLen, c)
  }

  /** `decode` (main.c), with the printing and saving of the result left
      out: the outcome, and in `Decoded` the bytes that would be shown. */
  method Decode(file: seq<uint8>) returns (r: DecodeOutcome)
    ensures r == DecodeSpec(file)
  {
    var f := new Reader(file);
    var sign := f.Read(SignatureLen);
    if sign != Signature {
      return BadSignature;
    }
    var book, overrun, pastTable := ReadCodebook(f);
    if pastTable {
      return TableOverrun;
    }
    if overrun {
      return BookOverrun;
    }
    var got := f.Read(1);
    if ByteOr(got, 0) != GS {
      return BadHeader;
    }
    var lenBytes := f.Read(U64);
    var originLen := FromLE(lenBytes);
    got := f.Read(1);
    if ByteOr(got, 0) != GS {
      return BadHeader;
    }
    ghost var c := f.At();
    assert DecodeHeader(file) == HeaderOk(book.table, originLen, c);
    SpecOfHeader(file, book.table, originLen, c);
    var fed := ReadStream(f, book, originLen);
    if !fed.Next? {
      return if fed.Hang? then Hangs else DataOverrun;
    }
    var total := f.Read(U64);
    if f.eof {
      return BadFormat;
    }
    return Decoded(fed.st.out);
  }

  /** Once the header is read, the outcome is that of the stream part. */
  lemma SpecOfHeader(file: seq<uint8>, table: seq<CodeTable>, originLen: nat, next: Cursor)
    requires next.pos <= |file| && DecodeHeader(file) == HeaderOk(table, originLen, next)
    ensures DecodeSpec(file) == DecodeBody(file, table, originLen, next)
  {
  }

  /** A file that decodes has its header read, and the stream part
      decodes. */
  lemma DecodedHeader(file: seq<uint8>)
    requires DecodeSpec(file).Decoded?
    ensures var h := DecodeHeader(file);
      h.HeaderOk? && DecodeBody(file, h.table, h.originLen, h.next) == DecodeSpec(file)
  {
  }

  /** `decode` stops at the signature exactly when the file does not start
      with "HUFFBOOK". */
  lemma BadSignatureIff(file: seq<uint8>)
    ensures DecodeSpec(file) == BadSignature <==> |file| < SignatureLen || file[..SignatureLen] != Signature
  {
    var sig := ReadAt(file, Cursor(0, false), SignatureLen);
    if |file| < SignatureLen {
      assert |sig.0| < |Signature|;
    } else {
      assert sig.0 == file[..SignatureLen];
    }
  }

  /** The header checks `decode` passes: the signature, a code book that
      fits its table and stays within its `CodeTable`s, a separator after the book, eight
      bytes of length and a separator after them. The stream starts after
      the second separator. */
  lemma HeaderOkShape(file: seq<uint8>)
    requires DecodeHeader(file).HeaderOk?
    ensures SignatureLen <= |file| && file[..SignatureLen] == Signature
    ensures !TableOverruns(file) && !BookOverruns(file)
    ensures var p := ParseBook(file).1.pos;
      && p + 1 + U64 < |file| && file[p] == GS && file[p + 1 + U64] == GS
      && DecodeHeader(file).next.pos == p + 2 + U64
  {
    BadSignatureIff(file);
    var book := ParseBook(file);
    var sep := ReadAt(file, book.1, 1);
    assert sep.0 != [];
    var len := ReadAt(file, sep.1, U64);
    var sep2 := ReadAt(file, len.1, 1);
    assert sep2.0 != [];
  }

  /** An entry pointer stored past the code-book table stops `decode` once
      the signature is right. */
  lemma TableOverrunStops(file: seq<uint8>)
    requires SignatureLen <= |file| && file[..SignatureLen] == Signature
    requires TableOverruns(file)
    ensures DecodeSpec(file) == TableOverrun
  {
    BadSignatureIff(file);
  }

  /** A code book entry stored past its `CodeTable` stops `decode` once
      the signature is right and the table has room for the entries read
      before it. */
  lemma OverrunStops(file: seq<uint8>)
    requires SignatureLen <= |file| && file[..SignatureLen] == Signature
    requires !TableOverruns(file) && BookOverruns(file)
    ensures DecodeSpec(file) == BookOverrun
  {
    BadSignatureIff(file);
  }

  /** After the signature and the code book, `decode` stops with a bad
      header unless a separator follows the book and another follows the
      eight bytes of length. */
  lemma MissingSeparator(file: seq<uint8>)
    requires SignatureLen <= |file| && file[..SignatureLen] == Signature
    requires !TableOverruns(file) && !BookOverruns(file)
    requires var p := ParseBook(file).1.pos;
      p + 1 + U64 >= |file| || file[p] != GS || file[p + 1 + U64] != GS
    ensures DecodeSpec(file) == BadHeader
  {
    BadSignatureIff(file);
    if DecodeHeader(file).HeaderOk? {
      HeaderOkShape(file);
    }
  }

  /** What a file `decode` accepts holds: the header checks pass, the
      stream ends at a separator, and the eight bytes of the bit count
      follow it. */
  lemma DecodedShape(file: seq<uint8>)
    requires DecodeSpec(file).Decoded?
    ensures SignatureLen <= |file| && file[..SignatureLen] == Signature
    ensures !TableOverruns(file) && !BookOverruns(file)
    ensures var p := ParseBook(file).1.pos;
      && p + 1 + U64 < |file| && file[p] == GS && file[p + 1 + U64] == GS
      && var k := StreamEnd(file, p + 2 + U64);
      && k < |file| && file[k] == GS && k + 1 + U64 <= |file|
  {
    var h := DecodeHeader(file);
    DecodedHeader(file);
    HeaderOkShape(file);
    BodyDecodedShape(file, h.table, h.originLen, h.next);
  }

  /** A stream part that decodes ends at a separator followed by the eight
      bytes of the bit count. */
  lemma BodyDecodedShape(file: seq<uint8>, table: seq<CodeTable>, originLen: nat, c: Cursor)
    requires c.pos <= |file| && DecodeBody(file, table, originLen, c).Decoded?
    ensures var k := StreamEnd(file, c.pos);
      k < |file| && file[k] == GS && k + 1 + U64 <= |file|
  {
    var k := StreamEnd(file, c.pos);
    AfterStreamAt(file, c, k);
    var total := ReadAt(file, AfterStream(file, c), U64);
    assert !total.1.eof;
  }
  /** The header `compress` writes reads back as the code book and length
      it was written from, and leaves the file at the stream. */
  lemma HeaderOfContainer(table: seq<CodeTable>, n: nat, rest: seq<uint8>)
    requires |table| < WrapCount && n < Pow2(64)
    requires forall e :: e in table ==> e.numBits <= 32 && e.code < Pow2(e.numBits)
    ensures DecodeHeader(Header(table, n) + rest) == HeaderOk(table, n, Cursor(|Header(table, n)|, false))
  {
    var file := Header(table, n) + rest;
    var count, book, len := LE(|table|, U64), BookBytes(table), LE(n, U64);
    var pre := Signature + count + book;
    RegroupHeader(Signature, count, book, [GS], len, [GS], rest);
    ReadExact([], Signature, count + book + [GS] + len + [GS] + rest, false);
    StorableOf(table);
    Pow2Wide();
    HeaderTableIff(table, n, rest);
    ParseBookOfHeader(table, n, rest);
    ReadExact(pre, [GS], len + [GS] + rest, false);
    ReadExact(pre + [GS], len, [GS] + rest, false);
    FromLEOfLE(n, U64);
    ReadExact(pre + [GS] + len, [GS], rest, false);
  }

  /** A header `compress` writes for a book of 2^61 or more entries makes
      `read_codebook` store past its table: `decode` stops there. */
  lemma HugeBookStops(table: seq<CodeTable>, n: nat, rest: seq<uint8>)
    requires WrapCount <= |table| < TWO_64
    requires forall e :: e in table ==> e.numBits <= 32 && e.code < Pow2(e.numBits)
    ensures DecodeSpec(Header(table, n) + rest) == TableOverrun
  {
    var file := Header(table, n) + rest;
    StorableOf(table);
    Pow2Wide();
    HeaderTableIff(table, n, rest);
    assert file[..SignatureLen] == Signature;
    TableOverrunStops(file);
  }

  lemma RegroupHeader<T>(a: seq<T>, b: seq<T>, c: seq<T>, d: seq<T>, e: seq<T>, f: seq<T>, g: seq<T>)
    ensures a + b + c + d + e + f + g == [] + a + (b + c + d + e + f + g)
    ensures a + b + c + d + e + f + g == a + b + c + d + (e + f + g)
    ensures a + b + c + d + e + f + g == a + b + c + d + e + (f + g)
  {
  }

  /** The stream ends at the first separator. */
  lemma {:induction false} StreamEndIs(data: seq<uint8>, pos: nat, k: nat)
    requires pos <= k < |data| && data[k] == GS
    requires forall j :: pos <= j < k ==> data[j] != GS
    ensures StreamEnd(data, pos) == k
    decreases k - pos
  {
    if pos < k {
      StreamEndIs(data, pos + 1, k);
    }
  }

  /** The file `compress` writes, cut at the stream and the trailer. */
  lemma ContainerSplit(table: seq<CodeTable>, buf: seq<uint8>)
    ensures var bits := StreamBits(table, buf);
      Container.Container(table, buf) == Header(table, |buf|) + FullBytes(bits) + [GS] + LE(|bits|, U64) + []
  {
  }

  /** In the file `compress` writes, the stream runs from the end of the
      header to the separator before the bit count, when none of its bytes
      is a separator; the bit count after it is read in full. */
  lemma StreamOfContainer(table: seq<CodeTable>, buf: seq<uint8>)
    requires GS !in FullBytes(StreamBits(table, buf))
    ensures var file, start := Container.Container(table, buf), |Header(table, |buf|)|;
      var end := start + |FullBytes(StreamBits(table, buf))|;
      && end < |file|
      && StreamEnd(file, start) == end
      && file[start..end] == FullBytes(StreamBits(table, buf))
      && AfterStream(file, Cursor(start, false)) == Cursor(end + 1, false)
      && !ReadAt(file, Cursor(end + 1, false), U64).1.eof
  {
    var bits := StreamBits(table, buf);
    ContainerSplit(table, buf);
    StreamBetween(Header(table, |buf|), FullBytes(bits), LE(|bits|, U64));
  }

  /** A stream with no separator in it, then a separator and eight more
      bytes. */
  lemma StreamBetween(head: seq<uint8>, body: seq<uint8>, count: seq<uint8>)
    requires GS !in body && |count| == U64
    ensures var file, start, end := head + body + [GS] + count + [], |head|, |head| + |body|;
      && end < |file|
      && StreamEnd(file, start) == end
      && file[start..end] == body
      && AfterStream(file, Cursor(start, false)) == Cursor(end + 1, false)
      && !ReadAt(file, Cursor(end + 1, false), U64).1.eof
  {
    var file := head + body + [GS] + count + [];
    var start, end := |head|, |head| + |body|;
    assert file[start..end] == body;
    assert forall j :: start <= j < end ==> file[j] == body[j - start];
    StreamEndIs(file, start, end);
    AfterStreamAt(file, Cursor(start, false), end);
    ReadExact(head + body + [GS], count, [], false);
  }

  /** The stream `compress` writes, when it is made of whole bytes none of
      which is a separator, decodes to the input, and the bit count after
      it is read in full. */
  lemma BodyOfContainer(table: seq<CodeTable>, buf: seq<uint8>)
    requires PrefixFree(table) && Canonical(table) && |table| < 256
    requires forall e :: e in table ==> 1 <= e.numBits <= 32
    requires forall i :: 0 <= i < |buf| ==> FindSymbol(table, buf[i]).Hit?
    requires |StreamBits(table, buf)| % 8 == 0 && GS !in FullBytes(StreamBits(table, buf))
    ensures DecodeBody(Container.Container(table, buf), table, |buf|, Cursor(|Header(table, |buf|)|, false)) == Decoded(buf)
  {
    var file, start := Container.Container(table, buf), |Header(table, |buf|)|;
    var end := start + |FullBytes(StreamBits(table, buf))|;
    StreamOfContainer(table, buf);
    FeedStream(table, buf, file, start, end);
    BodyAt(file, table, buf, start, end);
  }

  /** The stream part of `decode`, in any file: a stream that decodes to
      `buf` and is followed by a separator and a full bit count. */
  lemma BodyAt(file: seq<uint8>, table: seq<CodeTable>, buf: seq<uint8>, start: nat, end: nat)
    requires start <= end < |file| && StreamEnd(file, start) == end
    requires FeedFrom(table, |buf|, file, start, end) == Next(ReadState(0, 0, buf))
    requires AfterStream(file, Cursor(start, false)) == Cursor(end + 1, false)
    requires !ReadAt(file, Cursor(end + 1, false), U64).1.eof
    ensures DecodeBody(file, table, |buf|, Cursor(start, false)) == Decoded(buf)
  {
  }

  /** The bytes of the stream, wherever they stand in the file, decode to
      the input. */
  lemma FeedStream(table: seq<CodeTable>, buf: seq<uint8>, file: seq<uint8>, start: nat, end: nat)
    requires PrefixFree(table) && Canonical(table) && |table| < 256
    requires forall e :: e in table ==> 1 <= e.numBits <= 32
    requires forall i :: 0 <= i < |buf| ==> FindSymbol(table, buf[i]).Hit?
    requires |StreamBits(table, buf)| % 8 == 0
    requires start <= end <= |file| && file[start..end] == FullBytes(StreamBits(table, buf))
    ensures FeedFrom(table, |buf|, file, start, end) == Next(ReadState(0, 0, buf))
  {
    FeedFromIsBits(table, |buf|, file, start, end);
    WholeBytes(StreamBits(table, buf));
    ReadBack(table, |buf|, buf, []);
    assert [] + buf == buf;
  }

  /** Decoding the file `compress` writes for `buf` gives `buf` back, when
      the code book is prefix free with codes of 1 to 32 bits and fewer than
      256 entries, every byte of `buf` has an entry, the stream fills whole
      bytes and none of its bytes is a GROUP_SEPARATOR. */
  lemma ContainerRoundTrip(table: seq<CodeTable>, buf: seq<uint8>)
    requires PrefixFree(table) && Canonical(table) && |table| < 256
    requires forall e :: e in table ==> 1 <= e.numBits <= 32
    requires forall i :: 0 <= i < |buf| ==> FindSymbol(table, buf[i]).Hit?
    requires |StreamBits(table, buf)| % 8 == 0 && GS !in FullBytes(StreamBits(table, buf))
    requires |buf| < Pow2(64)
    ensures DecodeSpec(Container.Container(table, buf)) == Decoded(buf)
  {
    var file := Container.Container(table, buf);
    HeaderOfContainer(table, |buf|, Trailer(StreamBits(table, buf)));
    BodyOfContainer(table, buf);
    SpecOfHeader(file, table, |buf|, Cursor(|Header(table, |buf|)|, false));
  }
}
