/**
 * The bit-level output of the encoder: `write_bit` packs bits most
 * significant first into a byte held in static variables and writes the
 * byte once it is full; `write_code` sends an entry's code bit by bit.
 */
module BitWriter {
  import opened Binary
  import opened CodeBook

  /** The bytes a bit string fills completely, eight bits each, most
      significant bit first. */
  function FullBytes(bs: seq<bit>): (r: seq<uint8>)
    ensures 8 * |r| <= |bs| < 8 * |r| + 8
    decreases |bs|
  {
    if |bs| < 8 then [] else [Value(bs[..8])] + FullBytes(bs[8..])
  }

  /** The bits after the last complete byte. */
  function Leftover(bs: seq<bit>): (r: seq<bit>)
    ensures |r| < 8 && |r| <= |bs|
    decreases |bs|
  {
    if |bs| < 8 then bs else Leftover(bs[8..])
  }

  /** The bits of a byte sequence, each byte most significant bit first:
      what the decoder's inner loop extracts with `(byte & 1 << i) >> i`. */
  function Unpack(bytes: seq<uint8>): (r: seq<bit>)
    ensures |r| == 8 * |bytes|
  {
    if bytes == [] then [] else Bits(bytes[0], 8) + Unpack(bytes[1..])
  }

  lemma {:induction false} UnpackConcat(a: seq<uint8>, b: seq<uint8>)
    ensures Unpack(a + b) == Unpack(a) + Unpack(b)
  {
    if a == [] {
      assert a + b == b;
    } else {
      assert (a + b)[1..] == a[1..] + b;
      UnpackConcat(a[1..], b);
    }
  }

  /** The full bytes unpacked, followed by the leftover bits, are the
      original bits: nothing is reordered or changed, only the tail is held
      back. */
  lemma {:induction false} UnpackFullBytes(bs: seq<bit>)
    ensures Unpack(FullBytes(bs)) + Leftover(bs) == bs
    decreases |bs|
  {
    if |bs| >= 8 {
      UnpackFullBytes(bs[8..]);
      BitsOfValue(bs[..8]);
      assert FullBytes(bs)[1..] == FullBytes(bs[8..]);
      assert bs == bs[..8] + bs[8..];
    }
  }

  /** A bit string of whole bytes is all in the full bytes. */
  lemma WholeBytes(bs: seq<bit>)
    requires |bs| % 8 == 0
    ensures Unpack(FullBytes(bs)) == bs && Leftover(bs) == []
  {
    UnpackFullBytes(bs);
    var m, r := |FullBytes(bs)|, |Leftover(bs)|;
    assert |bs| == 8 * m + r;
    DivUnique(|bs|, 8, m, r);
  }

  /** Appending bits: the full bytes so far stay, and the new bits join
      the leftover ones. */
  lemma {:induction false} FullBytesAppend(bs: seq<bit>, more: seq<bit>)
    ensures FullBytes(bs + more) == FullBytes(bs) + FullBytes(Leftover(bs) + more)
    ensures Leftover(bs + more) == Leftover(Leftover(bs) + more)
    decreases |bs|
  {
    if |bs| >= 8 {
      assert (bs + more)[..8] == bs[..8];
      assert (bs + more)[8..] == bs[8..] + more;
      FullBytesAppend(bs[8..], more);
    }
  }

  /** `v << k`, by repeated doubling. */
  function Shifted(v: nat, k: nat): nat {
    if k == 0 then v else 2 * Shifted(v, k - 1)
  }

  lemma {:induction false} ShiftedIs(v: nat, k: nat)
    ensures Shifted(v, k) == v * Pow2(k)
  {
    if k > 0 {
      ShiftedIs(v, k - 1);
    }
  }

  /** Or-ing bit `b` in at position `k - 1` of a byte whose top `8 - k`
      bits are `p` and whose other bits are clear puts `b` after `p`. */
  lemma OrBit(p: seq<bit>, b: bit, k: nat)
    requires 1 <= k && |p| + k == 8
    ensures Shifted(Value(p), k) + b * Pow2(k - 1) == Shifted(Value(p + [b]), k - 1)
    ensures Shifted(Value(p + [b]), k - 1) < 0x100
  {
    ValueAppend(p, b);
    ShiftedIs(Value(p), k);
    ShiftedIs(Value(p + [b]), k - 1);
    var q := Pow2(k - 1);
    var u, v := Value(p), Value(p + [b]);
    assert Pow2(k) == 2 * q;
    assert v == 2 * u + b;
    ShiftIn(u, b, q);
    Pow2Add(|p| + 1, k - 1);
    assert Pow2(|p| + 1) * q == Pow2(8);
    Pow2Values();
    MulStrict(v, Pow2(|p| + 1), q);
  }

  lemma ShiftIn(u: int, b: int, q: int)
    ensures u * (2 * q) + b * q == (2 * u + b) * q
  {
  }

  /** Bit `i` of an entry's code, counted from the most significant:
      `(code >> (num_bits - i - 1)) & 1` in `write_code`. */
  function CodeBit(e: CodeTable, i: nat): (b: bit)
    requires i < e.numBits
    ensures b == CodeBits(e)[i]
  {
    BitAt(e.code, e.numBits, i);
    e.code / Pow2(e.numBits - i - 1) % 2
  }

  /** Sending bit `i` of `code` after `p0` and the bits before it. */
  lemma AppendBit(p0: seq<bit>, code: seq<bit>, i: nat)
    requires i < |code|
    ensures FullBytes(p0 + code[..i + 1]) == FullBytes(p0 + code[..i]) + FullBytes(Leftover(p0 + code[..i]) + [code[i]])
    ensures Leftover(p0 + code[..i + 1]) == Leftover(Leftover(p0 + code[..i]) + [code[i]])
  {
    assert p0 + code[..i + 1] == (p0 + code[..i]) + [code[i]];
    FullBytesAppend(p0 + code[..i], [code[i]]);
  }

  /** The static state of `write_bit` and the file it writes to.
      `pending` (ghost) is the bits already or-ed into `byte`; `bitIdx` is
      the position of the next bit, counted from the least significant. */
  class Writer {
    var out: seq<uint8>
    var byte: uint8
    var bitIdx: nat
    ghost var pending: seq<bit>

    ghost predicate Valid()
      reads this`bitIdx, this`byte, this`pending
    {
      && 1 <= bitIdx <= 8
      && |pending| == 8 - bitIdx
      && byte == Shifted(Value(pending), bitIdx)
    }

    /** The state at program start: `byte = 0x00`, `bit_idx = 8`, nothing
        written yet. */
    constructor ()
      ensures Valid() && out == [] && pending == []
    {
      out := [];
      byte := 0;
      bitIdx := 8;
      pending := [];
    }

    /** `fwrite` of raw bytes to the same file. */
    method WriteBytes(bytes: seq<uint8>)
      modifies this`out
      ensures out == old(out) + bytes
    {
      out := out + bytes;
    }

    /** `write_bit` (huffman.c): the bit is or-ed in at `--bit_idx`, which
        is still clear, so the or is an addition; at index 0 the byte is
        written and the state reset. */
    method WriteBit(b: bit)
      requires Valid()
      modifies this
      ensures Valid()
      ensures out == old(out) + FullBytes(old(pending) + [b])
      ensures pending == Leftover(old(pending) + [b])
    {
      var p := pending + [b];
      OrBit(pending, b, bitIdx);
      bitIdx := bitIdx - 1;
      byte := byte + b * Pow2(bitIdx);
      pending := p;
      if bitIdx == 0 {
        assert p[..8] == p && p[8..] == [];
        out := out + [byte];
        byte := 0;
        bitIdx := 8;
        pending := [];
      }
    }

    /** `write_code` (huffman.c): bit `num_bits - i - 1` of the code for
        `i` from 0, i.e. the code's bits most significant first. Shifts of
        32 or more are undefined in C, hence the bound on the length. */
    method WriteCode(e: CodeTable)
      requires Valid() && e.numBits <= 32
      modifies this
      ensures Valid()
      ensures out == old(out) + FullBytes(old(pending) + CodeBits(e))
      ensures pending == Leftover(old(pending) + CodeBits(e))
    {
      ghost var p0 := pending;
      var code := CodeBits(e);
      for i := 0 to e.numBits
        invariant Valid()
        invariant out == old(out) + FullBytes(p0 + code[..i])
        invariant pending == Leftover(p0 + code[..i])
      {
        var b := CodeBit(e, i);
        AppendBit(p0, code, i);
        WriteBit(b);
      }
      assert code[..e.numBits] == code;
    }
  }
}
