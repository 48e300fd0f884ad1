/**
 * Fixed-width integers, bit strings and little-endian byte fields: the
 * arithmetic the Huffman codec does with `uint8_t`, `uint32_t`, `uint64_t`,
 * shifts, masks and `fwrite`/`fread` of native (little-endian) integers.
 */
module Binary {

  type uint8 = x: int | 0 <= x < 0x100
  type uint32 = x: int | 0 <= x < 0x1_0000_0000
  type bit = x: int | 0 <= x < 2

  /** 2^32: `uint32_t` arithmetic is taken modulo this. */
  const TWO_32: nat := 0x1_0000_0000

  function Pow2(n: nat): (r: nat)
    ensures r >= 1
  {
    if n == 0 then 1 else 2 * Pow2(n - 1)
  }

  lemma {:induction false} Pow2Add(a: nat, b: nat)
    ensures Pow2(a + b) == Pow2(a) * Pow2(b)
  {
    if a > 0 {
      Pow2Add(a - 1, b);
    }
  }

  lemma {:induction false} Pow2Monotone(a: nat, b: nat)
    requires a <= b
    ensures Pow2(a) <= Pow2(b)
  {
    if a < b {
      Pow2Monotone(a, b - 1);
    }
  }

  lemma Pow2Values()
    ensures Pow2(1) == 2 && Pow2(8) == 0x100 && Pow2(16) == 0x1_0000
    ensures Pow2(24) == 0x100_0000 && Pow2(32) == TWO_32
  {
    Pow2Add(8, 8);
    Pow2Add(16, 8);
    Pow2Add(16, 16);
  }

  /** Euclidean division is determined by any quotient/remainder pair. */
  lemma DivUnique(n: int, d: int, q: int, r: int)
    requires d > 0 && 0 <= r < d && n == d * q + r
    ensures n / d == q && n % d == r
  {
    var q0, r0 := n / d, n % d;
    assert d * q0 + r0 == d * q + r;
    assert d * (q0 - q) == r - r0;
    if q0 > q {
      MulAtLeast(d, q0 - q);
    } else if q0 < q {
      MulAtLeast(d, q - q0);
    }
  }

  lemma MulAtLeast(d: int, k: int)
    requires d > 0 && k >= 1
    ensures d * k >= d
  {
    assert d * k == d + d * (k - 1);
  }

  lemma MulStrict(a: nat, b: nat, c: nat)
    requires a < b && c > 0
    ensures a * c < b * c
  {
  }

  lemma DivMod(n: int, d: int)
    requires d > 0
    ensures n == d * (n / d) + n % d && 0 <= n % d < d
  {
  }

  lemma Distribute(c: int, p: int, a: int, b: int)
    ensures c * (p * a + b) == (c * p) * a + c * b
  {
  }

  lemma DivDiv2(n: nat, p: nat)
    requires p > 0
    ensures n / 2 / p == n / (2 * p)
  {
    var q, r := n / 2, n % 2;
    var q2, r2 := q / p, q % p;
    assert n == (2 * p) * q2 + (2 * r2 + r);
    DivUnique(n, 2 * p, q2, 2 * r2 + r);
  }

  /** The low `len` bits of `num`, most significant first: what `bitstr`
      prints and what `write_code` sends. */
  function Bits(num: nat, len: nat): (r: seq<bit>)
    ensures |r| == len
  {
    if len == 0 then [] else Bits(num / 2, len - 1) + [num % 2]
  }

  /** The number a bit string spells, most significant bit first. */
  function Value(bs: seq<bit>): (r: nat)
    ensures r < Pow2(|bs|)
  {
    if bs == [] then 0 else 2 * Value(bs[..|bs| - 1]) + bs[|bs| - 1]
  }

  /** Bit `i` (counted from the most significant end) of the low `len` bits
      of `num` is `(num >> (len - 1 - i)) & 1`. */
  lemma {:induction false} BitAt(num: nat, len: nat, i: nat)
    requires i < len
    ensures Bits(num, len)[i] == num / Pow2(len - 1 - i) % 2
  {
    if i < len - 1 {
      BitAt(num / 2, len - 1, i);
      DivDiv2(num, Pow2(len - 2 - i));
    }
  }

  lemma {:induction false} BitsOfValue(bs: seq<bit>)
    ensures Bits(Value(bs), |bs|) == bs
  {
    if bs != [] {
      var init := bs[..|bs| - 1];
      BitsOfValue(init);
      assert Value(bs) / 2 == Value(init);
      assert init + [bs[|bs| - 1]] == bs;
    }
  }

  lemma {:induction false} ValueOfBits(num: nat, len: nat)
    requires num < Pow2(len)
    ensures Value(Bits(num, len)) == num
  {
    if len > 0 {
      ValueOfBits(num / 2, len - 1);
      var bs := Bits(num, len);
      assert bs[..len - 1] == Bits(num / 2, len - 1);
    }
  }

  /** The value of a bit string with one more bit appended. */
  lemma ValueAppend(bs: seq<bit>, b: bit)
    ensures Value(bs + [b]) == 2 * Value(bs) + b
  {
    assert (bs + [b])[..|bs|] == bs;
  }

  /** `n` bytes of `x`, least significant first: `fwrite(&x, 1, n, fp)` of a
      little-endian integer. Only the low `8 * n` bits of `x` are written. */
  function LE(x: nat, n: nat): (r: seq<uint8>)
    ensures |r| == n
  {
    if n == 0 then [] else [x % 0x100] + LE(x / 0x100, n - 1)
  }

  /** The integer `fread` assembles from the bytes it got, least significant
      first; bytes it did not get stay zero. */
  function FromLE(bs: seq<uint8>): (r: nat)
    ensures r < Pow2(8 * |bs|)
  {
    if bs == [] then 0
    else
      Pow2Add(8, 8 * (|bs| - 1));
      Pow2Values();
      bs[0] + 0x100 * FromLE(bs[1..])
  }

  lemma {:induction false} FromLEOfLE(x: nat, n: nat)
    requires x < Pow2(8 * n)
    ensures FromLE(LE(x, n)) == x
  {
    if n > 0 {
      Pow2Add(8, 8 * (n - 1));
      Pow2Values();
      FromLEOfLE(x / 0x100, n - 1);
      assert LE(x, n)[1..] == LE(x / 0x100, n - 1);
    }
  }

  /** Reading back the low bytes of a value recovers it modulo 2^(8n). */
  lemma {:induction false} FromLETruncates(x: nat, n: nat)
    ensures FromLE(LE(x, n)) == x % Pow2(8 * n)
  {
    if n > 0 {
      Pow2Add(8, 8 * (n - 1));
      Pow2Values();
      FromLETruncates(x / 0x100, n - 1);
      assert LE(x, n)[1..] == LE(x / 0x100, n - 1);
      var p := Pow2(8 * (n - 1));
      assert Pow2(8 * n) == 0x100 * p;
      var q, r := x / 0x100, x % 0x100;
      var a, b := q / p, q % p;
      DivMod(q, p);
      assert x == 0x100 * q + r;
      Distribute(0x100, p, a, b);
      assert 0x100 * b + r < 0x100 * p by {
        assert b <= p - 1;
        assert 0x100 * b <= 0x100 * (p - 1);
      }
      DivUnique(x, 0x100 * p, a, 0x100 * b + r);
    }
  }

  function Min(a: nat, b: nat): (r: nat)
    ensures r <= a && r <= b && (r == a || r == b)
  {
    if a <= b then a else b
  }
}
