/**
 Bits and bytes as the driver sees them: Python integers shifted and masked one
 bit at a time. Python's `//` and `%` by a positive divisor round toward minus
 infinity, which is exactly what Dafny's Euclidean `/` and `%` do for a positive
 divisor, so the definitions below hold for negative integers too.
 */
module Bits {

  /** A single data-line level: 0 (low) or 1 (high). */
  type Bit = b: int | 0 <= b <= 1

  /** An 8-bit value as it travels over the wire. */
  type Byte = b: int | 0 <= b < 256

  function Pow2(n: nat): (r: nat)
    ensures r >= 1
  {
    if n == 0 then 1 else 2 * Pow2(n - 1)
  }

  /** Python's `(x >> i) & 1`: shift right by `i` (floor halving `i` times), keep the low bit. */
  function BitOf(x: int, i: nat): (b: Bit)
    ensures b == (x / Pow2(i)) % 2
    decreases i
  {
    if i == 0 then x % 2
    else
      HalveThenDivide(x, Pow2(i - 1));
      BitOf(x / 2, i - 1)
  }

  /** Halving and then dividing by `m` is dividing by `2 * m`: `(x >> 1) >> k` is `x >> (k + 1)`. */
  lemma HalveThenDivide(x: int, m: int)
    requires m >= 1
    ensures (x / 2) / m == x / (2 * m)
  {
    var q, r := x / 2, x % 2;
    var k, s := q / m, q % m;
    assert x == 2 * q + r && q == m * k + s;
    assert 2 * (m * k) == (2 * m) * k;
    DivModUnique(x, 2 * m, k, 2 * s + r);
  }

  /** The value of a bit string read least-significant bit first. */
  function FromBits(bs: seq<Bit>): (r: nat)
    ensures r < Pow2(|bs|)
  {
    if |bs| == 0 then 0 else bs[0] + 2 * FromBits(bs[1..])
  }

  /** The low `n` bits of `x`, least-significant first. */
  function ToBits(x: int, n: nat): (bs: seq<Bit>)
    ensures |bs| == n
  {
    seq(n, i requires 0 <= i => BitOf(x, i))
  }

  /** The low `n` bits of `x` are its lowest bit followed by the low `n - 1` bits of `x / 2`. */
  lemma ToBitsCons(x: int, n: nat)
    requires n > 0
    ensures ToBits(x, n) == [x % 2] + ToBits(x / 2, n - 1)
  {
    assert forall i :: 1 <= i < n ==> ToBits(x, n)[i] == ToBits(x / 2, n - 1)[i - 1];
  }

  /** Eight bits spell a byte. */
  lemma ByteBound(bs: seq<Bit>)
    requires |bs| == 8
    ensures FromBits(bs) < 256
  {
    assert Pow2(8) == 256;
  }

  /** The low `n` bits of Python's `a & b`, taken bit by bit. */
  function AndBits(a: int, b: int, n: nat): nat
    decreases n
  {
    if n == 0 then 0 else (a % 2) * (b % 2) + 2 * AndBits(a / 2, b / 2, n - 1)
  }

  /** The low `n` bits of Python's `a | b`, taken bit by bit. */
  function OrBits(a: int, b: int, n: nat): nat
    decreases n
  {
    if n == 0 then 0 else (if a % 2 == 1 || b % 2 == 1 then 1 else 0) + 2 * OrBits(a / 2, b / 2, n - 1)
  }

  /** Python's `a & b` on two bytes: a byte whose every bit is set exactly when it is set in both. */
  function And(a: Byte, b: Byte): (r: int)
    ensures 0 <= r < 256
    ensures forall i :: 0 <= i < 8 ==> BitOf(r, i) == BitOf(a, i) * BitOf(b, i)
  {
    AndIsBitwise(a, b, 8);
    assert Pow2(8) == 256;
    AndBits(a, b, 8)
  }

  /** Python's `a | b` on two bytes: a byte whose every bit is set exactly when it is set in either. */
  function Or(a: Byte, b: Byte): (r: int)
    ensures 0 <= r < 256
    ensures forall i :: 0 <= i < 8 ==> BitOf(r, i) == (if BitOf(a, i) == 1 || BitOf(b, i) == 1 then 1 else 0)
  {
    OrIsBitwise(a, b, 8);
    assert Pow2(8) == 256;
    OrBits(a, b, 8)
  }

  /** `AndBits(a, b, n)` is below `2^n`, and each of its `n` bits is the product of the operands' bits. */
  lemma AndIsBitwise(a: int, b: int, n: nat)
    ensures AndBits(a, b, n) < Pow2(n)
    ensures forall i :: 0 <= i < n ==> BitOf(AndBits(a, b, n), i) == BitOf(a, i) * BitOf(b, i)
  {
    AndBitsBound(a, b, n);
    forall i | 0 <= i < n
      ensures BitOf(AndBits(a, b, n), i) == BitOf(a, i) * BitOf(b, i)
    {
      AndBitsBit(a, b, n, i);
    }
  }

  /** `OrBits(a, b, n)` is below `2^n`, and each of its `n` bits is set when either operand's is. */
  lemma OrIsBitwise(a: int, b: int, n: nat)
    ensures OrBits(a, b, n) < Pow2(n)
    ensures forall i :: 0 <= i < n ==> BitOf(OrBits(a, b, n), i) == (if BitOf(a, i) == 1 || BitOf(b, i) == 1 then 1 else 0)
  {
    OrBitsBound(a, b, n);
    forall i | 0 <= i < n
      ensures BitOf(OrBits(a, b, n), i) == (if BitOf(a, i) == 1 || BitOf(b, i) == 1 then 1 else 0)
    {
      OrBitsBit(a, b, n, i);
    }
  }

  lemma {:induction false} AndBitsBound(a: int, b: int, n: nat)
    ensures AndBits(a, b, n) < Pow2(n)
    decreases n
  {
    if n > 0 {
      AndBitsBound(a / 2, b / 2, n - 1);
    }
  }

  lemma {:induction false} OrBitsBound(a: int, b: int, n: nat)
    ensures OrBits(a, b, n) < Pow2(n)
    decreases n
  {
    if n > 0 {
      OrBitsBound(a / 2, b / 2, n - 1);
    }
  }

  /** Bit `i` of `AndBits(a, b, n)`, for `i < n`, is bit `i` of `a` times bit `i` of `b`. */
  lemma {:induction false} AndBitsBit(a: int, b: int, n: nat, i: nat)
    requires i < n
    ensures BitOf(AndBits(a, b, n), i) == BitOf(a, i) * BitOf(b, i)
    decreases i
  {
    var c := (a % 2) * (b % 2);
    var k := AndBits(a / 2, b / 2, n - 1);
    DivModUnique(c + 2 * k, 2, k, c);
    if i > 0 {
      AndBitsBit(a / 2, b / 2, n - 1, i - 1);
    }
  }

  /** Bit `i` of `OrBits(a, b, n)`, for `i < n`, is set exactly when bit `i` of `a` or of `b` is. */
  lemma {:induction false} OrBitsBit(a: int, b: int, n: nat, i: nat)
    requires i < n
    ensures BitOf(OrBits(a, b, n), i) == (if BitOf(a, i) == 1 || BitOf(b, i) == 1 then 1 else 0)
    decreases i
  {
    var c := if a % 2 == 1 || b % 2 == 1 then 1 else 0;
    var k := OrBits(a / 2, b / 2, n - 1);
    DivModUnique(c + 2 * k, 2, k, c);
    if i > 0 {
      OrBitsBit(a / 2, b / 2, n - 1, i - 1);
    }
  }

  /** Masking with `2^(n-1) - 1` keeps the bits below the top one of `n`. */
  lemma {:induction false} AndBelowTop(a: int, n: nat)
    requires n >= 1
    ensures AndBits(a, Pow2(n - 1) - 1, n) == a % Pow2(n - 1)
    decreases n
  {
    if n > 1 {
      var m := Pow2(n - 1) - 1;
      assert m % 2 == 1 && m / 2 == Pow2(n - 2) - 1;
      AndBelowTop(a / 2, n - 1);
      HalfMod(a, Pow2(n - 2));
    }
  }

  /** Or-ing with `2^(n-1)` sets the top one of `n` bits and keeps those below it. */
  lemma {:induction false} OrTop(a: int, n: nat)
    requires n >= 1
    ensures OrBits(a, Pow2(n - 1), n) == a % Pow2(n - 1) + Pow2(n - 1)
    decreases n
  {
    if n > 1 {
      var m := Pow2(n - 1);
      assert m % 2 == 0 && m / 2 == Pow2(n - 2);
      OrTop(a / 2, n - 1);
      HalfMod(a, Pow2(n - 2));
    }
  }

  /**
   Or-ing a value below `2^i` with a bit shifted to position `i` adds the two:
   their bits are disjoint. Both operands are below `2^(i+1)`, so the low
   `i + 1` bits are the whole of Python's `d | (b << i)`.
   */
  lemma {:induction false} OrDisjoint(d: int, b: Bit, i: nat)
    requires 0 <= d < Pow2(i)
    ensures OrBits(d, b * Pow2(i), i + 1) == d + b * Pow2(i)
    decreases i
  {
    if i > 0 {
      var h := b * Pow2(i - 1);
      assert b * Pow2(i) == 2 * h;
      assert (2 * h) % 2 == 0 && (2 * h) / 2 == h;
      OrDisjoint(d / 2, b, i - 1);
      assert d == 2 * (d / 2) + d % 2;
    }
  }

  /** `t | 0x80` sets bit 7 and keeps bits 0-6. */
  lemma OrHighBit(t: Byte)
    ensures Or(t, 0x80) == t % 128 + 128
    ensures 128 <= Or(t, 0x80) < 256 && Or(t, 0x80) % 256 == Or(t, 0x80)
    ensures Or(t, 0x80) % 128 == t % 128
  {
    assert Pow2(7) == 0x80;
    OrTop(t, 8);
  }

  /** `t & 0x7f` clears bit 7 and keeps bits 0-6. */
  lemma AndLowBits(t: Byte)
    ensures And(t, 0x7F) == t % 128
    ensures 0 <= And(t, 0x7F) < 128 && And(t, 0x7F) % 256 == And(t, 0x7F)
    ensures And(t, 0x7F) % 128 == t % 128
  {
    assert Pow2(7) == 0x80;
    AndBelowTop(t, 8);
    var v := t % 128;
    DivModUnique(v, 256, 0, v);
    DivModUnique(v, 128, 0, v);
  }

  /** A value below 128 is determined by its low seven bits; a byte below 128 is its own low seven bits. */
  lemma LowSeven(x: Byte, s: Byte)
    requires s < 128 && s % 128 == x % 128
    ensures s == x % 128
    ensures x < 128 ==> s == x
  {
    DivModUnique(s, 128, 0, s);
    if x < 128 {
      DivModUnique(x, 128, 0, x);
    }
  }

  /** Taking `x / 2` and then reducing modulo `m` is the same as reducing `x` modulo `2 * m` first. */
  lemma HalfMod(x: int, m: nat)
    requires m >= 1
    ensures x % (2 * m) == x % 2 + 2 * ((x / 2) % m)
  {
    var q := x / 2;
    var r := x % 2;
    var k := q / m;
    var s := q % m;
    assert x == 2 * q + r;
    assert q == m * k + s;
    assert x == (2 * m) * k + (2 * s + r);
    assert 0 <= 2 * s + r < 2 * m;
    DivModUnique(x, 2 * m, k, 2 * s + r);
  }

  /** A byte is its own low byte. */
  lemma LowByte(b: Byte)
    ensures b % 256 == b
  {
    DivModUnique(b, 256, 0, b);
  }

  /** Quotient and remainder are determined by `x == d * k + r` with `0 <= r < d`. */
  lemma DivModUnique(x: int, d: int, k: int, r: int)
    requires d > 0 && 0 <= r < d && x == d * k + r
    ensures x / d == k && x % d == r
  {
    var k' := x / d;
    if k > k' {
      MulAtLeast(d, k - k');
    } else if k < k' {
      MulAtLeast(d, k' - k);
    }
  }

  lemma MulAtLeast(d: int, j: int)
    requires d > 0 && j >= 1
    ensures d * j >= d
  {
    assert d * j == d + d * (j - 1);
  }

  /** Reading back the low `n` bits of `x` gives `x` modulo `2^n`: the bit-level round trip. */
  lemma {:induction false} FromToBits(x: int, n: nat)
    ensures FromBits(ToBits(x, n)) == x % Pow2(n)
    decreases n
  {
    if n == 0 {
    } else {
      FromToBits(x / 2, n - 1);
      ToBitsCons(x, n);
      assert ToBits(x, n)[1..] == ToBits(x / 2, n - 1);
      HalfMod(x, Pow2(n - 1));
    }
  }

  /** The eight bits of a byte read back give the byte. */
  lemma ByteBitsRoundTrip(v: Byte)
    ensures FromBits(ToBits(v, 8)) == v
  {
    FromToBits(v, 8);
    assert Pow2(8) == 256;
  }

  /** Decoding a bit string and splitting it again gives back the same bits. */
  lemma {:induction false} ToFromBits(bs: seq<Bit>)
    ensures ToBits(FromBits(bs), |bs|) == bs
  {
    if |bs| > 0 {
      var x := FromBits(bs);
      ToFromBits(bs[1..]);
      ToBitsCons(x, |bs|);
      assert x % 2 == bs[0] && x / 2 == FromBits(bs[1..]);
    }
  }
}
