/** Bits, bytes and the arithmetic that relates them.

    A bit string is a `seq<bool>` read most-significant-bit first, the order
    in which the writer packs and the reader unpacks bits. */
module Bits {

  /** An unsigned 8-bit integer (`u8`). */
  type Byte = b: int | 0 <= b < 256

  /** A bit handed to the writer as a `u8` that is 0 or 1. */
  type Bit = b: int | 0 <= b < 2

  /** The number of values of a `u32`; arithmetic on `u32` wraps modulo it. */
  const U32: nat := 0x1_0000_0000

  lemma U32IsPow2()
    ensures Pow2(32) == U32
  {
    assert Pow2(8) == 256;
    Pow2Add(8, 8);
    Pow2Add(16, 16);
  }

  function Pow2(n: nat): (p: nat)
    ensures p >= 1
  {
    if n == 0 then 1 else 2 * Pow2(n - 1)
  }

  lemma {:induction false} Pow2Add(a: nat, b: nat)
    ensures Pow2(a + b) == Pow2(a) * Pow2(b)
  {
    if b > 0 {
      Pow2Add(a, b - 1);
      calc {
        Pow2(a + b);
        2 * Pow2(a + b - 1);
        2 * (Pow2(a) * Pow2(b - 1));
        Pow2(a) * (2 * Pow2(b - 1));
      }
    }
  }

  lemma {:induction false} Pow2Monotone(a: nat, b: nat)
    requires a <= b
    ensures Pow2(a) <= Pow2(b)
  {
    if a < b {
      Pow2Monotone(a, b - 1);
    }
  }

  lemma ValueFits(bs: seq<bool>, n: nat)
    requires |bs| <= n
    ensures BitsValue(bs) < Pow2(n)
    ensures BitsValue(bs) % Pow2(n) == BitsValue(bs)
  {
    Pow2Monotone(|bs|, n);
    SmallMod(BitsValue(bs), Pow2(n));
  }

  /** A value below 2^a shifted left by k stays below 2^(a+k) and shifts
      back exactly. */
  lemma ShiftLeftFits(c: nat, a: nat, k: nat)
    requires c < Pow2(a)
    ensures c * Pow2(k) < Pow2(a + k)
    ensures ShiftRight(c * Pow2(k), k) == c
  {
    Pow2Add(a, k);
    MulLess(c, Pow2(a), Pow2(k));
    DivUnique(c * Pow2(k), Pow2(k), c, 0);
  }

  lemma MulLess(c: nat, p: nat, q: nat)
    requires c < p && q > 0
    ensures c * q < p * q
  {
  }

  /** Euclidean division is determined by any quotient/remainder pair. */
  lemma DivUnique(x: int, m: int, q: int, s: int)
    requires m > 0 && 0 <= s < m && x == q * m + s
    ensures x / m == q && x % m == s
  {
    var q', s' := x / m, x % m;
    assert x == q' * m + s';
    if q' < q {
      assert (q - q') * m == s' - s;
      MulAtLeast(q - q', m);
    } else if q < q' {
      assert (q' - q) * m == s - s';
      MulAtLeast(q' - q, m);
    }
  }

  lemma DivMod(x: int, p: int)
    requires p > 0
    ensures x == x % p + (x / p) * p
  {
  }

  lemma SmallMod(x: int, m: int)
    requires 0 <= x < m
    ensures x % m == x
  {
    DivUnique(x, m, 0, x);
  }

  lemma MulTwo(a: int, p: int)
    ensures a * (2 * p) == 2 * (a * p)
  {
  }

  lemma MulAtLeast(k: int, m: int)
    requires k >= 1 && m > 0
    ensures k * m >= m
  {
  }

  /** Shifting right by `a` and then by `b` is shifting right by `a + b`. */
  lemma DivDiv(x: nat, a: nat, b: nat)
    requires a > 0 && b > 0
    ensures x / a / b == x / (a * b)
  {
    var q, r := x / a, x % a;
    var Q, R := q / b, q % b;
    DivMod(x, a);
    DivMod(q, b);
    Regroup(Q, R, r, a, b);
    DivUnique(x, a * b, Q, R * a + r);
  }

  lemma Regroup(Q: int, R: int, r: int, a: int, b: int)
    requires 0 <= R < b && 0 <= r < a
    ensures (Q * b + R) * a + r == Q * (a * b) + (R * a + r)
    ensures 0 <= R * a + r < a * b
  {
    assert (Q * b + R) * a == Q * (a * b) + R * a;
    MulLeq(R + 1, b, a);
  }

  lemma MulLeq(c: int, d: int, a: int)
    requires 0 <= c <= d && a >= 0
    ensures c * a <= d * a
  {
  }

  /** `x >> i` on an unsigned integer. */
  function ShiftRight(x: nat, i: nat): nat
  {
    NonNegDiv(x, Pow2(i));
    x / Pow2(i)
  }

  lemma ShiftRightZero(x: nat)
    ensures ShiftRight(x, 0) == x
  {
    DivUnique(x, 1, x, 0);
  }

  lemma NonNegDiv(x: nat, p: nat)
    requires p > 0
    ensures x / p >= 0
  {
  }

  /** Taking bit i of x after bits above i extends the window by one. */
  lemma ToBitsShiftStep(x: nat, i: nat, k: nat)
    ensures ToBits(ShiftRight(x, i), k + 1)
         == ToBits(ShiftRight(x, i + 1), k) + [ShiftRight(x, i) % 2 == 1]
  {
    var p := Pow2(i);
    var y := ShiftRight(x, i);
    assert ToBits(y, k + 1) == ToBits(y / 2, k) + [y % 2 == 1];
    DivDiv(x, p, 2);
    assert p * 2 == Pow2(i + 1);
  }

  /** The low `n` bits of `x`, most significant first. */
  function ToBits(x: nat, n: nat): (bs: seq<bool>)
    ensures |bs| == n
  {
    if n == 0 then [] else ToBits(x / 2, n - 1) + [x % 2 == 1]
  }

  /** The number a bit string denotes, read most significant bit first. */
  function BitsValue(bs: seq<bool>): (v: nat)
    ensures v < Pow2(|bs|)
  {
    if bs == [] then 0
    else 2 * BitsValue(bs[..|bs| - 1]) + (if bs[|bs| - 1] then 1 else 0)
  }

  function Zeros(n: nat): (bs: seq<bool>)
    ensures |bs| == n
    ensures forall i :: 0 <= i < n ==> !bs[i]
  {
    seq(n, _ => false)
  }

  lemma {:induction false} ValueOfToBits(x: nat, n: nat)
    requires x < Pow2(n)
    ensures BitsValue(ToBits(x, n)) == x
  {
    if n > 0 {
      ValueOfToBits(x / 2, n - 1);
      assert ToBits(x, n)[..n - 1] == ToBits(x / 2, n - 1);
    }
  }

  lemma {:induction false} ToBitsOfValue(bs: seq<bool>)
    ensures ToBits(BitsValue(bs), |bs|) == bs
  {
    if bs != [] {
      var init := bs[..|bs| - 1];
      ToBitsOfValue(init);
      assert BitsValue(bs) / 2 == BitsValue(init);
      assert bs == init + [bs[|bs| - 1]];
    }
  }

  lemma {:induction false} BitsValueAppend(a: seq<bool>, b: seq<bool>)
    ensures BitsValue(a + b) == BitsValue(a) * Pow2(|b|) + BitsValue(b)
  {
    if b != [] {
      var init := b[..|b| - 1];
      var lb := if b[|b| - 1] then 1 else 0;
      assert (a + b)[..|a + b| - 1] == a + init;
      assert (a + b)[|a + b| - 1] == b[|b| - 1];
      BitsValueAppend(a, init);
      AppendStep(BitsValue(a), Pow2(|init|), BitsValue(init), lb);
    } else {
      assert a + b == a;
    }
  }

  lemma AppendStep(va: nat, p: nat, vi: nat, lb: nat)
    ensures 2 * (va * p + vi) + lb == va * (2 * p) + (2 * vi + lb)
  {
    MulTwo(va, p);
  }

  /** Adding a multiple of 2^n does not change the low n bits. */
  lemma {:induction false} ToBitsAddHigh(x: nat, k: nat, n: nat)
    ensures ToBits(x + k * Pow2(n), n) == ToBits(x, n)
  {
    if n > 0 {
      var y := k * Pow2(n - 1);
      assert k * Pow2(n) == 2 * y;
      assert (x + 2 * y) / 2 == x / 2 + y;
      assert (x + 2 * y) % 2 == x % 2;
      ToBitsAddHigh(x / 2, k, n - 1);
    }
  }

  lemma ToBitsMod(x: nat, n: nat)
    ensures ToBits(x, n) == ToBits(x % Pow2(n), n)
  {
    var p := Pow2(n);
    DivMod(x, p);
    ToBitsAddHigh(x % p, ShiftRight(x, n), n);
  }

  lemma ToBitsValueMod(x: nat, n: nat)
    ensures BitsValue(ToBits(x, n)) == x % Pow2(n)
  {
    ToBitsMod(x, n);
    ValueOfToBits(x % Pow2(n), n);
  }

  /** The first of the low n+1 bits of x is bit n. */
  lemma {:induction false} ToBitsHead(x: nat, n: nat)
    ensures ToBits(x, n + 1) == [(x / Pow2(n)) % 2 == 1] + ToBits(x, n)
  {
    if n > 0 {
      ToBitsHead(x / 2, n - 1);
      DivDiv(x, 2, Pow2(n - 1));
    }
  }

  /** Multiplying by 2^k appends k zero bits. */
  lemma {:induction false} ToBitsShiftLeft(c: nat, p: nat, k: nat)
    ensures ToBits(c * Pow2(k), p + k) == ToBits(c, p) + Zeros(k)
  {
    if k > 0 {
      var y := c * Pow2(k - 1);
      assert c * Pow2(k) == 2 * y;
      ToBitsShiftLeft(c, p, k - 1);
      assert Zeros(k) == Zeros(k - 1) + [false];
    }
  }

  /** The eight bits of a byte, most significant first. */
  function ByteBits(b: Byte): (bs: seq<bool>)
    ensures |bs| == 8
  {
    ToBits(b, 8)
  }

  lemma ByteBitsInjective(a: Byte, b: Byte)
    requires ByteBits(a) == ByteBits(b)
    ensures a == b
  {
    ValueOfToBits(a, 8);
    ValueOfToBits(b, 8);
  }

  /** Shifting a `u8` left by one drops its top bit and appends a zero. */
  lemma ByteShiftLeft(c: Byte)
    ensures ByteBits(c)[0] == (c >= 128)
    ensures ByteBits((2 * c) % 256) == ByteBits(c)[1..] + [false]
  {
    var low := c % 128;
    assert Pow2(7) == 128;
    ByteHead(c);
    ToBitsMod(c, 7);
    ByteDouble(c);
    ToBitsDouble(low, 7);
  }

  lemma ByteHead(c: Byte)
    ensures ByteBits(c) == [c >= 128] + ToBits(c, 7)
  {
    assert Pow2(7) == 128;
    ToBitsHead(c, 7);
    if c >= 128 {
      DivUnique(c, 128, 1, c - 128);
    } else {
      DivUnique(c, 128, 0, c);
    }
  }

  lemma ByteDouble(c: Byte)
    ensures (2 * c) % 256 == 2 * (c % 128)
  {
    if c >= 128 {
      DivUnique(c, 128, 1, c - 128);
      DivUnique(2 * c, 256, 1, 2 * c - 256);
    } else {
      DivUnique(c, 128, 0, c);
      DivUnique(2 * c, 256, 0, 2 * c);
    }
  }

  lemma ToBitsDouble(x: nat, n: nat)
    ensures ToBits(2 * x, n + 1) == ToBits(x, n) + [false]
  {
    DivUnique(2 * x, 2, x, 0);
  }

  /** The bytes of a buffer as one bit string. */
  function Flatten(bytes: seq<Byte>): (bs: seq<bool>)
    ensures |bs| == 8 * |bytes|
  {
    if bytes == [] then [] else Flatten(bytes[..|bytes| - 1]) + ByteBits(bytes[|bytes| - 1])
  }

  lemma {:induction false} FlattenAppend(a: seq<Byte>, b: seq<Byte>)
    ensures Flatten(a + b) == Flatten(a) + Flatten(b)
  {
    if b != [] {
      assert (a + b)[..|a + b| - 1] == a + b[..|b| - 1];
      FlattenAppend(a, b[..|b| - 1]);
    } else {
      assert a + b == a;
    }
  }

  lemma {:induction false} FlattenInjective(a: seq<Byte>, b: seq<Byte>)
    requires Flatten(a) == Flatten(b)
    ensures a == b
  {
    if a != [] {
      var n := |a|;
      assert Flatten(a)[..8 * (n - 1)] == Flatten(a[..n - 1]);
      assert Flatten(b)[..8 * (n - 1)] == Flatten(b[..n - 1]);
      assert Flatten(a)[8 * (n - 1)..] == ByteBits(a[n - 1]);
      assert Flatten(b)[8 * (n - 1)..] == ByteBits(b[n - 1]);
      FlattenInjective(a[..n - 1], b[..n - 1]);
      ByteBitsInjective(a[n - 1], b[n - 1]);
      assert a == a[..n - 1] + [a[n - 1]];
      assert b == b[..n - 1] + [b[n - 1]];
    }
  }

  /** A buffer read as a big-endian number, one byte shifted in at a time. */
  function BytesValue(bytes: seq<Byte>): (v: nat)
    ensures v == BitsValue(Flatten(bytes))
  {
    if bytes == [] then 0
    else
      var init := bytes[..|bytes| - 1];
      var last := bytes[|bytes| - 1];
      BitsValueAppend(Flatten(init), ByteBits(last));
      ValueOfToBits(last, 8);
      assert Pow2(8) == 256;
      BytesValue(init) * 256 + last
  }
}
