/**
 Machine words as integers: 32-bit addition with wrap-around, byte order, and the
 bitwise operators, defined bit by bit so that their laws are proved here and not
 left to a bit-vector theory.
 */
module Words {

  const WORD_SIZE: int := 0x1_0000_0000

  type u8 = x: int | 0 <= x < 256
  type u32 = x: int | 0 <= x < 0x1_0000_0000

  function Add32(x: u32, y: u32): u32 {
    (x + y) % WORD_SIZE
  }

  function Sub32(x: u32, y: u32): u32 {
    (x - y) % WORD_SIZE
  }

  function Pow2(k: nat): (r: nat)
    ensures r >= 1
  {
    if k == 0 then 1 else 2 * Pow2(k - 1)
  }

  /** The word built from four octets, `b3` the most significant. */
  function Join(b3: u8, b2: u8, b1: u8, b0: u8): u32 {
    ((b3 * 256 + b2) * 256 + b1) * 256 + b0
  }

  /** Octet `i` of a word, counted from the least significant. */
  function Octet(x: u32, i: nat): u8
    decreases i
  {
    if i == 0 then x % 256 else Octet(x / 256, i - 1)
  }

  /** htonl and ntohl on a little-endian host: the four octets reversed. */
  function Htonl(x: u32): u32 {
    Join(Octet(x, 0), Octet(x, 1), Octet(x, 2), Octet(x, 3))
  }

  lemma {:induction false} JoinOctets(x: u32)
    ensures Join(Octet(x, 3), Octet(x, 2), Octet(x, 1), Octet(x, 0)) == x
  {
    var y := x / 256;
    var z := y / 256;
    var w := z / 256;
    assert Octet(x, 1) == Octet(y, 0) && Octet(x, 2) == Octet(y, 1) && Octet(x, 3) == Octet(y, 2);
    assert Octet(y, 1) == Octet(z, 0) && Octet(y, 2) == Octet(z, 1);
    assert Octet(z, 1) == Octet(w, 0) == w;
  }

  lemma OctetsOfJoin(b3: u8, b2: u8, b1: u8, b0: u8)
    ensures var x := Join(b3, b2, b1, b0);
            Octet(x, 3) == b3 && Octet(x, 2) == b2 && Octet(x, 1) == b1 && Octet(x, 0) == b0
  {
    var x := Join(b3, b2, b1, b0);
    var y := (b3 * 256 + b2) * 256 + b1;
    var z := b3 * 256 + b2;
    assert x / 256 == y && y / 256 == z && z / 256 == b3;
    assert Octet(x, 1) == Octet(y, 0) && Octet(x, 2) == Octet(y, 1) && Octet(x, 3) == Octet(y, 2);
    assert Octet(y, 1) == Octet(z, 0) && Octet(y, 2) == Octet(z, 1);
    assert Octet(z, 1) == Octet(b3, 0);
  }

  lemma HtonlOfJoin(b3: u8, b2: u8, b1: u8, b0: u8)
    ensures Htonl(Join(b3, b2, b1, b0)) == Join(b0, b1, b2, b3)
  {
    hide Join;
    OctetsOfJoin(b3, b2, b1, b0);
  }

  lemma HtonlInvolution(x: u32)
    ensures Htonl(Htonl(x)) == x
  {
    OctetsOfJoin(Octet(x, 0), Octet(x, 1), Octet(x, 2), Octet(x, 3));
    JoinOctets(x);
  }

  datatype BitOp = AndOp | OrOp

  function OneBit(op: BitOp, a: int, b: int): (r: int)
    requires 0 <= a < 2 && 0 <= b < 2
    ensures 0 <= r < 2
  {
    match op
    case AndOp => if a == 1 && b == 1 then 1 else 0
    case OrOp => if a == 1 || b == 1 then 1 else 0
  }

  /** The bitwise operator `op` on naturals, least significant bit first. */
  function Bits(op: BitOp, x: nat, y: nat): nat {
    if x == 0 && y == 0 then 0
    else OneBit(op, x % 2, y % 2) + 2 * Bits(op, x / 2, y / 2)
  }

  lemma {:induction false} BitsBound(op: BitOp, x: nat, y: nat, k: nat)
    requires x < Pow2(k) && y < Pow2(k)
    ensures Bits(op, x, y) < Pow2(k)
  {
    if k > 0 {
      BitsBound(op, x / 2, y / 2, k - 1);
    }
  }

  lemma Pow2Values()
    ensures Pow2(8) == 0x100 && Pow2(16) == 0x1_0000 && Pow2(24) == 0x100_0000 && Pow2(32) == WORD_SIZE
  {
    assert Pow2(4) == 16;
    assert Pow2(8) == 256;
    assert Pow2(12) == 4096;
    assert Pow2(16) == 65536;
    assert Pow2(20) == 1048576;
    assert Pow2(24) == 16777216;
    assert Pow2(28) == 268435456;
  }

  function And(x: u32, y: u32): u32 {
    Pow2Values(); BitsBound(AndOp, x, y, 32); Bits(AndOp, x, y)
  }

  function Or(x: u32, y: u32): u32 {
    Pow2Values(); BitsBound(OrOp, x, y, 32); Bits(OrOp, x, y)
  }

  function Not(x: u32): u32 {
    WORD_SIZE - 1 - x
  }

  lemma BitsUnfold(op: BitOp, x: nat, y: nat, s: nat, t: nat, b: nat, d: nat)
    requires x == 2 * s + b && y == 2 * t + d
    ensures Bits(op, x, y) == OneBit(op, b % 2, d % 2) + 2 * Bits(op, s + b / 2, t + d / 2)
  {
    assert x / 2 == s + b / 2 && y / 2 == t + d / 2 && x % 2 == b % 2 && y % 2 == d % 2;
  }

  lemma DoubleMul(a: nat, h: nat)
    ensures a * (2 * h) == 2 * (a * h)
  {
  }

  /** Bitwise operators work on the high and low parts of a word independently. */
  lemma BitsSplit(op: BitOp, a: nat, b: nat, c: nat, d: nat, k: nat)
    requires b < Pow2(k) && d < Pow2(k)
    ensures Bits(op, a * Pow2(k) + b, c * Pow2(k) + d) == Bits(op, a, c) * Pow2(k) + Bits(op, b, d)
  {
    if k == 0 {
      assert a * 1 == a && c * 1 == c && Bits(op, a, c) * 1 == Bits(op, a, c);
    } else {
      var h := Pow2(k - 1);
      DoubleMul(a, h);
      DoubleMul(c, h);
      DoubleMul(Bits(op, a, c), h);
      BitsUnfold(op, a * Pow2(k) + b, c * Pow2(k) + d, a * h, c * h, b, d);
      BitsUnfold(op, b, d, 0, 0, b, d);
      BitsSplit(op, a, b / 2, c, d / 2, k - 1);
    }
  }

  lemma {:induction false} BitsOctets(op: BitOp, a3: u8, a2: u8, a1: u8, a0: u8, c3: u8, c2: u8, c1: u8, c0: u8)
    ensures Bits(op, a3, c3) < 256 && Bits(op, a2, c2) < 256 && Bits(op, a1, c1) < 256 && Bits(op, a0, c0) < 256
    ensures Bits(op, Join(a3, a2, a1, a0), Join(c3, c2, c1, c0))
         == Join(Bits(op, a3, c3), Bits(op, a2, c2), Bits(op, a1, c1), Bits(op, a0, c0))
  {
    hide Bits;
    Pow2Values();
    BitsBound(op, a3, c3, 8);
    BitsBound(op, a2, c2, 8);
    BitsBound(op, a1, c1, 8);
    BitsBound(op, a0, c0, 8);
    BitsSplit(op, a3 * 256 + a2, a1, c3 * 256 + c2, c1, 8);
    BitsSplit(op, a3, a2, c3, c2, 8);
    BitsSplit(op, (a3 * 256 + a2) * 256 + a1, a0, (c3 * 256 + c2) * 256 + c1, c0, 8);
    assert Join(a3, a2, a1, a0) == ((a3 * 256 + a2) * 256 + a1) * 256 + a0;
    assert Join(c3, c2, c1, c0) == ((c3 * 256 + c2) * 256 + c1) * 256 + c0;
  }

  /** Byte order does not matter to the bitwise operators. */
  lemma {:induction false} BitsHtonl(op: BitOp, x: u32, y: u32)
    ensures Bits(op, x, y) < WORD_SIZE
    ensures Bits(op, Htonl(x), Htonl(y)) == Htonl(Bits(op, x, y))
  {
    Pow2Values();
    BitsBound(op, x, y, 32);
    JoinOctets(x);
    JoinOctets(y);
    hide Bits, Octet, Join, Pow2;
    var x0, x1, x2, x3 := Octet(x, 0), Octet(x, 1), Octet(x, 2), Octet(x, 3);
    var y0, y1, y2, y3 := Octet(y, 0), Octet(y, 1), Octet(y, 2), Octet(y, 3);
    BitsOctets(op, x3, x2, x1, x0, y3, y2, y1, y0);
    BitsOctets(op, x0, x1, x2, x3, y0, y1, y2, y3);
    HtonlOfJoin(Bits(op, x3, y3), Bits(op, x2, y2), Bits(op, x1, y1), Bits(op, x0, y0));
  }

  lemma NotOfJoin(b3: u8, b2: u8, b1: u8, b0: u8)
    ensures Not(Join(b3, b2, b1, b0)) == Join(255 - b3, 255 - b2, 255 - b1, 255 - b0)
  {
  }

  lemma NotHtonl(x: u32)
    ensures Not(Htonl(x)) == Htonl(Not(x))
  {
    hide Join, Octet, Not;
    var x0, x1, x2, x3 := Octet(x, 0), Octet(x, 1), Octet(x, 2), Octet(x, 3);
    JoinOctets(x);
    NotOfJoin(x3, x2, x1, x0);
    NotOfJoin(x0, x1, x2, x3);
    HtonlOfJoin(255 - x3, 255 - x2, 255 - x1, 255 - x0);
  }

  lemma {:induction false} Pow2Monotone(i: nat, j: nat)
    requires i <= j
    ensures Pow2(i) <= Pow2(j)
    decreases j
  {
    if i < j {
      Pow2Monotone(i, j - 1);
    }
  }

  lemma Pow2Step(k: nat)
    requires k > 0
    ensures Pow2(k) == 2 * Pow2(k - 1)
  {
  }

  /** The arithmetic of dropping the low `h` bits one bit at a time. */
  lemma ModPow2Half(x: nat, h: nat)
    requires h > 0
    ensures x % Pow2(h) == x % 2 + 2 * (x / 2 % Pow2(h - 1))
  {
    var m := Pow2(h - 1);
    var q, r := x / 2 / m, x / 2 % m;
    assert x / 2 == q * m + r;
    assert x == q * (2 * m) + (2 * r + x % 2);
    DivModUnique(x, 2 * m, q, 2 * r + x % 2);
  }

  lemma MulAtLeast(k: int, m: nat)
    requires k >= 1
    ensures k * m >= m
  {
  }

  lemma DivModUnique(x: nat, m: nat, q: nat, r: nat)
    requires m > 0 && r < m && x == q * m + r
    ensures x / m == q && x % m == r
  {
    var q', r' := x / m, x % m;
    assert x == m * q' + r';
    assert (q - q') * m == r' - r;
    if q' < q {
      MulAtLeast(q - q', m);
    } else if q' > q {
      assert (q' - q) * m == r - r';
      MulAtLeast(q' - q, m);
    }
  }

  lemma AndOnes(x: nat, n: nat)
    requires x < Pow2(n)
    ensures Bits(AndOp, x, Pow2(n) - 1) == x
  {
    if n > 0 {
      AndOnes(x / 2, n - 1);
      BitsUnfold(AndOp, x, Pow2(n) - 1, x / 2, Pow2(n - 1) - 1, x % 2, 1);
    }
  }

  /** The value of the low `h` bits of `x`. */
  function LowBits(x: nat, h: nat): (r: nat)
    ensures r < Pow2(h) && r <= x
  {
    if h == 0 then 0 else x % 2 + 2 * LowBits(x / 2, h - 1)
  }

  lemma {:induction false} LowBitsIsMod(x: nat, h: nat)
    ensures LowBits(x, h) == x % Pow2(h)
  {
    if h > 0 {
      LowBitsIsMod(x / 2, h - 1);
      ModPow2Half(x, h);
    }
  }

  /** Masking with n-bit ones followed by `h` zeros clears the low `h` bits. */
  lemma {:induction false} AndHighMask(x: nat, n: nat, h: nat)
    requires h <= n && x < Pow2(n)
    ensures Pow2(n) >= Pow2(h)
    ensures Bits(AndOp, x, Pow2(n) - Pow2(h)) == x - LowBits(x, h)
    decreases h
  {
    hide Bits, Pow2, LowBits;
    Pow2Monotone(h, n);
    if h == 0 {
      NoLowBits(x);
      AndOnes(x, n);
    } else {
      var half := x / 2;
      Pow2Step(n);
      Pow2Step(h);
      LowBitsStep(x, h);
      HalfBelow(x, Pow2(n - 1));
      AndHighMask(half, n - 1, h - 1);
      AndHighMaskStep(x, half, LowBits(half, h - 1), Pow2(n - 1) - Pow2(h - 1));
    }
  }

  lemma NoLowBits(x: nat)
    ensures LowBits(x, 0) == 0 && Pow2(0) == 1
  {
  }

  lemma HalfBelow(x: nat, y: nat)
    requires x < 2 * y
    ensures x / 2 < y
  {
  }

  lemma LowBitsStep(x: nat, h: nat)
    requires h > 0
    ensures LowBits(x, h) == x % 2 + 2 * LowBits(x / 2, h - 1)
  {
  }

  lemma {:induction false} AndHighMaskStep(x: nat, half: nat, low: nat, m: nat)
    requires half == x / 2 && low <= half && Bits(AndOp, half, m) == half - low
    ensures Bits(AndOp, x, 2 * m) == x - (x % 2 + 2 * low)
  {
    BitsUnfold(AndOp, x, 2 * m, half, m, x % 2, 0);
  }

  lemma {:induction false} OrWithZero(x: nat)
    ensures Bits(OrOp, x, 0) == x && Bits(OrOp, 0, x) == x
  {
    if x > 0 {
      OrWithZero(x / 2);
    }
  }

  /** Or-ing a multiple of 2^h with a value below 2^h is addition. */
  lemma {:induction false} OrDisjoint(a: nat, b: nat, h: nat)
    requires b < Pow2(h)
    ensures Bits(OrOp, b, a * Pow2(h)) == a * Pow2(h) + b
  {
    BitsSplit(OrOp, 0, b, a, 0, h);
    assert 0 * Pow2(h) == 0;
    OrWithZero(a);
    OrWithZero(b);
  }

  function ShiftRight(x: nat, k: nat): nat {
    if k == 0 then x else ShiftRight(x / 2, k - 1)
  }

  predicate BitSet(x: nat, k: nat) {
    ShiftRight(x, k) % 2 == 1
  }

  lemma ShiftOnce(x: nat, k: nat)
    ensures ShiftRight(x, k) / 2 == ShiftRight(x, k + 1)
  {
    if k > 0 {
      ShiftOnce(x / 2, k - 1);
    }
  }

  lemma {:induction false} ShiftOut(x: nat, k: nat)
    requires x < Pow2(k)
    ensures ShiftRight(x, k) == 0
  {
    if k > 0 {
      ShiftOut(x / 2, k - 1);
    }
  }

  /** In ones followed by `h` zeros, the bits set below `n` are those from `h` on. */
  lemma {:induction false} HighMaskBit(n: nat, h: nat, k: nat)
    requires h <= n && k < n
    ensures Pow2(h) <= Pow2(n)
    ensures BitSet(Pow2(n) - Pow2(h), k) <==> h <= k
    decreases n
  {
    Pow2Monotone(h, n);
    Pow2Step(n);
    if h > 0 {
      Pow2Step(h);
    }
    var m := Pow2(n) - Pow2(h);
    if k > 0 {
      HighMaskBit(n - 1, if h > 0 then h - 1 else 0, k - 1);
      BitOfHalf(m, k);
      hide Pow2, BitSet;
      if h > 0 {
        assert m == 2 * (Pow2(n - 1) - Pow2(h - 1));
      } else {
        NoLowBits(m);
        assert m == 2 * (Pow2(n - 1) - 1) + 1;
      }
    } else if h == 0 {
      assert m % 2 == 1;
    } else {
      assert m == 2 * (Pow2(n - 1) - Pow2(h - 1));
    }
  }

  lemma BitOfHalf(x: nat, k: nat)
    requires k > 0
    ensures BitSet(x, k) <==> BitSet(x / 2, k - 1)
  {
  }
}
