/**
 * Powers of two and the bits of natural numbers: the integer
 * arithmetic that the address calculations are made of.
 */
module Arith {

  /** 2 to the power n. */
  function Pow2(n: nat): (r: nat)
    ensures r >= 1
  {
    if n == 0 then 1 else 2 * Pow2(n - 1)
  }

  lemma {:induction false} Pow2Add(a: nat, b: nat)
    ensures Pow2(a + b) == Pow2(a) * Pow2(b)
  {
    if b > 0 {
      Pow2Add(a, b - 1);
      calc {
        Pow2(a + b);
        2 * Pow2(a + b - 1);
        2 * (Pow2(a) * Pow2(b - 1));
        Pow2(a) * (2 * Pow2(b - 1));
        Pow2(a) * Pow2(b);
      }
    }
  }

  lemma {:induction false} Pow2Monotone(a: nat, b: nat)
    requires a <= b
    ensures Pow2(a) <= Pow2(b)
  {
    if a < b {
      Pow2Monotone(a, b - 1);
    }
  }

  lemma Pow2Of32()
    ensures Pow2(32) == 0x1_0000_0000
  {
    assert Pow2(8) == 256;
    Pow2Add(8, 8);
    Pow2Add(16, 16);
  }

  lemma MulMonotone(a: nat, b: nat, m: nat)
    requires a <= b
    ensures a * m <= b * m
  {
  }

  /** `x / m` is below `q` when `x` is below `q * m`. */
  lemma DivBelow(x: nat, m: nat, q: nat)
    requires m > 0 && x < q * m
    ensures x / m < q
  {
    if x / m >= q {
      MulMonotone(q, x / m, m);
    }
  }

  /** Euclidean division is unique: q * m + r with r below m has quotient q and remainder r. */
  lemma DivModUnique(q: nat, r: nat, m: nat)
    requires r < m
    ensures (q * m + r) / m == q && (q * m + r) % m == r
  {
    var x := q * m + r;
    if x / m > q {
      MulMonotone(q + 1, x / m, m);
    } else if x / m < q {
      MulMonotone(x / m + 1, q, m);
    }
  }

  /** The largest multiple of m that is not above a. */
  function RoundDown(a: nat, m: nat): (r: nat)
    requires m > 0
    ensures r <= a < r + m && r % m == 0 && r == (a / m) * m
  {
    var q := a / m;
    assert a == q * m + a % m;
    DivModUnique(q, 0, m);
    a - a % m
  }

  /** A multiple of m within m of a is a's round-down. */
  lemma RoundDownUnique(a: nat, b: nat, m: nat)
    requires m > 0 && b % m == 0 && b <= a < b + m
    ensures RoundDown(a, m) == b
  {
    var q := b / m;
    assert b == q * m + b % m;
    DivModUnique(q, a - b, m);
    assert a == q * m + (a - b);
  }

  /** Bit i of x, counting from the least significant bit 0. */
  function BitAt(x: nat, i: nat): bool
  {
    if i == 0 then x % 2 == 1 else BitAt(x / 2, i - 1)
  }

  lemma {:induction false} BitAtZero(i: nat)
    ensures !BitAt(0, i)
  {
    if i > 0 {
      BitAtZero(i - 1);
    }
  }

  /** 2^n - 1 has exactly its n lowest bits set. */
  lemma {:induction false} BitAtAllOnes(n: nat, i: nat)
    ensures BitAt(Pow2(n) - 1, i) <==> i < n
  {
    if n == 0 {
      BitAtZero(i);
    } else if i > 0 {
      assert (Pow2(n) - 1) / 2 == Pow2(n - 1) - 1;
      BitAtAllOnes(n - 1, i - 1);
    }
  }

  /**
   * The bits of q * 2^h + r, with r below 2^h: the h low bits are r's,
   * the rest are q's.
   */
  lemma {:induction false} BitAtSplit(q: nat, r: nat, h: nat, i: nat)
    requires r < Pow2(h)
    ensures i < h ==> BitAt(q * Pow2(h) + r, i) == BitAt(r, i)
    ensures i >= h ==> BitAt(q * Pow2(h) + r, i) == BitAt(q, i - h)
  {
    if h > 0 {
      var t := q * Pow2(h - 1);
      assert q * Pow2(h) == 2 * t;
      assert (q * Pow2(h) + r) / 2 == t + r / 2;
      assert (q * Pow2(h) + r) % 2 == r % 2;
      if i > 0 {
        BitAtSplit(q, r / 2, h - 1, i - 1);
      }
    }
  }

  /** The last address of an aligned block of 2^h sets exactly the h low bits besides b's. */
  lemma BitsOfBlockEnd(b: nat, h: nat, i: nat)
    requires b % Pow2(h) == 0
    ensures BitAt(b + Pow2(h) - 1, i) <==> BitAt(b, i) || i < h
  {
    var m := Pow2(h);
    var q := b / m;
    assert b == q * m + 0;
    assert b + m - 1 == q * m + (m - 1);
    BitAtSplit(q, 0, h, i);
    BitAtSplit(q, m - 1, h, i);
    BitAtAllOnes(h, i);
    if i < h {
      BitAtZero(i);
    }
  }

  /** A multiple of s below k * s leaves room for a whole block of s before k * s. */
  lemma AlignedBelow(a: nat, s: nat, k: nat)
    requires s > 0 && a % s == 0 && a < k * s
    ensures a + s <= k * s
  {
    var q := a / s;
    assert a == q * s;
    if q >= k {
      MulMonotone(k, q, s);
    }
    MulMonotone(q + 1, k, s);
  }

  /** Rounding down to a multiple of 2^h clears exactly the h low bits. */
  lemma BitsOfRoundDown(a: nat, h: nat, i: nat)
    ensures BitAt(RoundDown(a, Pow2(h)), i) <==> BitAt(a, i) && h <= i
  {
    var m := Pow2(h);
    var q := a / m;
    assert RoundDown(a, m) == q * m + 0;
    assert a == q * m + a % m;
    BitAtSplit(q, 0, h, i);
    BitAtSplit(q, a % m, h, i);
    if i < h {
      BitAtZero(i);
    }
  }

  /** int.bit_length(): the number of binary digits of n, 0 for 0. */
  function BitLength(n: nat): nat
  {
    if n == 0 then 0 else 1 + BitLength(n / 2)
  }

  /** A positive n lies between 2^(bit_length - 1) and 2^bit_length. */
  lemma {:induction false} BitLengthBounds(n: nat)
    requires n >= 1
    ensures BitLength(n) >= 1
    ensures Pow2(BitLength(n) - 1) <= n < Pow2(BitLength(n))
  {
    if n >= 2 {
      BitLengthBounds(n / 2);
    }
  }

  /** n has at most w binary digits exactly when it is below 2^w. */
  lemma {:induction false} BitLengthFits(n: nat, w: nat)
    ensures BitLength(n) <= w <==> n < Pow2(w)
  {
    if n >= 1 {
      BitLengthBounds(n);
      if BitLength(n) <= w {
        Pow2Monotone(BitLength(n), w);
      } else {
        Pow2Monotone(w, BitLength(n) - 1);
      }
    }
  }
}
