/**
 * Python's bitwise operators on non-negative integers, restricted to the low
 * `w` bits, defined one bit at a time, together with the closed forms they
 * take on the contiguous masks that IPv4 prefixes use (section 3.1 of
 * RFC 4632).
 */
module Bits {

  /** 2 to the power `k`. */
  function Pow2(k: nat): (r: nat)
    ensures r >= 1
  {
    if k == 0 then 1 else 2 * Pow2(k - 1)
  }

  lemma {:induction false} Pow2Add(a: nat, b: nat)
    ensures Pow2(a + b) == Pow2(a) * Pow2(b)
  {
    if a > 0 {
      Pow2Add(a - 1, b);
    }
  }

  /** The powers of two that delimit the octets of a 32-bit word. */
  lemma Pow2Octets()
    ensures Pow2(8) == 0x100 && Pow2(16) == 0x1_0000 && Pow2(24) == 0x100_0000
    ensures Pow2(32) == 0x1_0000_0000
  {
    assert Pow2(2) == 4;
    Pow2Add(2, 2);
    Pow2Add(4, 4);
    Pow2Add(8, 8);
    Pow2Add(16, 8);
    Pow2Add(16, 16);
  }

  lemma {:induction false} Pow2Monotone(a: nat, b: nat)
    requires a <= b
    ensures Pow2(a) <= Pow2(b)
  {
    if a < b {
      Pow2Monotone(a, b - 1);
    }
  }

  /** `x % (2 * p)` is the remainder of `x / 2` modulo `p`, shifted back, plus the low bit. */
  lemma ModDouble(x: nat, p: nat)
    requires p > 0
    ensures x % (2 * p) == 2 * ((x / 2) % p) + x % 2
  {
    var y := x / 2;
    var q := y / p;
    var r := y % p;
    assert y == q * p + r;
    assert x == 2 * y + x % 2;
    assert x == q * (2 * p) + (2 * r + x % 2);
    ModUnique(x, 2 * p, q, 2 * r + x % 2);
  }

  /** `ModDouble` at a power of two. */
  lemma ModPow2(x: nat, k: nat)
    requires k > 0
    ensures x % Pow2(k) == 2 * ((x / 2) % Pow2(k - 1)) + x % 2
  {
    ModDouble(x, Pow2(k - 1));
  }

  /** Euclidean division has a unique quotient and remainder. */
  lemma ModUnique(x: int, d: int, q: int, r: int)
    requires d > 0 && 0 <= r < d && x == q * d + r
    ensures x % d == r && x / d == q
  {
    var q', r' := x / d, x % d;
    assert (q - q') * d == r' - r;
    SmallMultiple(q - q', d);
  }

  /** The only multiple of `d` strictly between `-d` and `d` is zero. */
  lemma SmallMultiple(t: int, d: int)
    requires d > 0 && -d < t * d < d
    ensures t == 0
  {
    if t > 0 {
      MulAtLeast(t, d);
    } else if t < 0 {
      MulAtLeast(-t, d);
    }
  }

  lemma MulAtLeast(t: int, d: int)
    requires t >= 1 && d > 0
    ensures t * d >= d
  {
    assert t * d == (t - 1) * d + d;
  }

  /** Python's `a & b` on the low `w` bits. */
  function And(a: nat, b: nat, w: nat): (r: nat)
    ensures r < Pow2(w)
  {
    if w == 0 then 0
    else 2 * And(a / 2, b / 2, w - 1) + (if a % 2 == 1 && b % 2 == 1 then 1 else 0)
  }

  /** Python's `a | b` on the low `w` bits. */
  function Or(a: nat, b: nat, w: nat): (r: nat)
    ensures r < Pow2(w)
  {
    if w == 0 then 0
    else 2 * Or(a / 2, b / 2, w - 1) + (if a % 2 == 1 || b % 2 == 1 then 1 else 0)
  }

  /** Python's `~a & (2**w - 1)`: the low `w` bits of `a`, inverted. */
  function Complement(a: nat, w: nat): (r: nat)
    ensures r < Pow2(w)
  {
    if w == 0 then 0 else 2 * Complement(a / 2, w - 1) + (1 - a % 2)
  }

  /** The number of 1 bits of `n`, as `bin(n).count('1')` counts them. */
  function PopCount(n: nat): (r: nat)
    ensures r <= n
    ensures r == 0 <==> n == 0
  {
    if n == 0 then 0 else n % 2 + PopCount(n / 2)
  }

  /** The `w`-bit word whose bits `k` to `w - 1` are set and whose bits below `k` are clear. */
  function HighOnes(k: nat, w: nat): (r: nat)
    requires k <= w
    ensures r < Pow2(w)
  {
    Pow2Monotone(k, w);
    Pow2(w) - Pow2(k)
  }

  /** Inverting the low `w` bits is subtraction from the all-ones word. */
  lemma {:induction false} ComplementValue(a: nat, w: nat)
    ensures Complement(a, w) == Pow2(w) - 1 - a % Pow2(w)
  {
    if w > 0 {
      ComplementValue(a / 2, w - 1);
      ModPow2(a, w);
    }
  }

  /** Masking with a contiguous run of ones from bit `k` to bit `w - 1` clears the bits below `k`. */
  lemma {:induction false} AndHighOnes(x: nat, k: nat, w: nat)
    requires k <= w
    ensures And(x, HighOnes(k, w), w) == x % Pow2(w) - x % Pow2(k)
  {
    if w > 0 {
      var m := HighOnes(k, w);
      ModPow2(x, w);
      if k > 0 {
        HighOnesHalf(k, w);
        AndHighOnes(x / 2, k - 1, w - 1);
        ModPow2(x, k);
        assert And(x, m, w) == 2 * And(x / 2, HighOnes(k - 1, w - 1), w - 1);
      } else {
        HighOnesHalf(0, w);
        AndHighOnes(x / 2, 0, w - 1);
        assert And(x, m, w) == 2 * And(x / 2, HighOnes(0, w - 1), w - 1) + x % 2;
      }
    }
  }

  /** Shifting a run of high ones right by one bit: the low bit is set only when the run starts at bit 0. */
  lemma HighOnesHalf(k: nat, w: nat)
    requires 0 < w && k <= w
    ensures k > 0 ==> HighOnes(k, w) % 2 == 0 && HighOnes(k, w) / 2 == HighOnes(k - 1, w - 1)
    ensures k == 0 ==> HighOnes(k, w) % 2 == 1 && HighOnes(k, w) / 2 == HighOnes(0, w - 1)
  {
    if k > 0 {
      ModUnique(HighOnes(k, w), 2, HighOnes(k - 1, w - 1), 0);
    } else {
      ModUnique(HighOnes(k, w), 2, HighOnes(0, w - 1), 1);
    }
  }

  /**
   * Or-ing the `k` low ones into `x == q * 2**k + r`, with `r` below `2**k`,
   * sets exactly the bits below `k`.
   */
  lemma {:induction false} OrLowOnes(x: nat, q: nat, r: nat, k: nat, w: nat)
    requires x == q * Pow2(k) + r && r < Pow2(k) && q * Pow2(k) + Pow2(k) - 1 < Pow2(w)
    ensures Or(x, Pow2(k) - 1, w) == x - r + Pow2(k) - 1
  {
    if k == 0 {
      OrZero(q, w);
      ModUnique(q, Pow2(w), 0, q);
    } else {
      var p := Pow2(k - 1);
      assert Pow2(k) == 2 * p;
      var y := q * p + r / 2;
      assert q * Pow2(k) == 2 * (q * p);
      assert x == 2 * y + r % 2;
      ModUnique(x, 2, y, r % 2);
      assert Pow2(w) == 2 * Pow2(w - 1);
      ModUnique(Pow2(k) - 1, 2, p - 1, 1);
      OrLowOnes(y, q, r / 2, k - 1, w - 1);
    }
  }
  /** Or-ing `k` low ones into a `w`-bit word sets its low `k` bits. */
  lemma OrOnes(x: nat, ones: nat, k: nat, w: nat)
    requires k <= w && x < Pow2(w) && ones == Pow2(k) - 1
    ensures Or(x, ones, w) == x - x % Pow2(k) + ones
  {
    var p := Pow2(k);
    var q, r := Quotient(x, p);
    assert q * p + p - 1 < Pow2(w) by {
      Pow2Add(w - k, k);
      BlockBound(q, r, p, Pow2(w - k));
    }
    OrLowOnes(x, q, r, k, w);
  }


  /** The quotient and remainder of a natural number by a positive one. */
  lemma Quotient(x: nat, p: nat) returns (q: nat, r: nat)
    requires p > 0
    ensures x == q * p + r && r < p && r == x % p
  {
    q, r := x / p, x % p;
  }

  /** A block of `p` values that starts inside the first `n` blocks of size `p` ends inside them too. */
  lemma BlockBound(q: nat, r: nat, p: nat, n: nat)
    requires p > 0 && q * p + r < n * p
    ensures q * p + p - 1 < n * p
  {
    if q >= n {
      MulMonotone(n, q, p);
    } else {
      MulMonotone(q + 1, n, p);
    }
  }

  lemma MulMonotone(a: nat, b: nat, p: nat)
    requires a <= b
    ensures a * p <= b * p
  {
    assert b * p == a * p + (b - a) * p;
  }

  /** Or-ing in zero keeps the low `w` bits. */
  lemma {:induction false} OrZero(x: nat, w: nat)
    ensures Or(x, 0, w) == x % Pow2(w)
  {
    if w > 0 {
      OrZero(x / 2, w - 1);
      ModPow2(x, w);
    }
  }

  /** Or-ing a value below `p == 2**k` into a multiple of `p` adds it: the two have no bit in common. */
  lemma {:induction false} OrDisjoint(x: nat, q: nat, p: nat, y: nat, k: nat, w: nat)
    requires p == Pow2(k) && x == q * p && y < p
    requires x + y < Pow2(w)
    ensures Or(x, y, w) == x + y
  {
    if k == 0 {
      OrZero(x, w);
      ModUnique(x, Pow2(w), 0, x);
    } else if w > 0 {
      var h := q * (p / 2);
      assert x == 2 * h;
      ModUnique(x, 2, h, 0);
      ModUnique(y, 2, y / 2, y % 2);
      OrDisjoint(h, q, p / 2, y / 2, k - 1, w - 1);
    }
  }

  /** The network part of an address keeps none of the host bits the mask leaves out. */
  lemma {:induction false} AndComplementDisjoint(x: nat, m: nat, w: nat)
    ensures And(And(x, m, w), Complement(m, w), w) == 0
  {
    if w > 0 {
      AndComplementDisjoint(x / 2, m / 2, w - 1);
      var a := And(x, m, w);
      var c := Complement(m, w);
      if m % 2 == 1 {
        ModUnique(c, 2, Complement(m / 2, w - 1), 0);
        ModUnique(a, 2, And(x / 2, m / 2, w - 1), x % 2);
      } else {
        ModUnique(a, 2, And(x / 2, m / 2, w - 1), 0);
        ModUnique(c, 2, Complement(m / 2, w - 1), 1);
      }
    }
  }

  /** A mask made of a contiguous run of high ones has exactly that many 1 bits. */
  lemma {:induction false} PopCountHighOnes(k: nat, w: nat)
    requires k <= w
    ensures PopCount(HighOnes(k, w)) == w - k
  {
    if k < w {
      HighOnesHalf(k, w);
      if k > 0 {
        PopCountHighOnes(k - 1, w - 1);
      } else {
        PopCountHighOnes(0, w - 1);
      }
    }
  }
}
