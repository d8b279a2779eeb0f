/**
 * Arithmetic on unbounded naturals that stands in for the shift and mask
 * operations of a 64-bit C word: `x >> k` is `x / Pow2(k)`, `x << k` is
 * `x * Pow2(k)` (when it does not overflow) and `x & ((1 << k) - 1)` is
 * `x % Pow2(k)`. Bits are numbered here from the least significant end
 * (`LowBit(x, 0)` is the units bit); the word-level module above this one
 * switches to the most-significant-first numbering of the library.
 */
module BitArith {

  /** 2 to the power `n`. It steps eight bits at a time, so that Dafny can
      evaluate it on the literal exponents of concrete words. */
  function Pow2(n: nat): (r: nat)
    ensures r >= 1
  {
    if n == 0 then 1
    else if n >= 8 then 256 * Pow2(n - 8)
    else 2 * Pow2(n - 1)
  }

  /** Each further bit doubles the power: the usual definition of 2^n. */
  lemma {:induction false} Pow2Step(n: nat)
    requires n >= 1
    ensures Pow2(n) == 2 * Pow2(n - 1)
  {
    if n == 8 {
      assert Pow2(7) == 128;
    } else if n >= 9 {
      Pow2Step(n - 8);
    }
  }

  lemma {:induction false} Pow2Add(a: nat, b: nat)
    ensures Pow2(a + b) == Pow2(a) * Pow2(b)
  {
    if b > 0 {
      Pow2Add(a, b - 1);
      Pow2Step(a + b);
      Pow2Step(b);
      MulAssoc2(Pow2(a), Pow2(b - 1));
    }
  }

  lemma MulAssoc2(p: nat, q: nat)
    ensures 2 * (p * q) == p * (2 * q)
  {
  }

  lemma {:induction false} Pow2Monotone(a: nat, b: nat)
    requires a <= b
    ensures Pow2(a) <= Pow2(b)
  {
    if a < b {
      Pow2Monotone(a, b - 1);
      Pow2Step(b);
    }
  }

  lemma MulMonotone(a: int, b: int, m: nat)
    requires a <= b
    ensures a * m <= b * m
  {
  }

  /** A quotient and remainder that rebuild `x` are THE quotient and remainder. */
  lemma DivModUnique(x: int, m: int, q: int, r: int)
    requires m > 0 && 0 <= r < m && x == q * m + r
    ensures x / m == q && x % m == r
  {
    var q0, r0 := x / m, x % m;
    assert x == q0 * m + r0;
    if q0 > q {
      MulMonotone(q + 1, q0, m);
    } else if q0 < q {
      MulMonotone(q0 + 1, q, m);
    }
  }

  /** Dividing by `p` and then by `q` is dividing by `p * q`. */
  lemma DivDiv(x: nat, p: nat, q: nat)
    requires p > 0 && q > 0
    ensures p * q > 0
    ensures x / p / q == x / (p * q)
  {
    var y := x / p;
    var lo := p * (y % q) + x % p;
    assert x == (y / q) * (p * q) + lo by {
      assert x == p * y + x % p;
      assert y == q * (y / q) + y % q;
      assert p * y == p * (q * (y / q)) + p * (y % q);
    }
    assert lo < p * q by {
      MulMonotone(y % q, q - 1, p);
    }
    DivModUnique(x, p * q, y / q, lo);
  }

  /** Shifting right by `a` and then by `b` is shifting right by `a + b`. */
  lemma ShiftShift(x: nat, a: nat, b: nat, c: nat)
    requires a + b == c
    ensures x / Pow2(a) / Pow2(b) == x / Pow2(c)
  {
    Pow2Add(a, b);
    DivDiv(x, Pow2(a), Pow2(b));
  }

  /**
   * A word split at bit `m` into a high part `h` and a low part `l`. The
   * parts are typed `int`, not `nat`: with `nat` parameters every call carries
   * a nonnegativity proof of a quotient or remainder, which costs the
   * solver far more than this conditional postcondition.
   */
  function Concat(h: int, l: int, m: nat): (x: int)
    ensures h >= 0 && l >= 0 ==> x >= 0
  {
    h * Pow2(m) + l
  }

  lemma DivMod(x: nat, m: nat)
    requires m > 0
    ensures x == (x / m) * m + x % m
    ensures 0 <= x / m && 0 <= x % m < m
  {
  }

  /** Every word is its high part above bit `m` joined to its low part below it. */
  lemma Split(x: nat, m: nat)
    ensures 0 <= x / Pow2(m) && 0 <= x % Pow2(m) < Pow2(m)
    ensures x == Concat(x / Pow2(m), x % Pow2(m), m)
  {
    DivMod(x, Pow2(m));
  }

  lemma MulAddBound(h: nat, l: nat, b: nat, m: nat)
    requires h < b && l < m
    ensures h * m + l < b * m
  {
    MulMonotone(h, b - 1, m);
  }

  /** Joining a `b`-bit high part to an `m`-bit low part gives an `(b+m)`-bit word. */
  lemma ConcatBound(h: nat, l: nat, m: nat, b: nat, c: nat)
    requires b + m == c
    requires h < Pow2(b) && l < Pow2(m)
    ensures Concat(h, l, m) < Pow2(c)
  {
    Pow2Add(b, m);
    MulAddBound(h, l, Pow2(b), Pow2(m));
  }

  /** Shifting a joined word right by `m` recovers the high part, masking it recovers the low part. */
  lemma ConcatParts(h: nat, l: nat, m: nat)
    requires l < Pow2(m)
    ensures Concat(h, l, m) / Pow2(m) == h
    ensures Concat(h, l, m) % Pow2(m) == l
  {
    DivModUnique(Concat(h, l, m), Pow2(m), h, l);
  }

  lemma DivBound(x: nat, b: nat, m: nat)
    requires m > 0 && x < b * m
    ensures x / m < b
  {
    DivMod(x, m);
    if x / m >= b {
      MulMonotone(b, x / m, m);
    }
  }

  /** A word below `2^(b+m)` shifted right by `m` is below `2^b`. */
  lemma ShiftBound(x: nat, m: nat, b: nat, c: nat)
    requires b + m == c
    requires x < Pow2(c)
    ensures x / Pow2(m) < Pow2(b)
  {
    Pow2Add(b, m);
    DivBound(x, Pow2(b), Pow2(m));
  }

  /** Bit `j` of `x`, counting from the least significant bit (bit 0 is the units bit). */
  function LowBit(x: nat, j: nat): (bit: nat)
    ensures bit < 2
  {
    if j == 0 then x % 2 else LowBit(x / 2, j - 1)
  }

  lemma Halve(h: nat, l: nat, m: nat)
    requires m >= 1
    ensures Concat(h, l, m) == 2 * Concat(h, 0, m - 1) + l
    ensures Concat(h, l, m) / 2 == Concat(h, l / 2, m - 1)
    ensures Concat(h, l, m) % 2 == l % 2
  {
    Pow2Step(m);
    MulAssoc2(h, Pow2(m - 1));
  }

  /** Below the join, the bits of a joined word are those of its low part. */
  lemma {:induction false} ConcatBitLow(h: nat, l: nat, m: nat, j: nat)
    requires l < Pow2(m) && j < m
    ensures LowBit(Concat(h, l, m), j) == LowBit(l, j)
  {
    Halve(h, l, m);
    if j > 0 {
      Pow2Step(m);
      ConcatBitLow(h, l / 2, m - 1, j - 1);
    }
  }

  /** From the join up, the bits of a joined word are those of its high part. */
  lemma {:induction false} ConcatBitHigh(h: nat, l: nat, m: nat, j: nat, i: nat)
    requires l < Pow2(m) && j == m + i
    ensures LowBit(Concat(h, l, m), j) == LowBit(h, i)
  {
    if m == 0 {
      assert Concat(h, l, m) == h;
    } else {
      Halve(h, l, m);
      Pow2Step(m);
      ConcatBitHigh(h, l / 2, m - 1, j - 1, i);
    }
  }

  /** A number below `2^m` has no bit set from bit `m` up. */
  lemma {:induction false} LowBitBeyond(y: nat, m: nat, j: nat)
    requires y < Pow2(m) && m <= j
    ensures LowBit(y, j) == 0
  {
    if m > 0 {
      Pow2Step(m);
    }
    if j > 0 {
      LowBitBeyond(y / 2, if m == 0 then 0 else m - 1, j - 1);
    }
  }

  /** Two words below `2^w` that agree on each of their `w` bits are equal. */
  lemma {:induction false} BitsDetermine(x: nat, y: nat, w: nat)
    requires x < Pow2(w) && y < Pow2(w)
    requires forall j :: 0 <= j < w ==> LowBit(x, j) == LowBit(y, j)
    ensures x == y
  {
    if w > 0 {
      Pow2Step(w);
      forall j | 0 <= j < w - 1
        ensures LowBit(x / 2, j) == LowBit(y / 2, j)
      {
        assert LowBit(x, j + 1) == LowBit(y, j + 1);
      }
      BitsDetermine(x / 2, y / 2, w - 1);
      assert LowBit(x, 0) == LowBit(y, 0);
    }
  }

  /** `2^n - 1` has exactly its `n` low bits set. */
  lemma {:induction false} AllOnesBit(n: nat, j: nat)
    ensures LowBit(Pow2(n) - 1, j) == if j < n then 1 else 0
  {
    if n > 0 {
      Pow2Step(n);
    }
    if j > 0 {
      AllOnesBit(if n == 0 then 0 else n - 1, j - 1);
    }
  }
}
