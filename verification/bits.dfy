/** Python's bitwise view of non-negative integers: bit `k` of `v` and `a | b`,
    defined arithmetically so that they apply to Python's unbounded `int`. */
module Bits {

  function Pow2(k: nat): (r: nat)
    ensures r >= 1
  {
    if k == 0 then 1 else 2 * Pow2(k - 1)
  }

  lemma {:induction false} Pow2Increasing(j: nat, k: nat)
    requires j < k
    ensures Pow2(j) < Pow2(k)
    decreases k
  {
    if j < k - 1 {
      Pow2Increasing(j, k - 1);
    }
  }

  /** `bool(v & (1 << k))`; for a negative `v` this is bit `k` of its two's complement,
      as Python has it, since Dafny's division by a positive divisor rounds down. */
  predicate IsSet(v: int, k: nat) {
    (v / Pow2(k)) % 2 == 1
  }

  /** `a | b` on non-negative integers. */
  function Or(a: nat, b: nat): nat
    decreases a + b
  {
    if a == 0 then b
    else if b == 0 then a
    else 2 * Or(a / 2, b / 2) + (if a % 2 == 1 || b % 2 == 1 then 1 else 0)
  }

  lemma MulNonNeg(a: int, b: int)
    requires a >= 0 && b >= 0
    ensures a * b >= 0
  {
  }

  /** Quotient and remainder are unique. */
  lemma DivModUnique(v: int, d: int, q: int, r: int)
    requires d > 0 && 0 <= r < d && v == q * d + r
    ensures v / d == q && v % d == r
  {
    var q0, r0 := v / d, v % d;
    assert (q0 - q) * d == r - r0;
    if q0 > q {
      MulNonNeg(q0 - q - 1, d);
      assert false;
    } else if q0 < q {
      MulNonNeg(q - q0 - 1, d);
      assert false;
    }
  }

  lemma DivDiv(x: int, p: nat)
    requires p > 0
    ensures x / (2 * p) == (x / 2) / p
  {
    var q1, r1 := x / 2, x % 2;
    var q2, r2 := q1 / p, q1 % p;
    assert x == q2 * (2 * p) + (2 * r2 + r1) by {
      assert x == 2 * q1 + r1;
      assert q1 == q2 * p + r2;
    }
    DivModUnique(x, 2 * p, q2, 2 * r2 + r1);
  }

  /** Bit k + 1 of x is bit k of x shifted right by one. */
  lemma IsSetNext(x: int, k: nat)
    ensures IsSet(x, k + 1) == IsSet(x / 2, k)
  {
    DivDiv(x, Pow2(k));
  }

  lemma {:induction false} ZeroBits(k: nat)
    ensures !IsSet(0, k)
  {
  }

  /** A bit of `a | b` is set iff it is set in `a` or in `b`. */
  lemma {:induction false} OrBit(a: nat, b: nat, k: nat)
    ensures IsSet(Or(a, b), k) == (IsSet(a, k) || IsSet(b, k))
    decreases k
  {
    ZeroBits(k);
    if a != 0 && b != 0 {
      var o := Or(a, b);
      var bit := if a % 2 == 1 || b % 2 == 1 then 1 else 0;
      assert o == 2 * Or(a / 2, b / 2) + bit;
      assert o / 2 == Or(a / 2, b / 2) && o % 2 == bit by {
        DivModUnique(o, 2, Or(a / 2, b / 2), bit);
      }
      if k == 0 {
        IsSetZero(o);
        IsSetZero(a);
        IsSetZero(b);
      } else {
        calc {
          IsSet(o, k);
          { IsSetNext(o, k - 1); }
          IsSet(Or(a / 2, b / 2), k - 1);
          { OrBit(a / 2, b / 2, k - 1); }
          IsSet(a / 2, k - 1) || IsSet(b / 2, k - 1);
          { IsSetNext(a, k - 1); IsSetNext(b, k - 1); }
          IsSet(a, k) || IsSet(b, k);
        }
      }
    }
  }

  /** Bit 0 is the parity. */
  lemma IsSetZero(x: int)
    ensures IsSet(x, 0) == (x % 2 == 1)
  {
    assert Pow2(0) == 1;
  }

  /** `|` does not widen its operands. */
  lemma {:induction false} OrBound(a: nat, b: nat, n: nat)
    requires a < Pow2(n) && b < Pow2(n)
    ensures Or(a, b) < Pow2(n)
    decreases n
  {
    if a != 0 && b != 0 {
      assert n > 0;
      OrBound(a / 2, b / 2, n - 1);
    }
  }

  /** The only bit of 2^j is bit j. */
  lemma {:induction false} Pow2Bit(j: nat, k: nat)
    ensures IsSet(Pow2(j), k) <==> j == k
    decreases k
  {
    if k == 0 {
      IsSetZero(Pow2(j));
      if j > 0 {
        assert Pow2(j) % 2 == 0 by { assert Pow2(j) == 2 * Pow2(j - 1); }
      } else {
        assert Pow2(j) == 1;
      }
    } else {
      IsSetNext(Pow2(j), k - 1);
      if j == 0 {
        assert Pow2(j) / 2 == 0 by { assert Pow2(j) == 1; }
        ZeroBits(k - 1);
      } else {
        assert Pow2(j) / 2 == Pow2(j - 1) by { assert Pow2(j) == 2 * Pow2(j - 1); }
        Pow2Bit(j - 1, k - 1);
      }
    }
  }

  /** The low `k + 1` bits are the low `k` bits plus bit `k`. */
  lemma ModStep(v: int, k: nat)
    ensures v % Pow2(k + 1) == v % Pow2(k) + (if IsSet(v, k) then Pow2(k) else 0)
  {
    var a := Pow2(k);
    var q, r := v / a, v % a;
    var q2, b := q / 2, q % 2;
    assert v == q2 * (2 * a) + (b * a + r) by {
      assert v == q * a + r;
      assert q == q2 * 2 + b;
      assert q * a == q2 * (2 * a) + b * a;
    }
    DivModUnique(v, 2 * a, q2, b * a + r);
  }

  /** Or-ing a bit above every set bit of `x` adds it. */
  lemma OrHighBit(x: nat, k: nat)
    requires x < Pow2(k)
    ensures Or(x, Pow2(k)) == x + Pow2(k)
    decreases k
  {
    if x != 0 {
      assert k > 0;
      var o := Or(x, Pow2(k));
      assert Pow2(k) / 2 == Pow2(k - 1) && Pow2(k) % 2 == 0;
      OrHighBit(x / 2, k - 1);
    }
  }

  /** Or-ing a single bit into `x` either finds it already set or adds it. */
  lemma {:induction false} OrSingleBit(x: nat, k: nat)
    ensures Or(x, Pow2(k)) == if IsSet(x, k) then x else x + Pow2(k)
    decreases k
  {
    if x != 0 {
      if k == 0 {
        assert Or(x, 1) == 2 * Or(x / 2, 0) + 1;
      } else {
        assert Pow2(k) / 2 == Pow2(k - 1) && Pow2(k) % 2 == 0;
        OrSingleBit(x / 2, k - 1);
        IsSetNext(x, k - 1);
      }
    } else {
      ZeroBits(k);
    }
  }

  /** Adding bit `k` to an integer, negative or not, whose bit `k` is clear sets it. */
  lemma AddBit(v: int, k: nat)
    requires !IsSet(v, k)
    ensures IsSet(v + Pow2(k), k)
  {
    var p := Pow2(k);
    DivModUnique(v + p, p, v / p + 1, v % p);
  }
}
