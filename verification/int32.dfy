/** 32-bit two's-complement integers as the kernel's registers hold them.
    Values are mathematical integers restricted to the signed 32-bit range;
    `Add` and `Mul` drop the high-order bits of the exact result the way the
    32-bit `add` and `imul` instructions do, with no trap and no widening.

    `Wrap` is defined by stepping 2^32 at a time towards the range, and its
    closed form (low 32 bits read as signed) is the lemma `WrapLowBits`;
    the modular facts live in lemmas so that proofs about the kernel only
    meet them where they are asked for. */
module I32 {

  const Modulus: int := 0x1_0000_0000
  const Min: int := -0x8000_0000
  const Max: int := 0x7fff_ffff

  /** The values a C++ `int` (or a 32-bit register read as signed) can hold. */
  type int32 = x: int | Min <= x <= Max

  /** `x` reduced into the int32 range by adding or subtracting 2^32. */
  function Wrap(x: int): (r: int32)
    decreases if x > Max then x - Max else if x < Min then Min - x else 0
  {
    if x > Max then Wrap(x - Modulus)
    else if x < Min then Wrap(x + Modulus)
    else x
  }

  /** 32-bit `add`: the exact sum reduced into the int32 range. The exact
      sum of two int32 values is off the range by less than 2^32, so it is
      kept when it fits and moved by exactly one 2^32 when it overflows. */
  function Add(a: int32, b: int32): (r: int32)
    ensures Min <= a + b <= Max ==> r == a + b
    ensures a + b > Max ==> r == a + b - Modulus
    ensures a + b < Min ==> r == a + b + Modulus
  {
    WrapIdentity(a + b - Modulus);
    WrapIdentity(a + b + Modulus);
    Wrap(a + b)
  }

  /** 32-bit `imul` (two-operand form, low half kept). Its facts are the
      lemma `MulIsWrappedProduct`, so that the nonlinear product only enters
      the proofs that ask for it. */
  function Mul(a: int32, b: int32): (r: int32)
  {
    Wrap(a * b)
  }

  /** A difference that is a multiple of 2^32 between two int32 values is zero. */
  lemma CongruentInRangeEqual(r: int32, s: int32)
    requires (r - s) % Modulus == 0
    ensures r == s
  {
    var d := r - s;
    assert d == Modulus * (d / Modulus);
  }

  /** Multiples of 2^32 are closed under addition and subtraction. */
  lemma MultipleSum(x: int, y: int)
    requires x % Modulus == 0 && y % Modulus == 0
    ensures (x + y) % Modulus == 0
    ensures (x - y) % Modulus == 0
  {
    var qx, qy := x / Modulus, y / Modulus;
    assert x == Modulus * qx;
    assert y == Modulus * qy;
    assert x + y == Modulus * (qx + qy);
    assert x - y == Modulus * (qx - qy);
  }

  /** Wrapping changes its argument by a multiple of 2^32 only. */
  lemma {:induction false} WrapCongruence(x: int)
    ensures (x - Wrap(x)) % Modulus == 0
    decreases if x > Max then x - Max else if x < Min then Min - x else 0
  {
    if x > Max {
      WrapCongruence(x - Modulus);
      MultipleSum(x - Modulus - Wrap(x - Modulus), -Modulus);
    } else if x < Min {
      WrapCongruence(x + Modulus);
      MultipleSum(x + Modulus - Wrap(x + Modulus), Modulus);
    }
  }

  /** Wrapping is the identity exactly on the int32 range. */
  lemma WrapIdentity(x: int)
    ensures Wrap(x) == x <==> Min <= x <= Max
  {
  }

  /** Two integers wrap to the same int32 exactly when they agree modulo 2^32. */
  lemma WrapCongruent(x: int, y: int)
    ensures Wrap(x) == Wrap(y) <==> (x - y) % Modulus == 0
  {
    var rx: int, ry: int := Wrap(x), Wrap(y);
    WrapCongruence(x);
    WrapCongruence(y);
    if (x - y) % Modulus == 0 {
      MultipleSum(x - rx, x - y);
      MultipleSum(y - ry, (x - rx) - (x - y));
      assert (y - ry) - ((x - rx) - (x - y)) == rx - ry;
      CongruentInRangeEqual(rx, ry);
    } else if rx == ry {
      MultipleSum(x - rx, y - ry);
    }
  }

  /** The closed form: the low 32 bits of `x` (its remainder modulo 2^32)
      read as a signed two's-complement value. */
  lemma WrapLowBits(x: int)
    ensures Wrap(x) == var m := x % Modulus; if m > Max then m - Modulus else m
  {
    var m := x % Modulus;
    var r: int := if m > Max then m - Modulus else m;
    assert x == Modulus * (x / Modulus) + m;
    assert (x - r) % Modulus == 0 by {
      if m > Max {
        assert x - r == Modulus * (x / Modulus + 1);
      } else {
        assert x - r == Modulus * (x / Modulus);
      }
    }
    WrapIdentity(r);
    WrapCongruent(x, r);
  }

  /** Reducing the operands before a wrapped addition does not change the
      result: this is why a running sum kept in a 32-bit register equals the
      exact sum reduced once at the end. */
  lemma AddWrapsExact(x: int, y: int)
    ensures Add(Wrap(x), Wrap(y)) == Wrap(x + y)
  {
    var rx: int, ry: int := Wrap(x), Wrap(y);
    assert (rx + ry - (x + y)) % Modulus == 0 by {
      WrapCongruence(x);
      WrapCongruence(y);
      MultipleSum(x - rx, y - ry);
      assert (x - rx) + (y - ry) == x + y - (rx + ry);
      MultipleSum(0, x + y - (rx + ry));
    }
    WrapCongruent(rx + ry, x + y);
  }

  /** The 32-bit product is the exact product reduced modulo 2^32. */
  lemma MulIsWrappedProduct(a: int32, b: int32)
    ensures (a * b - Mul(a, b)) % Modulus == 0
    ensures Min <= a * b <= Max ==> Mul(a, b) == a * b
  {
    WrapCongruence(a * b);
  }
}
