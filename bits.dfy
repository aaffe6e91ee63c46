/** Python's bitwise `^` and `&` on its unbounded integers. A Python int
    behaves as an infinite two's-complement bit string: non-negative numbers
    end in zeros, negative ones in ones. Both operators are defined bit by
    bit from the lowest bit up, halving with floor division, which is what
    Dafny's `/` does for the divisor 2. */
module Bits {

  /** How far `a` is from the two numbers whose bits are all equal (0 and -1). */
  function Size(a: int): nat {
    if a >= 0 then a else -a - 1
  }

  lemma HalfShrinks(a: int)
    ensures Size(a / 2) <= Size(a)
    ensures Size(a) > 0 ==> Size(a / 2) < Size(a)
    ensures Size(a) == 0 ==> a / 2 == a
  {
  }

  /** `a ^ b`. */
  function Xor(a: int, b: int): int
    decreases Size(a) + Size(b)
  {
    if Size(a) == 0 && Size(b) == 0 then (if a == b then 0 else -1)
    else
      HalfShrinks(a);
      HalfShrinks(b);
      2 * Xor(a / 2, b / 2) + (if a % 2 == b % 2 then 0 else 1)
  }

  /** `a & b`. */
  function And(a: int, b: int): int
    decreases Size(a) + Size(b)
  {
    if Size(a) == 0 && Size(b) == 0 then (if a == -1 && b == -1 then -1 else 0)
    else
      HalfShrinks(a);
      HalfShrinks(b);
      2 * And(a / 2, b / 2) + (if a % 2 == 1 && b % 2 == 1 then 1 else 0)
  }

  /** `a ^ b` is negative exactly when one operand is: the infinite sign bits
      XOR like the others. */
  lemma {:induction false} XorSign(a: int, b: int)
    ensures Xor(a, b) < 0 <==> (a < 0) != (b < 0)
    decreases Size(a) + Size(b)
  {
    if Size(a) != 0 || Size(b) != 0 {
      HalfShrinks(a);
      HalfShrinks(b);
      XorSign(a / 2, b / 2);
    }
  }

  /** `a & b` is negative exactly when both operands are, and lies between 0
      and any non-negative operand. */
  lemma {:induction false} AndBounds(a: int, b: int)
    ensures And(a, b) < 0 <==> a < 0 && b < 0
    ensures a >= 0 ==> 0 <= And(a, b) <= a
    ensures b >= 0 ==> 0 <= And(a, b) <= b
    decreases Size(a) + Size(b)
  {
    if Size(a) != 0 || Size(b) != 0 {
      HalfShrinks(a);
      HalfShrinks(b);
      AndBounds(a / 2, b / 2);
    }
  }

  /** Bit `k` of `a`. */
  function Bit(a: int, k: nat): (b: int)
    ensures b == 0 || b == 1
    decreases k
  {
    if k == 0 then a % 2 else Bit(a / 2, k - 1)
  }

  function Pow2(k: nat): (p: nat)
    ensures p >= 1
  {
    if k == 0 then 1 else 2 * Pow2(k - 1)
  }

  /** A number is fixed by its lowest bit and the rest. */
  lemma Halves(x: int, y: int)
    requires x / 2 == y / 2 && x % 2 == y % 2
    ensures x == y
  {
  }

  /** The defining step of `^` holds for every pair, the all-equal ones included. */
  lemma XorStep(a: int, b: int)
    ensures Xor(a, b) / 2 == Xor(a / 2, b / 2)
    ensures Xor(a, b) % 2 == if a % 2 == b % 2 then 0 else 1
  {
  }

  lemma AndStep(a: int, b: int)
    ensures And(a, b) / 2 == And(a / 2, b / 2)
    ensures And(a, b) % 2 == if a % 2 == 1 && b % 2 == 1 then 1 else 0
  {
  }

  lemma {:induction false} XorZero(a: int)
    ensures Xor(a, 0) == a
    decreases Size(a)
  {
    if Size(a) > 0 {
      HalfShrinks(a);
      XorZero(a / 2);
      XorStep(a, 0);
      Halves(Xor(a, 0), a);
    }
  }

  lemma {:induction false} XorSelf(a: int)
    ensures Xor(a, a) == 0
    decreases Size(a)
  {
    if Size(a) > 0 {
      HalfShrinks(a);
      XorSelf(a / 2);
      XorStep(a, a);
      Halves(Xor(a, a), 0);
    }
  }

  lemma {:induction false} XorComm(a: int, b: int)
    ensures Xor(a, b) == Xor(b, a)
    decreases Size(a) + Size(b)
  {
    if Size(a) > 0 || Size(b) > 0 {
      HalfShrinks(a);
      HalfShrinks(b);
      XorComm(a / 2, b / 2);
      XorStep(a, b);
      XorStep(b, a);
      Halves(Xor(a, b), Xor(b, a));
    }
  }

  lemma {:induction false} XorAssoc(a: int, b: int, c: int)
    ensures Xor(Xor(a, b), c) == Xor(a, Xor(b, c))
    decreases Size(a) + Size(b) + Size(c)
  {
    if Size(a) == 0 && Size(b) == 0 && Size(c) == 0 {
      assert (a == 0 || a == -1) && (b == 0 || b == -1) && (c == 0 || c == -1);
    } else {
      HalfShrinks(a);
      HalfShrinks(b);
      HalfShrinks(c);
      XorAssoc(a / 2, b / 2, c / 2);
      XorStep(a, b);
      XorStep(b, c);
      XorStep(Xor(a, b), c);
      XorStep(a, Xor(b, c));
      Halves(Xor(Xor(a, b), c), Xor(a, Xor(b, c)));
    }
  }

  /** Bit `k` of `a ^ b` is set when exactly one of `a` and `b` has it. */
  lemma {:induction false} BitXor(a: int, b: int, k: nat)
    ensures Bit(Xor(a, b), k) == if Bit(a, k) == Bit(b, k) then 0 else 1
    decreases k
  {
    XorStep(a, b);
    if k > 0 {
      BitXor(a / 2, b / 2, k - 1);
    }
  }

  lemma {:induction false} AndZero(a: int)
    ensures And(a, 0) == 0
    decreases Size(a)
  {
    if Size(a) > 0 {
      HalfShrinks(a);
      AndZero(a / 2);
      AndStep(a, 0);
      Halves(And(a, 0), 0);
    }
  }

  /** A number and its complement `-y - 1` share no bit. */
  lemma {:induction false} AndComplement(y: int)
    ensures And(y, -y - 1) == 0
    decreases Size(y)
  {
    if Size(y) > 0 {
      HalfShrinks(y);
      assert (-y - 1) / 2 == -(y / 2) - 1;
      AndComplement(y / 2);
      AndStep(y, -y - 1);
      Halves(And(y, -y - 1), 0);
    }
  }

  /** `a & 2**k` is `2**k` or 0, as bit `k` of `a` is set or not. */
  lemma {:induction false} AndPow2(a: int, k: nat)
    ensures And(a, Pow2(k)) == if Bit(a, k) == 1 then Pow2(k) else 0
    decreases k
  {
    AndStep(a, Pow2(k));
    if k == 0 {
      AndZero(a / 2);
      Halves(And(a, 1), if a % 2 == 1 then 1 else 0);
    } else {
      assert Pow2(k) / 2 == Pow2(k - 1) && Pow2(k) % 2 == 0;
      AndPow2(a / 2, k - 1);
      Halves(And(a, Pow2(k)), if Bit(a, k) == 1 then Pow2(k) else 0);
    }
  }

  /** The position of the lowest set bit of a non-zero number. */
  function TrailingZeros(x: int): (k: nat)
    requires x != 0
    ensures Bit(x, k) == 1
    ensures forall j :: 0 <= j < k ==> Bit(x, j) == 0
    decreases Size(x)
  {
    if x % 2 == 1 then 0
    else
      HalfShrinks(x);
      var k := 1 + TrailingZeros(x / 2);
      assert forall j :: 0 < j < k ==> Bit(x, j) == Bit(x / 2, j - 1);
      k
  }

  /** `x & -x` isolates the lowest set bit of a non-zero `x`, and is 0 for 0. */
  lemma {:induction false} LowestSetBit(x: int)
    ensures x == 0 ==> And(x, -x) == 0
    ensures x != 0 ==> And(x, -x) == Pow2(TrailingZeros(x))
    decreases Size(x)
  {
    if x == 0 {
      AndZero(0);
    } else if x % 2 == 1 {
      AndStep(x, -x);
      var y := x / 2;
      assert (-x) / 2 == -y - 1;
      AndComplement(y);
      Halves(And(x, -x), 1);
    } else {
      HalfShrinks(x);
      var y := x / 2;
      assert (-x) / 2 == -y && (-x) % 2 == 0;
      LowestSetBit(y);
      AndStep(x, -x);
      Halves(And(x, -x), Pow2(TrailingZeros(x)));
    }
  }
}
