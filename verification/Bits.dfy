/** C's bitwise operators on unsigned values, defined digit by binary digit. */
module Bits {

  /** and, or, exclusive or, and `and not`. */
  datatype Op = AndOp | OrOp | XorOp | ClearOp

  function Pow2(k: nat): (r: nat)
    ensures 1 <= r
  {
    if k == 0 then 1 else 2 * Pow2(k - 1)
  }

  function Bit(op: Op, x: nat, y: nat): nat {
    match op
    case AndOp => if x == 1 && y == 1 then 1 else 0
    case OrOp => if x == 1 || y == 1 then 1 else 0
    case XorOp => if x == y then 0 else 1
    case ClearOp => if x == 1 && y == 0 then 1 else 0
  }

  function Bitwise(op: Op, a: nat, b: nat): nat
    decreases a + b
  {
    if a == 0 && b == 0 then 0 else 2 * Bitwise(op, a / 2, b / 2) + Bit(op, a % 2, b % 2)
  }

  function And(a: nat, b: nat): nat { Bitwise(AndOp, a, b) }

  function Or(a: nat, b: nat): nat { Bitwise(OrOp, a, b) }

  function Xor(a: nat, b: nat): nat { Bitwise(XorOp, a, b) }

  /** a & ~b */
  function Clear(a: nat, b: nat): nat { Bitwise(ClearOp, a, b) }

  function Shl(a: nat, k: nat): nat { if k == 0 then a else 2 * Shl(a, k - 1) }

  function Shr(a: nat, k: nat): nat { if k == 0 then a else Shr(a / 2, k - 1) }

  /** Every operator works on the high and the low part of its operands separately. */
  lemma {:induction false} Joined(op: Op, h1: nat, l1: nat, h2: nat, l2: nat, k: nat)
    requires l1 < Pow2(k) && l2 < Pow2(k)
    ensures Bitwise(op, h1 * Pow2(k) + l1, h2 * Pow2(k) + l2) ==
            Bitwise(op, h1, h2) * Pow2(k) + Bitwise(op, l1, l2)
  {
    if k > 0 {
      var q := Pow2(k - 1);
      Joined(op, h1, l1 / 2, h2, l2 / 2, k - 1);
      Halve(h1, l1, q);
      Halve(h2, l2, q);
      BitStep(op, h1 * (2 * q) + l1, h2 * (2 * q) + l2);
      BitStep(op, l1, l2);
      Double(Bitwise(op, h1, h2), q);
    }
  }

  lemma Halve(h: nat, l: nat, q: nat)
    ensures 0 <= h * (2 * q) && (h * (2 * q) + l) / 2 == h * q + l / 2 && (h * (2 * q) + l) % 2 == l % 2
  {
    Double(h, q);
  }

  lemma Double(h: nat, q: nat)
    ensures h * (2 * q) == 2 * (h * q) && 0 <= h * q
  {
  }

  lemma Positive(h: nat, q: nat)
    ensures 0 <= h * q && h * q + 0 == h * q && 0 * q == 0
  {
  }

  lemma BitStep(op: Op, a: nat, b: nat)
    ensures Bitwise(op, a, b) == 2 * Bitwise(op, a / 2, b / 2) + Bit(op, a % 2, b % 2)
  {
  }

  lemma {:induction false} WithZero(op: Op, a: nat)
    requires !op.ClearOp?
    ensures Bitwise(op, a, 0) == Bitwise(op, 0, a) == if op.AndOp? then 0 else a
  {
    if a != 0 {
      WithZero(op, a / 2);
    }
  }

  /** The result needs no more binary digits than the operands. */
  lemma {:induction false} Bounded(op: Op, a: nat, b: nat, k: nat)
    requires a < Pow2(k) && b < Pow2(k)
    ensures Bitwise(op, a, b) < Pow2(k)
  {
    if k > 0 {
      Bounded(op, a / 2, b / 2, k - 1);
    }
  }

  /** Or-ing a number into the zeroes below a multiple of a power of two is addition. */
  lemma OrDisjoint(h: nat, l: nat, k: nat)
    requires l < Pow2(k)
    ensures 0 <= h * Pow2(k) && Or(h * Pow2(k), l) == h * Pow2(k) + l
  {
    Positive(h, Pow2(k));
    Joined(OrOp, h, 0, 0, l, k);
    WithZero(OrOp, h);
    WithZero(OrOp, l);
  }

  /** Masking with k ones keeps the low k digits. */
  lemma {:induction false} AndOnes(h: nat, l: nat, k: nat)
    requires l < Pow2(k)
    ensures 0 <= h * Pow2(k) && And(h * Pow2(k) + l, Pow2(k) - 1) == l
  {
    var p := Pow2(k);
    Positive(h, p);
    Positive(0, p);
    Joined(AndOp, h, l, 0, p - 1, k);
    assert Bitwise(AndOp, h, 0) == 0 by {
      WithZero(AndOp, h);
    }
    assert And(h * p + l, 0 * p + (p - 1)) == 0 * p + And(l, p - 1);
    AndLowOnes(l, k);
  }

  lemma {:induction false} AndLowOnes(l: nat, k: nat)
    requires l < Pow2(k)
    ensures And(l, Pow2(k) - 1) == l
  {
    if k > 0 {
      var q := Pow2(k - 1);
      AndLowOnes(l / 2, k - 1);
      assert (2 * q - 1) / 2 == q - 1 && (2 * q - 1) % 2 == 1;
    }
  }

  lemma {:induction false} OrGrows(a: nat, b: nat)
    ensures a <= Or(a, b)
    decreases a + b
  {
    if a != 0 || b != 0 {
      OrGrows(a / 2, b / 2);
    }
  }

  /** Exclusive or with a fixed operand, on either side, loses nothing. */
  lemma {:induction false} XorInjective(a: nat, b: nat, c: nat)
    requires Xor(a, c) == Xor(b, c) || Xor(c, a) == Xor(c, b)
    ensures a == b
    decreases a + b + c
  {
    if a == 0 && b == 0 {
    } else {
      XorStep(a, c);
      XorStep(b, c);
      XorInjective(a / 2, b / 2, c / 2);
    }
  }

  lemma XorStep(a: nat, c: nat)
    ensures Xor(a, c) / 2 == Xor(a / 2, c / 2) && Xor(a, c) % 2 == Bit(XorOp, a % 2, c % 2)
    ensures Xor(c, a) / 2 == Xor(c / 2, a / 2) && Xor(c, a) % 2 == Bit(XorOp, c % 2, a % 2)
  {
  }

  lemma {:induction false} ShlIs(a: nat, k: nat)
    ensures Shl(a, k) == a * Pow2(k)
  {
    if k > 0 {
      ShlIs(a, k - 1);
      Double(a, Pow2(k - 1));
    }
  }

  lemma Pow2Add(a: nat, b: nat)
    ensures Pow2(a + b) == Pow2(a) * Pow2(b)
    decreases a
  {
    if a > 0 {
      Pow2Add(a - 1, b);
    }
  }

  // ---------------------------------------------------------------- single bits

  function BitAt(y: nat, i: nat): (r: nat)
    ensures r <= 1
  {
    Shr(y, i) % 2
  }

  lemma {:induction false} BitOf(op: Op, a: nat, b: nat, i: nat)
    ensures BitAt(Bitwise(op, a, b), i) == Bit(op, BitAt(a, i), BitAt(b, i))
    decreases i
  {
    BitStep(op, a, b);
    var h := Bitwise(op, a / 2, b / 2);
    var x := Bit(op, a % 2, b % 2);
    assert Bitwise(op, a, b) == 2 * h + x && (2 * h + x) / 2 == h && (2 * h + x) % 2 == x;
    if i > 0 {
      BitOf(op, a / 2, b / 2, i - 1);
    }
  }

  lemma {:induction false} BitOfShr(y: nat, t: nat, i: nat)
    ensures BitAt(Shr(y, t), i) == BitAt(y, i + t)
    decreases t
  {
    if t > 0 {
      BitOfShr(y / 2, t - 1, i);
    }
  }

  lemma {:induction false} ZeroBits(y: nat, k: nat, i: nat)
    requires y < Pow2(k) && k <= i
    ensures BitAt(y, i) == 0
    decreases i
  {
    if k == 0 {
      ShrZero(i);
    } else {
      ZeroBits(y / 2, k - 1, i - 1);
    }
  }

  lemma {:induction false} ShrZero(i: nat)
    ensures Shr(0, i) == 0
  {
    if i > 0 {
      ShrZero(i - 1);
    }
  }

  /** A number with no bit set is zero. */
  lemma {:induction false} NoBits(y: nat, k: nat)
    requires y < Pow2(k) && forall i :: 0 <= i < k ==> BitAt(y, i) == 0
    ensures y == 0
  {
    if k > 0 {
      assert BitAt(y, 0) == y % 2;
      forall i | 0 <= i < k - 1 ensures BitAt(y / 2, i) == 0 {
        assert BitAt(y, i + 1) == 0;
      }
      NoBits(y / 2, k - 1);
    }
  }

  lemma {:induction false} BitOfPow2(j: nat, i: nat)
    ensures BitAt(Pow2(j), i) == if i == j then 1 else 0
    decreases j
  {
    if j == 0 {
      if i > 0 {
        ShrZero(i - 1);
      }
    } else {
      assert Pow2(j) / 2 == Pow2(j - 1) && Pow2(j) % 2 == 0;
      if i > 0 {
        BitOfPow2(j - 1, i - 1);
      }
    }
  }
}
