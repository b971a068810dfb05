module Bits {
  /** Bitwise exclusive or of two naturals, as Python computes `a ^ b` on non-negative ints. */
  function Xor(a: nat, b: nat): nat
    decreases a + b
  {
    if a == 0 && b == 0 then 0 else 2 * Xor(a / 2, b / 2) + (a % 2 + b % 2) % 2
  }

  lemma XorZero(a: nat)
    ensures Xor(a, 0) == a && Xor(0, a) == a
    decreases a
  {
    if a != 0 { XorZero(a / 2); }
  }

  lemma XorSelf(a: nat)
    ensures Xor(a, a) == 0
    decreases a
  {
    if a != 0 { XorSelf(a / 2); }
  }

  lemma XorComm(a: nat, b: nat)
    ensures Xor(a, b) == Xor(b, a)
    decreases a + b
  {
    if a != 0 || b != 0 { XorComm(a / 2, b / 2); }
  }

  /** The low bit of n is set. */
  predicate Odd(n: nat)
  {
    n % 2 == 1
  }

  /** Xor works bit by bit: halving commutes with it, and the low bit of the result is
      set exactly when one of the operands' low bits is. */
  lemma XorBits(a: nat, b: nat)
    ensures Xor(a, b) / 2 == Xor(a / 2, b / 2)
    ensures Odd(Xor(a, b)) <==> Odd(a) != Odd(b)
  {
    if a != 0 || b != 0 {
      var x := Xor(a / 2, b / 2);
      var bit := (a % 2 + b % 2) % 2;
      assert Xor(a, b) == 2 * x + bit;
      Halve(x, bit);
    }
  }

  lemma Halve(x: nat, bit: nat)
    requires bit < 2
    ensures (2 * x + bit) / 2 == x && (2 * x + bit) % 2 == bit
  {
  }

  /** A natural is determined by its half and its low bit. */
  lemma SameHalves(l: nat, r: nat)
    requires l / 2 == r / 2 && (Odd(l) <==> Odd(r))
    ensures l == r
  {
  }

  lemma {:induction false} XorAssoc(a: nat, b: nat, c: nat)
    ensures Xor(Xor(a, b), c) == Xor(a, Xor(b, c))
    decreases a + b + c
  {
    if a != 0 || b != 0 || c != 0 {
      XorAssoc(a / 2, b / 2, c / 2);
      XorBits(a, b);
      XorBits(b, c);
      XorBits(Xor(a, b), c);
      XorBits(a, Xor(b, c));
      SameHalves(Xor(Xor(a, b), c), Xor(a, Xor(b, c)));
    }
  }

  lemma XorUndo(a: nat, b: nat)
    ensures Xor(Xor(a, b), b) == a
  {
    XorAssoc(a, b, b);
    XorSelf(b);
    XorZero(a);
  }

  /** Swapping the last two of three operands. */
  lemma XorSwapLast(a: nat, b: nat, c: nat)
    ensures Xor(Xor(a, b), c) == Xor(Xor(a, c), b)
  {
    XorAssoc(a, b, c);
    XorComm(b, c);
    XorAssoc(a, c, b);
  }

  /** Moving the last of four operands to second place. */
  lemma XorMoveLast(a: nat, b: nat, c: nat, d: nat)
    ensures Xor(Xor(Xor(a, b), c), d) == Xor(Xor(Xor(a, d), b), c)
  {
    XorAssoc(Xor(a, b), c, d);
    XorComm(c, d);
    XorAssoc(Xor(a, b), d, c);
    XorAssoc(a, b, d);
    XorComm(b, d);
    XorAssoc(a, d, b);
  }

  /** A common operand cancels between two xors. */
  lemma XorCancelCommon(a: nat, b: nat, x: nat)
    ensures Xor(Xor(a, x), Xor(b, x)) == Xor(a, b)
  {
    XorAssoc(Xor(a, x), b, x);
    XorSwapLast(a, x, b);
    XorUndo(Xor(a, b), x);
  }

  /** Two common operands cancel between two xors. */
  lemma XorCancelPair(a: nat, b: nat, x: nat, y: nat)
    ensures Xor(Xor(Xor(a, x), y), Xor(Xor(b, x), y)) == Xor(a, b)
  {
    XorCancelCommon(Xor(a, x), Xor(b, x), y);
    XorCancelCommon(a, b, x);
  }

  /** Pairs of xors can be regrouped. */
  lemma XorRegroup(a: nat, b: nat, c: nat, d: nat)
    ensures Xor(Xor(a, b), Xor(c, d)) == Xor(Xor(a, c), Xor(b, d))
  {
    XorAssoc(Xor(a, b), c, d);
    XorSwapLast(a, b, c);
    XorAssoc(Xor(a, c), b, d);
  }

  /** Xor by the same value is injective. */
  lemma XorInjective(a: nat, b: nat, x: nat)
    requires Xor(a, x) == Xor(b, x)
    ensures a == b
  {
    XorUndo(a, x);
    XorUndo(b, x);
  }
}
