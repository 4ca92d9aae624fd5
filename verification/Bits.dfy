/** Exclusive or on non-negative integers, and the algebra the CRC and the hashes rest on. */
module Bits {
  import opened Machine

  function Xor(a: nat, b: nat): nat
    decreases a + b
  {
    if a == 0 && b == 0 then 0 else (a + b) % 2 + 2 * Xor(a / 2, b / 2)
  }

  /** Logical shift right. */
  function Shr(a: nat, k: nat): nat
    decreases k
  {
    if k == 0 then a else Shr(a / 2, k - 1)
  }

  /** Bit `i` of a number. */
  function Bit(a: nat, i: nat): nat {
    Shr(a, i) % 2
  }

  lemma XorUnfold(a: nat, b: nat)
    ensures Xor(a, b) / 2 == Xor(a / 2, b / 2)
    ensures Xor(a, b) % 2 == (a + b) % 2
  {
  }

  lemma {:induction false} XorComm(a: nat, b: nat)
    ensures Xor(a, b) == Xor(b, a)
    decreases a + b
  {
    if a != 0 || b != 0 {
      XorComm(a / 2, b / 2);
    }
  }

  lemma {:induction false} XorZero(a: nat)
    ensures Xor(a, 0) == a && Xor(0, a) == a
  {
    if a == 0 {
    } else {
      XorZero(a / 2);
    }
  }

  lemma {:induction false} XorSelf(a: nat)
    ensures Xor(a, a) == 0
  {
    if a == 0 {
    } else {
      XorSelf(a / 2);
    }
  }

  lemma {:induction false} XorAssoc(a: nat, b: nat, c: nat)
    ensures Xor(Xor(a, b), c) == Xor(a, Xor(b, c))
    decreases a + b + c
  {
    if a != 0 || b != 0 || c != 0 {
      XorAssoc(a / 2, b / 2, c / 2);
      var ab, bc := Xor(a, b), Xor(b, c);
      XorUnfold(a, b);
      XorUnfold(b, c);
      XorUnfold(ab, c);
      XorUnfold(a, bc);
      AssocParity(a, b, c, ab, bc);
      var l, r := Xor(ab, c), Xor(a, bc);
      assert l / 2 == r / 2 && l % 2 == r % 2;
    }
  }

  lemma AssocParity(a: nat, b: nat, c: nat, ab: nat, bc: nat)
    requires ab % 2 == (a + b) % 2 && bc % 2 == (b + c) % 2
    ensures (ab + c) % 2 == (a + bc) % 2
  {
  }

  /** Applying the same operand twice gives back the other. */
  lemma XorCancels(a: nat, b: nat)
    ensures Xor(a, Xor(a, b)) == b
    ensures Xor(Xor(b, a), a) == b
  {
    XorAssoc(a, a, b);
    XorAssoc(b, a, a);
    XorSelf(a);
    XorZero(b);
  }

  lemma XorInjective(a: nat, b: nat, c: nat)
    requires Xor(a, b) == Xor(a, c) || Xor(b, a) == Xor(c, a)
    ensures b == c
  {
    XorCancels(a, b);
    XorCancels(a, c);
  }

  /** Two sums with a common middle: the rearrangement linearity proofs need. */
  lemma XorSwap(a: nat, b: nat, c: nat, d: nat)
    ensures Xor(Xor(a, b), Xor(c, d)) == Xor(Xor(a, c), Xor(b, d))
  {
    XorAssoc(a, b, Xor(c, d));
    XorAssoc(b, c, d);
    XorComm(b, c);
    XorAssoc(c, b, d);
    XorAssoc(a, c, Xor(b, d));
  }

  lemma {:induction false} XorBound(a: nat, b: nat, k: nat)
    requires a < Pow2(k) && b < Pow2(k)
    ensures Xor(a, b) < Pow2(k)
    decreases k
  {
    if k == 0 {
    } else {
      XorBound(a / 2, b / 2, k - 1);
      XorUnfold(a, b);
    }
  }

  /** Shifting right distributes over exclusive or. */
  lemma {:induction false} XorShift(a: nat, b: nat, k: nat)
    ensures Shr(Xor(a, b), k) == Xor(Shr(a, k), Shr(b, k))
    decreases k
  {
    if k == 0 {
    } else {
      XorShift(a / 2, b / 2, k - 1);
      XorUnfold(a, b);
    }
  }

  /** Exclusive or is addition modulo two in each bit. */
  lemma XorIsBitwise(a: nat, b: nat, i: nat)
    ensures Bit(Xor(a, b), i) == (Bit(a, i) + Bit(b, i)) % 2
  {
    XorShift(a, b, i);
    XorUnfold(Shr(a, i), Shr(b, i));
    ParitySum(Shr(a, i), Shr(b, i));
  }

  lemma ParitySum(x: nat, y: nat)
    ensures (x + y) % 2 == (x % 2 + y % 2) % 2
  {
  }

  lemma {:induction false} ShrAdds(a: nat, j: nat, k: nat)
    ensures Shr(Shr(a, j), k) == Shr(a, j + k)
    decreases j
  {
    if j == 0 {
    } else {
      ShrAdds(a / 2, j - 1, k);
    }
  }

  /** Shifting by `k` divides by 2^k, rounding down. */
  lemma {:induction false} ShrDivides(a: nat, k: nat)
    ensures Shr(a, k) * Pow2(k) <= a < (Shr(a, k) + 1) * Pow2(k)
    decreases k
  {
    if k == 0 {
    } else {
      ShrDivides(a / 2, k - 1);
      DoubleBounds(a, Shr(a, k), Pow2(k - 1));
    }
  }

  lemma MulTwice(q: nat, p: nat)
    ensures q * (2 * p) == 2 * (q * p)
  {
  }

  lemma DoubleBounds(a: nat, q: nat, p: nat)
    requires q * p <= a / 2 < (q + 1) * p
    ensures q * (2 * p) <= a < (q + 1) * (2 * p)
  {
    MulTwice(q, p);
    MulTwice(q + 1, p);
    HalfBelow(a, (q + 1) * p);
  }

  lemma HalfBelow(a: nat, n: nat)
    requires a / 2 < n
    ensures a < 2 * n
  {
  }

  /** Everything is shifted out of a number that fits. */
  lemma {:induction false} ShrVanishes(a: nat, k: nat)
    requires a < Pow2(k)
    ensures Shr(a, k) == 0
    decreases k
  {
    if k == 0 {
    } else {
      ShrVanishes(a / 2, k - 1);
    }
  }

  /** Numbers with no bit in common add: a multiple of 2^k and a number below 2^k. */
  lemma {:induction false} XorOfParts(high: nat, low: nat, k: nat)
    requires low < Pow2(k)
    ensures Xor(Pow2(k) * high, low) == Pow2(k) * high + low
    decreases k
  {
    if k == 0 {
      XorZero(high);
    } else {
      var h := Pow2(k - 1) * high;
      MulTwice(high, Pow2(k - 1));
      XorOfParts(high, low / 2, k - 1);
      XorOfHalves(h, low);
    }
  }

  lemma XorOfHalves(h: nat, low: nat)
    requires Xor(h, low / 2) == h + low / 2
    ensures Xor(2 * h, low) == 2 * h + low
  {
    var even := 2 * h;
    assert even / 2 == h;
    XorUnfold(even, low);
    FromHalves(Xor(even, low), h, low);
  }

  lemma FromHalves(x: nat, h: nat, low: nat)
    requires x / 2 == h + low / 2 && x % 2 == (2 * h + low) % 2
    ensures x == 2 * h + low
  {
  }
}
