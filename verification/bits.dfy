/** Unsigned words as natural numbers: single bits and bitwise OR. */
module Bits {
  function Pow2(k: nat): (p: nat)
    ensures p > 0
  {
    if k == 0 then 1 else 2 * Pow2(k - 1)
  }

  predicate Bit(v: nat, k: nat) {
    if k == 0 then v % 2 == 1 else Bit(v / 2, k - 1)
  }

  function Or(a: nat, b: nat): nat {
    if a == 0 then b
    else if b == 0 then a
    else 2 * Or(a / 2, b / 2) + (if a % 2 == 1 || b % 2 == 1 then 1 else 0)
  }

  lemma {:induction false} ZeroBit(k: nat)
    ensures !Bit(0, k)
  {
    if k > 0 {
      ZeroBit(k - 1);
    }
  }

  lemma {:induction false} OrBit(a: nat, b: nat, k: nat)
    ensures Bit(Or(a, b), k) <==> Bit(a, k) || Bit(b, k)
    decreases k
  {
    ZeroBit(k);
    if a != 0 && b != 0 && k > 0 {
      OrBit(a / 2, b / 2, k - 1);
    }
  }

  lemma {:induction false} SameBitsSameValue(a: nat, b: nat)
    requires forall k: nat :: Bit(a, k) <==> Bit(b, k)
    ensures a == b
    decreases a + b
  {
    if a != b {
      assert Bit(a, 0) <==> Bit(b, 0);
      forall k: nat
        ensures Bit(a / 2, k) <==> Bit(b / 2, k)
      {
        assert Bit(a, k + 1) <==> Bit(b, k + 1);
      }
      SameBitsSameValue(a / 2, b / 2);
    }
  }

  lemma {:induction false} Pow2Bit(i: nat, k: nat)
    ensures Bit(Pow2(i), k) <==> i == k
    decreases i, k
  {
    if i == 0 {
      if k > 0 {
        ZeroBit(k - 1);
      }
    } else if k > 0 {
      assert Pow2(i) / 2 == Pow2(i - 1);
      Pow2Bit(i - 1, k - 1);
    }
  }

  lemma {:induction false} HighBitsClear(v: nat, width: nat, k: nat)
    requires v < Pow2(width) && width <= k
    ensures !Bit(v, k)
    decreases width
  {
    if width == 0 {
      ZeroBit(k);
    } else {
      HighBitsClear(v / 2, width - 1, k - 1);
    }
  }

  lemma {:induction false} Pow2Increases(i: nat, j: nat)
    requires i < j
    ensures Pow2(i) < Pow2(j)
    decreases j
  {
    if i + 1 < j {
      Pow2Increases(i, j - 1);
    }
  }

  lemma {:induction false} OrFits(a: nat, b: nat, width: nat)
    requires a < Pow2(width) && b < Pow2(width)
    ensures Or(a, b) < Pow2(width)
    decreases width
  {
    if a != 0 && b != 0 {
      OrFits(a / 2, b / 2, width - 1);
    }
  }
}
