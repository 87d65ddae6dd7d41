/** Unsigned machine words as naturals, with C's bit operators written out.

    `Or(w, Pow2(k))` is `w | (1 << k)`, `AndNot(w, Pow2(k))` is `w & ~(1 << k)` and
    `And(w, Pow2(k))` is `w & (1 << k)`.  `Bit` is the reference reading of a word: the value of
    one binary digit.  The lemmas connect the two. */
module Words {

  function Pow2(k: nat): (p: nat)
    ensures p > 0
  {
    if k == 0 then 1 else 2 * Pow2(k - 1)
  }

  /** Digit k of w. */
  predicate Bit(w: nat, k: nat) {
    if k == 0 then w % 2 == 1 else Bit(w / 2, k - 1)
  }

  function Or(a: nat, b: nat): nat
    decreases a + b
  {
    if a == 0 && b == 0 then 0
    else 2 * Or(a / 2, b / 2) + (if a % 2 == 1 || b % 2 == 1 then 1 else 0)
  }

  function And(a: nat, b: nat): nat
    decreases a + b
  {
    if a == 0 && b == 0 then 0
    else 2 * And(a / 2, b / 2) + (if a % 2 == 1 && b % 2 == 1 then 1 else 0)
  }

  function AndNot(a: nat, b: nat): nat
    decreases a + b
  {
    if a == 0 && b == 0 then 0
    else 2 * AndNot(a / 2, b / 2) + (if a % 2 == 1 && b % 2 == 0 then 1 else 0)
  }

  lemma {:induction false} ZeroHasNoBits(k: nat)
    ensures !Bit(0, k)
  {
    if k > 0 { ZeroHasNoBits(k - 1); }
  }

  lemma {:induction false} OrBit(a: nat, b: nat, k: nat)
    ensures Bit(Or(a, b), k) <==> Bit(a, k) || Bit(b, k)
    decreases k
  {
    if a == 0 && b == 0 { ZeroHasNoBits(k); }
    else if k > 0 { OrBit(a / 2, b / 2, k - 1); }
  }

  lemma {:induction false} AndBit(a: nat, b: nat, k: nat)
    ensures Bit(And(a, b), k) <==> Bit(a, k) && Bit(b, k)
    decreases k
  {
    if a == 0 && b == 0 { ZeroHasNoBits(k); }
    else if k > 0 { AndBit(a / 2, b / 2, k - 1); }
  }

  lemma {:induction false} AndNotBit(a: nat, b: nat, k: nat)
    ensures Bit(AndNot(a, b), k) <==> Bit(a, k) && !Bit(b, k)
    decreases k
  {
    if a == 0 && b == 0 { ZeroHasNoBits(k); }
    else if k > 0 { AndNotBit(a / 2, b / 2, k - 1); }
  }

  lemma {:induction false} Pow2Bit(j: nat, k: nat)
    ensures Bit(Pow2(k), j) <==> j == k
    decreases k
  {
    if k > 0 {
      if j > 0 { Pow2Bit(j - 1, k - 1); }
    } else if j > 0 {
      ZeroHasNoBits(j - 1);
    }
  }

  /** Setting bit k sets bit k and no other. */
  lemma SetBit(w: nat, k: nat, j: nat)
    ensures Bit(Or(w, Pow2(k)), j) <==> j == k || Bit(w, j)
  {
    OrBit(w, Pow2(k), j);
    Pow2Bit(j, k);
  }

  /** Clearing bit k clears bit k and no other. */
  lemma ClearBit(w: nat, k: nat, j: nat)
    ensures Bit(AndNot(w, Pow2(k)), j) <==> j != k && Bit(w, j)
  {
    AndNotBit(w, Pow2(k), j);
    Pow2Bit(j, k);
  }

  /** A word is zero exactly when no digit is set. */
  lemma {:induction false} NonzeroHasBit(w: nat) returns (k: nat)
    requires w != 0
    ensures Bit(w, k) && Pow2(k) <= w
  {
    if w % 2 == 1 {
      k := 0;
    } else {
      var j := NonzeroHasBit(w / 2);
      k := j + 1;
    }
  }

  /** The mask test `w & (1 << k)` reads digit k. */
  lemma MaskTest(w: nat, k: nat)
    ensures And(w, Pow2(k)) != 0 <==> Bit(w, k)
    ensures And(w, Pow2(k)) == Pow2(k) <==> Bit(w, k)
  {
    if And(w, Pow2(k)) != 0 {
      var j := NonzeroHasBit(And(w, Pow2(k)));
      AndBit(w, Pow2(k), j);
      Pow2Bit(j, k);
    }
    AndBit(w, Pow2(k), k);
    Pow2Bit(k, k);
    ZeroHasNoBits(k);
    if Bit(w, k) { AndPow2(w, k); }
  }

  lemma {:induction false} AndPow2(w: nat, k: nat)
    requires Bit(w, k)
    ensures And(w, Pow2(k)) == Pow2(k)
    decreases k
  {
    if k > 0 {
      AndPow2(w / 2, k - 1);
    } else {
      AndZero(w / 2);
    }
  }

  lemma {:induction false} AndZero(w: nat)
    ensures And(w, 0) == 0
  {
    if w > 0 { AndZero(w / 2); }
  }

  /** Two n-digit words with the same digits are the same word. */
  lemma {:induction false} SameBits(a: nat, b: nat, n: nat)
    requires a < Pow2(n) && b < Pow2(n)
    requires forall k: nat :: k < n ==> (Bit(a, k) <==> Bit(b, k))
    ensures a == b
  {
    if n > 0 {
      assert Bit(a, 0) <==> Bit(b, 0);
      forall k: nat | k < n - 1 ensures Bit(a / 2, k) <==> Bit(b / 2, k) {
        assert Bit(a, k + 1) <==> Bit(b, k + 1);
      }
      SameBits(a / 2, b / 2, n - 1);
    }
  }

  /** Or does not widen a word. */
  lemma {:induction false} OrBound(a: nat, b: nat, n: nat)
    requires a < Pow2(n) && b < Pow2(n)
    ensures Or(a, b) < Pow2(n)
    decreases n
  {
    if n > 0 { OrBound(a / 2, b / 2, n - 1); }
  }

  lemma {:induction false} AndNotBound(a: nat, b: nat)
    ensures AndNot(a, b) <= a
    decreases a + b
  {
    if a != 0 || b != 0 { AndNotBound(a / 2, b / 2); }
  }

  lemma {:induction false} Pow2Monotone(j: nat, k: nat)
    requires j < k
    ensures Pow2(j) < Pow2(k)
    decreases k
  {
    if j > 0 { Pow2Monotone(j - 1, k - 1); } else if k > 1 { Pow2Monotone(0, k - 1); }
  }

  /** The word of n ones, C's all-bits mask, has every one of its n digits set. */
  lemma {:induction false} AllOnesBit(n: nat, k: nat)
    requires k < n
    ensures Bit((Pow2(n) - 1) as nat, k)
    decreases n
  {
    if k > 0 {
      assert (Pow2(n) - 1) / 2 == Pow2(n - 1) - 1;
      AllOnesBit(n - 1, k - 1);
    }
  }

  /** A word other than the all-ones mask has a clear digit. */
  lemma NotAllOnes(w: nat, n: nat)
    requires w < Pow2(n) && w != Pow2(n) - 1
    ensures exists k: nat :: k < n && !Bit(w, k)
  {
    if forall k: nat :: k < n ==> Bit(w, k) {
      forall k: nat | k < n ensures Bit(w, k) <==> Bit((Pow2(n) - 1) as nat, k) { AllOnesBit(n, k); }
      SameBits(w, (Pow2(n) - 1) as nat, n);
    }
  }
}
