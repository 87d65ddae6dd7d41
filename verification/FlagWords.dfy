/** The `frame` word of a page table entry: the frame number above twelve low bits, of which four are
    flags.  Or-ing, and-not-ing and testing a flag do to the word what they say to the entry. */
module FlagWords {
  import opened Words
  import opened PagerModel

  const PG_VALID: nat := 1
  const PG_DIRTY: nat := 2
  const PG_REF: nat := 4
  const PG_ONSWAP: nat := 8

  /** The word that stores an entry's frame and flags. */
  function Word(e: Entry): nat {
    e.frame * PAGE_SIZE + (if e.valid then 1 else 0) + (if e.dirty then 2 else 0)
    + (if e.ref then 4 else 0) + (if e.onswap then 8 else 0)
  }

  lemma WordBits(e: Entry)
    ensures Bit(Word(e), 0) <==> e.valid
    ensures Bit(Word(e), 1) <==> e.dirty
    ensures Bit(Word(e), 2) <==> e.ref
    ensures Bit(Word(e), 3) <==> e.onswap
    ensures Word(e) / PAGE_SIZE == e.frame
  {
    var w := Word(e);
    LowBits(w);
    Digits(w, e.frame, if e.valid then 1 else 0, if e.dirty then 1 else 0,
      if e.ref then 1 else 0, if e.onswap then 1 else 0);
  }

  /** The four low digits of a word, and what lies above the low twelve. */
  lemma Digits(w: nat, f: nat, a: nat, b: nat, c: nat, d: nat)
    requires a <= 1 && b <= 1 && c <= 1 && d <= 1 && w == 4096 * f + a + 2 * b + 4 * c + 8 * d
    ensures w % 2 == a && w / 2 % 2 == b && w / 4 % 2 == c && w / 8 % 2 == d && w / 4096 == f
  {
    var x, y, z := 2048 * f + b + 2 * c + 4 * d, 1024 * f + c + 2 * d, 512 * f + d;
    Halve(w, x, a);
    Halve(x, y, b);
    Halve(y, z, c);
    Halve(z, 256 * f, d);
    assert w / 4 == y && w / 8 == z;
  }

  lemma Halve(w: nat, q: nat, a: nat)
    requires a <= 1 && w == 2 * q + a
    ensures w / 2 == q && w % 2 == a
  {
  }

  lemma NextBit(w: nat, k: nat)
    ensures Bit(w, k + 1) == Bit(w / 2, k)
  {
  }

  lemma LowBits(w: nat)
    ensures Bit(w, 0) <==> w % 2 == 1
    ensures Bit(w, 1) <==> w / 2 % 2 == 1
    ensures Bit(w, 2) <==> w / 4 % 2 == 1
    ensures Bit(w, 3) <==> w / 8 % 2 == 1
  {
    assert w / 2 / 2 == w / 4 && w / 4 / 2 == w / 8;
    NextBit(w, 0);
    NextBit(w, 1);
    NextBit(w / 2, 0);
    NextBit(w, 2);
    NextBit(w / 2, 1);
    NextBit(w / 4, 0);
  }

  lemma {:induction false} OrValue(w: nat, k: nat)
    ensures Or(w, Pow2(k)) == if Bit(w, k) then w else w + Pow2(k)
    decreases k
  {
    if k == 0 {
      OrZero(w / 2);
    } else {
      OrValue(w / 2, k - 1);
    }
  }

  lemma {:induction false} OrZero(w: nat)
    ensures Or(w, 0) == w
  {
    if w > 0 { OrZero(w / 2); }
  }

  lemma {:induction false} AndNotValue(w: nat, k: nat)
    ensures AndNot(w, Pow2(k)) == if Bit(w, k) then w - Pow2(k) else w
    decreases k
  {
    if k == 0 {
      AndNotZero(w / 2);
    } else {
      AndNotValue(w / 2, k - 1);
      if w == 0 { ZeroHasNoBits(k); }
    }
  }

  lemma {:induction false} AndNotZero(w: nat)
    ensures AndNot(w, 0) == w
  {
    if w > 0 { AndNotZero(w / 2); }
  }

  lemma FlagPowers()
    ensures PG_VALID == Pow2(0) && PG_DIRTY == Pow2(1) && PG_REF == Pow2(2) && PG_ONSWAP == Pow2(3)
  {
  }

  /** The tests `(word & FLAG) == FLAG` and the shift that recovers the frame number. */
  lemma FlagTests(e: Entry)
    ensures And(Word(e), PG_VALID) == PG_VALID <==> e.valid
    ensures And(Word(e), PG_DIRTY) == PG_DIRTY <==> e.dirty
    ensures And(Word(e), PG_REF) == PG_REF <==> e.ref
    ensures And(Word(e), PG_ONSWAP) == PG_ONSWAP <==> e.onswap
    ensures Word(e) / PAGE_SIZE == e.frame
  {
    WordBits(e);
    FlagPowers();
    MaskTest(Word(e), 0);
    MaskTest(Word(e), 1);
    MaskTest(Word(e), 2);
    MaskTest(Word(e), 3);
  }

  lemma SetFlags(e: Entry)
    ensures Or(Word(e), PG_VALID) == Word(e.(valid := true))
    ensures Or(Word(e), PG_DIRTY) == Word(e.(dirty := true))
    ensures Or(Word(e), PG_REF) == Word(e.(ref := true))
    ensures Or(Word(e), PG_ONSWAP) == Word(e.(onswap := true))
  {
    WordBits(e);
    FlagPowers();
    OrValue(Word(e), 0);
    OrValue(Word(e), 1);
    OrValue(Word(e), 2);
    OrValue(Word(e), 3);
  }

  lemma ClearFlags(e: Entry)
    ensures AndNot(Word(e), PG_VALID) == Word(e.(valid := false))
    ensures AndNot(Word(e), PG_DIRTY) == Word(e.(dirty := false))
    ensures AndNot(Word(e), PG_REF) == Word(e.(ref := false))
    ensures AndNot(Word(e), PG_ONSWAP) == Word(e.(onswap := false))
  {
    WordBits(e);
    FlagPowers();
    AndNotValue(Word(e), 0);
    AndNotValue(Word(e), 1);
    AndNotValue(Word(e), 2);
    AndNotValue(Word(e), 3);
  }
}
