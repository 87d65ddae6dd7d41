/** The word-packed bitmap of the swap file: `bitmap_create`, `bitmap_alloc`, `bitmap_mark`,
    `bitmap_unmark` and `bitmap_isset`.  It refines a sequence of booleans. */
module Bitmaps {
  import opened Words
  import opened PagerModel

  const BITS_PER_WORD: nat := 32
  const WORD_ALLBITS: nat := 0xffff_ffff

  function DivRoundUp(a: nat, b: nat): nat
    requires b > 0
  {
    (a + b - 1) / b
  }

  /** Bit k of a packed sequence of words. */
  ghost predicate BitAt(v: seq<nat>, k: nat) {
    k / BITS_PER_WORD < |v| && Bit(v[k / BITS_PER_WORD], k % BITS_PER_WORD)
  }

  /** 32-bit words, enough of them for n bits, with the bits past n marked as in use. */
  ghost predicate WellFormed(v: seq<nat>, n: nat) {
    && |v| == DivRoundUp(n, BITS_PER_WORD)
    && (forall i :: 0 <= i < |v| ==> v[i] < Pow2(BITS_PER_WORD))
    && (forall k: nat :: n <= k < |v| * BITS_PER_WORD ==> BitAt(v, k))
  }

  ghost function Unpacked(v: seq<nat>, n: nat): (u: seq<bool>)
    ensures |u| == n
  {
    seq(n, k requires 0 <= k => BitAt(v, k))
  }

  lemma AllBits()
    ensures WORD_ALLBITS == Pow2(BITS_PER_WORD) - 1
  {
    assert Pow2(8) == 256;
    assert Pow2(16) == 65536;
    assert Pow2(24) == 0x100_0000;
  }

  /** Setting bit k of the words sets entry k and no other. */
  lemma MarkUnpacked(v: seq<nat>, n: nat, k: nat)
    requires WellFormed(v, n) && k < n
    ensures var i := k / BITS_PER_WORD;
      i < |v| && var w := v[i := Or(v[i], Pow2(k % BITS_PER_WORD))];
      WellFormed(w, n) && Unpacked(w, n) == Unpacked(v, n)[k := true]
  {
    var i, o := k / BITS_PER_WORD, k % BITS_PER_WORD;
    var w := v[i := Or(v[i], Pow2(o))];
    Pow2Monotone(o, BITS_PER_WORD);
    OrBound(v[i], Pow2(o), BITS_PER_WORD);
    forall j: nat | j < |v| * BITS_PER_WORD ensures BitAt(w, j) <==> j == k || BitAt(v, j) {
      SetBit(v[i], o, j % BITS_PER_WORD);
    }
  }

  lemma UnmarkUnpacked(v: seq<nat>, n: nat, k: nat)
    requires WellFormed(v, n) && k < n
    ensures var i := k / BITS_PER_WORD;
      i < |v| && var w := v[i := AndNot(v[i], Pow2(k % BITS_PER_WORD))];
      WellFormed(w, n) && Unpacked(w, n) == Unpacked(v, n)[k := false]
  {
    var i, o := k / BITS_PER_WORD, k % BITS_PER_WORD;
    var w := v[i := AndNot(v[i], Pow2(o))];
    AndNotBound(v[i], Pow2(o));
    forall j: nat | j < |v| * BITS_PER_WORD ensures BitAt(w, j) <==> j != k && BitAt(v, j) {
      ClearBit(v[i], o, j % BITS_PER_WORD);
    }
  }

  /** A word of all ones has no free bit; any other word that is fully in range has one. */
  lemma FullWord(v: seq<nat>, n: nat, i: nat)
    requires WellFormed(v, n) && i < |v|
    ensures v[i] == WORD_ALLBITS ==> forall k: nat :: k / BITS_PER_WORD == i ==> BitAt(v, k)
    ensures v[i] != WORD_ALLBITS ==> exists o: nat :: o < BITS_PER_WORD && !Bit(v[i], o)
  {
    AllBits();
    if v[i] == WORD_ALLBITS {
      forall k: nat | k / BITS_PER_WORD == i ensures BitAt(v, k) { AllOnesBit(BITS_PER_WORD, k % BITS_PER_WORD); }
    } else {
      NotAllOnes(v[i], BITS_PER_WORD);
    }
  }

  /** The index below which every bit is set and which is itself clear is the lowest free one. */
  lemma LowestFree(v: seq<nat>, n: nat, k: nat)
    requires WellFormed(v, n) && k < |v| * BITS_PER_WORD && !BitAt(v, k)
    requires forall j: nat :: j < k ==> BitAt(v, j)
    ensures k < n && FreeSlot(Unpacked(v, n)) == k
  {
    var u := Unpacked(v, n);
    assert k < n;
    assert !u[k] && forall j :: 0 <= j < k ==> u[j];
  }

  class Bitmap {
    const nbits: nat
    const v: array<nat>

    ghost predicate Valid()
      reads v
    {
      WellFormed(v[..], nbits)
    }

    /** Which bits are in use. */
    ghost function Used(): (u: seq<bool>)
      reads v
      ensures |u| == nbits
    {
      Unpacked(v[..], nbits)
    }

    /** `bitmap_create`: all clear, except the leftover bits of the last word. */
    constructor (n: nat)
      ensures Valid() && nbits == n && fresh(v)
      ensures Used() == seq(n, _ => false)
    {
      var words := DivRoundUp(n, BITS_PER_WORD);
      nbits := n;
      v := new nat[words](_ => 0);
      new;
      hide Bit, Pow2;
      if words > n / BITS_PER_WORD {
        MarkLeftover(words - 1, n - (words - 1) * BITS_PER_WORD);
      }
      forall k: nat | k < n ensures !BitAt(v[..], k) {
        ZeroHasNoBits(k % BITS_PER_WORD);
      }
    }

    /** The loop of `bitmap_create` that marks the bits past the end in use. */
    method MarkLeftover(ix: nat, overbits: nat)
      requires ix < v.Length && v[ix] == 0 && 0 < overbits < BITS_PER_WORD
      modifies v
      ensures v[ix] < Pow2(BITS_PER_WORD)
      ensures forall i :: 0 <= i < v.Length && i != ix ==> v[i] == old(v[i])
      ensures forall o: nat :: o < BITS_PER_WORD ==> (Bit(v[ix], o) <==> overbits <= o)
    {
      var j := overbits;
      forall o: nat ensures !Bit(0, o) { ZeroHasNoBits(o); }
      while j < BITS_PER_WORD
        invariant overbits <= j <= BITS_PER_WORD
        invariant v[ix] < Pow2(BITS_PER_WORD)
        invariant forall i :: 0 <= i < v.Length && i != ix ==> v[i] == old(v[i])
        invariant forall o: nat :: o < BITS_PER_WORD ==> (Bit(v[ix], o) <==> overbits <= o < j)
      {
        forall o: nat ensures Bit(Or(v[ix], Pow2(j)), o) <==> o == j || Bit(v[ix], o) { SetBit(v[ix], j, o); }
        Pow2Monotone(j, BITS_PER_WORD);
        OrBound(v[ix], Pow2(j), BITS_PER_WORD);
        v[ix] := Or(v[ix], Pow2(j));
        j := j + 1;
      }
    }

    /** `bitmap_alloc`: marks the lowest free bit; fails only when none is free. */
    method Alloc() returns (ok: bool, index: nat)
      requires Valid()
      modifies v
      ensures Valid()
      ensures ok <==> FreeSlot(old(Used())) < nbits
      ensures ok ==> index == FreeSlot(old(Used())) && Used() == old(Used())[index := true]
      ensures !ok ==> Used() == old(Used())
    {
      var ix := 0;
      while ix < v.Length
        invariant 0 <= ix <= v.Length
        invariant v[..] == old(v[..])
        invariant forall k: nat :: k < ix * BITS_PER_WORD ==> BitAt(v[..], k)
      {
        FullWord(v[..], nbits, ix);
        if v[ix] != WORD_ALLBITS {
          var offset := FirstClear(ix);
          index := ix * BITS_PER_WORD + offset;
          LowestFree(v[..], nbits, index);
          assert index < nbits;
          MarkUnpacked(v[..], nbits, index);
          v[ix] := Or(v[ix], Pow2(offset));
          ok := true;
          return;
        }
        ix := ix + 1;
      }
      ok, index := false, 0;
      assert forall k :: 0 <= k < nbits ==> Used()[k];
    }

    /** The inner loop of `bitmap_alloc`; its `assert(0)` is the assertion here. */
    method FirstClear(ix: nat) returns (offset: nat)
      requires Valid() && ix < v.Length && exists o: nat :: o < BITS_PER_WORD && !Bit(v[ix], o)
      ensures offset < BITS_PER_WORD && !Bit(v[ix], offset)
      ensures forall o: nat :: o < offset ==> Bit(v[ix], o)
    {
      offset := 0;
      MaskTest(v[ix], 0);
      while offset < BITS_PER_WORD && And(v[ix], Pow2(offset)) != 0
        invariant offset <= BITS_PER_WORD
        invariant And(v[ix], Pow2(offset)) != 0 <==> Bit(v[ix], offset)
        invariant forall o: nat :: o < offset ==> Bit(v[ix], o)
      {
        offset := offset + 1;
        MaskTest(v[ix], offset);
      }
      assert offset < BITS_PER_WORD;
    }

    /** `bitmap_mark`; its assertions are the preconditions. */
    method Mark(index: nat)
      requires Valid() && index < nbits && !Used()[index]
      modifies v
      ensures Valid() && Used() == old(Used())[index := true]
    {
      MarkUnpacked(v[..], nbits, index);
      var ix := index / BITS_PER_WORD;
      v[ix] := Or(v[ix], Pow2(index % BITS_PER_WORD));
    }

    /** `bitmap_unmark`. */
    method Unmark(index: nat)
      requires Valid() && index < nbits && Used()[index]
      modifies v
      ensures Valid() && Used() == old(Used())[index := false]
    {
      UnmarkUnpacked(v[..], nbits, index);
      var ix := index / BITS_PER_WORD;
      v[ix] := AndNot(v[ix], Pow2(index % BITS_PER_WORD));
    }

    /** `bitmap_isset`. */
    method IsSet(index: nat) returns (r: bool)
      requires Valid() && index < nbits
      ensures r == Used()[index]
    {
      MaskTest(v[index / BITS_PER_WORD], index % BITS_PER_WORD);
      r := And(v[index / BITS_PER_WORD], Pow2(index % BITS_PER_WORD)) != 0;
    }
  }
}
