/** The four corrections of an entry are calls in one expression, whose order the language leaves open.
    It does not matter: each writes a part of the image that no other one reads. */
module RepairOrder {
  import opened DirBlocks
  import opened Repair

  /** The fixes in the order given. */
  ghost function FixesIn(s: Image, slot: Slot, order: seq<nat>): (Image, nat)
    requires Fixable(s, slot)
    decreases |order|
  {
    if order == [] then (s, 0)
    else
      var (t, one) := FixOne(s, slot, order[0]);
      FixOneKeeps(s, slot, order[0]);
      var (u, fixes) := FixesIn(t, slot, order[1..]);
      (u, one + fixes)
  }

  /** Both images agree on what fix k writes. */
  ghost predicate Agree(s: Image, t: Image, k: nat) {
    if k == 1 then t.dirs == s.dirs && t.blocks == s.blocks
    else if k == 2 then
      t.ibits == s.ibits && t.counters.sbInodes == s.counters.sbInodes && t.counters.gdInodes == s.counters.gdInodes
    else if k == 3 then t.table == s.table
    else t.bbits == s.bbits && t.counters.sbBlocks == s.counters.sbBlocks && t.counters.gdBlocks == s.counters.gdBlocks
  }

  lemma {:induction false} BitsAlone(s: Image, x: nat, i: nat)
    requires Sized(s) && Mapped(s, x) && i <= s.table[x].sectors / 2
    ensures var t := FixBits(s, x, i).0;
      t.counters.sbInodes == s.counters.sbInodes && t.counters.gdInodes == s.counters.gdInodes
  {
    hide BitOf;
    if i > 0 {
      BitsAlone(s, x, i - 1);
      assert Counted(s, x, i - 1);
    }
  }

  /** A fix writes its own part only. */
  lemma WritesOwn(s: Image, slot: Slot, j: nat, k: nat)
    requires Fixable(s, slot) && 1 <= j <= 4 && 1 <= k <= 4 && j != k
    ensures Agree(s, FixOne(s, slot, j).0, k) && FixOne(s, slot, j).0.firstInode == s.firstInode
  {
    hide Tiled, Counted;
    var x := InodeAt(s, slot) - 1;
    if j == 4 { BitsAlone(s, x, s.table[x].sectors / 2); }
  }

  lemma {:induction false} BitsLocal(s: Image, t: Image, x: nat, i: nat)
    requires Sized(s) && Mapped(s, x) && Sized(t) && Mapped(t, x) && SameShape(s, t) && Agree(s, t, 4)
    requires i <= s.table[x].sectors / 2 && i <= t.table[x].sectors / 2
    requires forall j :: 0 <= j < i ==> BitOf(t, x, j) == BitOf(s, x, j)
    ensures Agree(FixBits(s, x, i).0, FixBits(t, x, i).0, 4) && FixBits(t, x, i).1 == FixBits(s, x, i).1
  {
    hide BitOf, SameShape, Mapped, Sized;
    if i > 0 {
      BitsLocal(s, t, x, i - 1);
      BitLocal(s, t, x, i);
    }
  }

  lemma BitLocal(s: Image, t: Image, x: nat, i: nat)
    requires Sized(s) && Mapped(s, x) && Sized(t) && Mapped(t, x)
    requires 0 < i <= s.table[x].sectors / 2 && i <= t.table[x].sectors / 2
    requires BitOf(t, x, i - 1) == BitOf(s, x, i - 1)
    requires Agree(FixBits(s, x, i - 1).0, FixBits(t, x, i - 1).0, 4)
    requires FixBits(t, x, i - 1).1 == FixBits(s, x, i - 1).1
    ensures Agree(FixBits(s, x, i).0, FixBits(t, x, i).0, 4) && FixBits(t, x, i).1 == FixBits(s, x, i).1
  {
    assert Counted(s, x, i - 1) && Counted(t, x, i - 1);
    var u, v := FixBits(s, x, i - 1).0, FixBits(t, x, i - 1).0;
    assert BitOf(u, x, i - 1) == BitOf(s, x, i - 1) && BitOf(v, x, i - 1) == BitOf(t, x, i - 1);
  }

  /** A fix reads its own part and what no fix writes. */
  lemma ReadsOwn(s: Image, t: Image, slot: Slot, k: nat)
    requires Fixable(s, slot) && Fixable(t, slot) && SameShape(s, t) && 1 <= k <= 4 && Agree(s, t, k)
    ensures Agree(FixOne(s, slot, k).0, FixOne(t, slot, k).0, k) && FixOne(t, slot, k).1 == FixOne(s, slot, k).1
  {
    hide Tiled, Counted, SameShape, TypeByte;
    var x := InodeAt(s, slot) - 1;
    SameSlot(s, t, slot);
    SameInode(s, t, x);
    if k == 4 {
      KeptMapped(s, t, x);
      BitsLocal(s, t, x, s.table[x].sectors / 2);
    }
  }

  ghost predicate NoneTwice(order: seq<nat>) {
    && (forall i :: 0 <= i < |order| ==> 1 <= order[i] <= 4)
    && forall i, j :: 0 <= i < j < |order| ==> order[i] != order[j]
  }

  ghost function Share(s: Image, slot: Slot, order: seq<nat>, k: nat): nat
    requires Fixable(s, slot)
  {
    if k in order then FixOne(s, slot, k).1 else 0
  }

  /** Every part is as its fix alone would leave it. */
  ghost predicate PartsFixed(s: Image, slot: Slot, order: seq<nat>, t: Image)
    requires Fixable(s, slot)
  {
    forall k: nat :: 1 <= k <= 4 ==> Agree(if k in order then FixOne(s, slot, k).0 else s, t, k)
  }

  lemma {:induction false} PartByPart(s: Image, slot: Slot, order: seq<nat>)
    requires Fixable(s, slot) && NoneTwice(order)
    ensures var (t, fixes) := FixesIn(s, slot, order);
      && PartsFixed(s, slot, order, t) && t.firstInode == s.firstInode
      && fixes
           == Share(s, slot, order, 1) + Share(s, slot, order, 2) + Share(s, slot, order, 3) + Share(s, slot, order, 4)
    decreases |order|
  {
    hide Fixable, FixOne, SameShape, Agree;
    if order == [] {
      forall k: nat | 1 <= k <= 4 ensures Agree(s, s, k) { AgreeSelf(s, k); }
    } else {
      var j, rest := order[0], order[1..];
      FixOneKeeps(s, slot, j);
      var t := FixOne(s, slot, j).0;
      PartByPart(t, slot, rest);
      WritesOwn(s, slot, j, if j == 1 then 2 else 1);
      var u := FixesIn(s, slot, order).0;
      forall k: nat | 1 <= k <= 4
        ensures Agree(if k in order then FixOne(s, slot, k).0 else s, u, k)
        ensures Share(t, slot, rest, k) == if k == j then 0 else Share(s, slot, order, k)
      {
        OnePart(s, slot, order, u, k);
      }
    }
  }

  lemma AgreeSelf(s: Image, k: nat)
    ensures Agree(s, s, k)
  {
  }

  lemma OnePart(s: Image, slot: Slot, order: seq<nat>, u: Image, k: nat)
    requires Fixable(s, slot) && NoneTwice(order) && order != [] && 1 <= k <= 4
    requires var t := FixOne(s, slot, order[0]).0; Kept(s, t) && Fixable(t, slot) && PartsFixed(t, slot, order[1..], u)
    ensures Agree(if k in order then FixOne(s, slot, k).0 else s, u, k)
    ensures Share(FixOne(s, slot, order[0]).0, slot, order[1..], k)
      == if k == order[0] then 0 else Share(s, slot, order, k)
  {
    hide Fixable, FixOne, SameShape;
    var j, rest := order[0], order[1..];
    var t := FixOne(s, slot, j).0;
    assert order == [j] + rest;
    assert j !in rest;
    assert Agree(if k in rest then FixOne(t, slot, k).0 else t, u, k);
    if k != j {
      WritesOwn(s, slot, j, k);
      ReadsOwn(s, t, slot, k);
    }
  }

  lemma FourParts(s: Image, t: Image)
    requires t.firstInode == s.firstInode && Agree(s, t, 1) && Agree(s, t, 2) && Agree(s, t, 3) && Agree(s, t, 4)
    ensures t == s
  {
  }

  ghost predicate AllFour(order: seq<nat>) {
    NoneTwice(order) && forall k: nat :: 1 <= k <= 4 ==> k in order
  }

  /** The order in which the code writes them down. */
  lemma AsWritten(s: Image, slot: Slot)
    requires Fixable(s, slot)
    ensures AllFour([1, 2, 3, 4]) && FixesIn(s, slot, [1, 2, 3, 4]) == FixEntry(s, slot)
  {
    hide Fixable, FixOne, SameShape, Kept;
    WrittenFrom(s, slot, 0, [1, 2, 3, 4]);
  }

  lemma {:induction false} WrittenFrom(s: Image, slot: Slot, k: nat, order: seq<nat>)
    requires Fixable(s, slot) && k <= 4 && order == [1, 2, 3, 4][k..]
    ensures var t := Fixes(s, slot, k).0;
      && Fixable(t, slot)
      && Fixes(s, slot, 4)
        == (FixesIn(t, slot, order).0, Fixes(s, slot, k).1 + FixesIn(t, slot, order).1)
    decreases 4 - k
  {
    hide Fixable, FixOne, SameShape, Kept;
    FixesKept(s, slot, k);
    if k < 4 {
      assert order[0] == k + 1 && order[1..] == [1, 2, 3, 4][k + 1..];
      WrittenFrom(s, slot, k + 1, order[1..]);
    }
  }

  /** Whatever the order of the four calls, the image and the number of fixes are the same. */
  lemma AnyOrder(s: Image, slot: Slot, order: seq<nat>)
    requires Fixable(s, slot) && AllFour(order)
    ensures FixesIn(s, slot, order) == FixEntry(s, slot)
  {
    hide Fixable, FixesIn, FixOne, FixEntry, Agree, NoneTwice;
    AsWritten(s, slot);
    PartByPart(s, slot, order);
    PartByPart(s, slot, [1, 2, 3, 4]);
    SameParts(s, slot, order, FixesIn(s, slot, order).0, FixEntry(s, slot).0);
  }

  lemma SameParts(s: Image, slot: Slot, order: seq<nat>, t: Image, u: Image)
    requires Fixable(s, slot) && AllFour(order) && AllFour([1, 2, 3, 4])
    requires PartsFixed(s, slot, order, t) && PartsFixed(s, slot, [1, 2, 3, 4], u) && t.firstInode == u.firstInode
    ensures t == u
  {
    hide Fixable, FixOne, Agree, NoneTwice;
    forall k: nat | 1 <= k <= 4 ensures Agree(u, t, k) {
      assert k in order && k in [1, 2, 3, 4];
      AgreeBoth(FixOne(s, slot, k).0, t, u, k);
    }
    FourParts(u, t);
  }

  lemma AgreeBoth(s: Image, t: Image, u: Image, k: nat)
    requires Agree(s, t, k) && Agree(s, u, k)
    ensures Agree(u, t, k)
  {
  }
}
