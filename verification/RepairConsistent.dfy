/** What the consistency tool makes of an image that the other tools have kept consistent. */
module RepairConsistent {
  import opened Counting
  import opened Ext2Model
  import opened Undelete
  import opened AllocationRuns
  import opened CopyIn
  import opened TypesAgree
  import Repair
  import RepairRuns

  /** The same disk as both models see it: the tool's bitmaps go on behind the last block and inode, and
      the bits there are set. */
  ghost predicate Agrees(s: Repair.Image, f: Fs) {
    && Repair.Sized(s) && Shape(f) && s.counters == f.counters && s.table == f.table && s.blocks == f.blocks
    && |f.ibits| <= 8 * |s.table| && |f.bbits| <= 8 * |s.blocks|
    && s.ibits[..|f.ibits|] == f.ibits && s.bbits[..|f.bbits|] == f.bbits
    && (forall i :: |f.ibits| <= i < |s.ibits| ==> s.ibits[i])
    && (forall i :: |f.bbits| <= i < |s.bbits| ==> s.bbits[i])
  }

  lemma PaddedCount(bits: seq<bool>, used: nat, counted: nat)
    requires used <= counted <= |bits| && forall i :: used <= i < |bits| ==> bits[i]
    ensures Count(bits[..counted], false) == Count(bits[..used], false)
  {
    assert bits[..counted] == bits[..used] + bits[used..counted];
    CountAppend(bits[..used], bits[used..counted], false);
    AllSetNoneClear(bits[used..counted]);
  }

  /** Counters that the other tools keep exact are exact to the tool, although it counts whole bytes. */
  lemma CountedIsExact(s: Repair.Image, f: Fs)
    requires Agrees(s, f) && Counted(f)
    ensures Repair.Exact(s)
  {
    PaddedCount(s.ibits, |f.ibits|, 8 * |s.table|);
    PaddedCount(s.bbits, |f.bbits|, 8 * |s.blocks|);
  }

  /** An entry as the other tools leave it: of the right type, naming a live inode that is not deleted
      and has no indirect block. */
  ghost predicate Sound(s: Repair.Image, f: Fs, slot: Repair.Slot)
    requires Repair.Fixable(s, slot)
  {
    var x := Repair.InodeAt(s, slot) - 1;
    NamesTyped(f, s.dirs[slot.n][slot.k]) && s.table[x].dtime == 0 && s.table[x].sectors / 2 <= DIRECT
  }

  lemma SoundIsClean(s: Repair.Image, f: Fs, slot: Repair.Slot)
    requires Agrees(s, f) && Inv(f) && Repair.Fixable(s, slot) && Sound(s, f, slot)
    ensures Repair.Clean(s, slot)
  {
    var x := Repair.InodeAt(s, slot) - 1;
    assert Owns(f, x);
    var list := BlockList(f, x);
    assert s.ibits[..|f.ibits|][x];
    forall i | 0 <= i < s.table[x].sectors / 2 ensures Repair.BitSet(s, x, i) {
      assert Repair.Counted(s, x, i);
      assert list[i] == s.table[x].block[i];
      assert s.bbits[..|f.bbits|][list[i] - 1];
    }
  }

  /** On a consistent image whose entries are sound the tool performs no fix and changes nothing. */
  lemma NothingToRepair(s: Repair.Image, f: Fs, u: int)
    requires RepairRuns.Checkable(s) && Agrees(s, f) && Inv(f)
    requires forall j :: 0 <= j < |RepairRuns.AllSlots(s)| ==> Sound(s, f, RepairRuns.AllSlots(s)[j])
    ensures RepairRuns.Check(s, u) == (s, 0)
  {
    CountedIsExact(s, f);
    Repair.CountersFixed(s);
    var slots := RepairRuns.AllSlots(s);
    forall j | 0 <= j < |slots| ensures Repair.Clean(s, slots[j]) { SoundIsClean(s, f, slots[j]); }
    RepairRuns.RunIsIdle(s, u, slots, |slots|);
  }

  // ---- Files with an indirect block ----

  /** Bit i is set, which is the bit of block i + 1. */
  predicate BitAt(s: Repair.Image, i: nat) {
    i < |s.bbits| && s.bbits[i]
  }

  /** What the tool tests at a sound entry of a larger file.  For the indirect block it takes a bit that entry
      12 of that block names, and for each block that the indirect block lists the bit of the next block. */
  lemma IndirectMisread(s: Repair.Image, f: Fs, slot: Repair.Slot)
    requires Agrees(s, f) && Inv(f) && Repair.Fixable(s, slot) && NamesTyped(f, s.dirs[slot.n][slot.k])
    requires var x := Repair.InodeAt(s, slot) - 1; s.table[x].dtime == 0 && s.table[x].sectors / 2 > DIRECT
    ensures var x := Repair.InodeAt(s, slot) - 1; CanRemove(f, x) && f.table[x].block[DIRECT] < |f.blocks|
    ensures var x := Repair.InodeAt(s, slot) - 1;
      Repair.Clean(s, slot) <==>
        && BitAt(s, Pointer(f.blocks[f.table[x].block[DIRECT]], 12))
        && forall i :: 13 <= i < |BlockList(f, x)| ==> BitAt(s, BlockList(f, x)[i])
  {
    var x := Repair.InodeAt(s, slot) - 1;
    assert Owns(f, x);
    var list := BlockList(f, x);
    assert s.ibits[..|f.ibits|][x];
    forall i | 0 <= i < |list| ensures Repair.BitSet(s, x, i) == Tested(s, f, x, i) { TestedAt(s, f, x, i); }
    AllTested(s, f, x);
    assert Repair.Clean(s, slot) <==> forall i :: 0 <= i < |list| ==> Repair.BitSet(s, x, i);
  }

  lemma AllTested(s: Repair.Image, f: Fs, x: nat)
    requires CanRemove(f, x) && f.table[x].block[DIRECT] < |f.blocks| && |BlockList(f, x)| > 12
    ensures (forall i :: 0 <= i < |BlockList(f, x)| ==> Tested(s, f, x, i)) <==>
      && BitAt(s, Pointer(f.blocks[f.table[x].block[DIRECT]], 12))
      && forall i :: 13 <= i < |BlockList(f, x)| ==> BitAt(s, BlockList(f, x)[i])
  {
    hide BitAt;
    var list := BlockList(f, x);
    if forall i :: 0 <= i < |list| ==> Tested(s, f, x, i) {
      assert Tested(s, f, x, 12);
      forall i | 13 <= i < |list| ensures BitAt(s, list[i]) { assert Tested(s, f, x, i); }
    }
  }

  ghost predicate Tested(s: Repair.Image, f: Fs, x: nat, i: nat)
    requires CanRemove(f, x) && i < |BlockList(f, x)| && f.table[x].block[DIRECT] < |f.blocks|
  {
    if i < 12 then true
    else if i == 12 then BitAt(s, Pointer(f.blocks[f.table[x].block[DIRECT]], 12))
    else BitAt(s, BlockList(f, x)[i])
  }

  lemma TestedAt(s: Repair.Image, f: Fs, x: nat, i: nat)
    requires Agrees(s, f) && Owns(f, x) && Repair.Mapped(s, x) && i < |BlockList(f, x)|
    requires f.table[x].block[DIRECT] < |f.blocks|
    ensures Repair.BitSet(s, x, i) == Tested(s, f, x, i)
  {
    var list := BlockList(f, x);
    assert Repair.Counted(s, x, i);
    assert list[i] == BlockNumber(f, x, i);
    if i < 12 { assert s.bbits[..|f.bbits|][list[i] - 1]; }
  }
}
