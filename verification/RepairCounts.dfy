/** Every fix that the consistency tool reports is one thing put right, and the entries it passes over stay as
    they are. */
module RepairCounts {
  import opened Counting
  import opened DirBlocks
  import opened Ext2Model
  import opened Repair
  import opened RepairRuns

  // ---- What is wrong with an image ----

  predicate WrongType(e: Entry, table: seq<Inode>) {
    1 <= e.inode <= |table| && e.fileType != TypeOf(table[e.inode - 1].mode)
  }

  function WrongTypes(es: seq<Entry>, table: seq<Inode>): nat {
    if es == [] then 0 else (if WrongType(es[0], table) then 1 else 0) + WrongTypes(es[1..], table)
  }

  function AllWrongTypes(dirs: seq<seq<Entry>>, table: seq<Inode>): nat {
    if dirs == [] then 0 else WrongTypes(dirs[0], table) + AllWrongTypes(dirs[1..], table)
  }

  function Dated(table: seq<Inode>): nat {
    if table == [] then 0 else (if table[0].dtime != 0 then 1 else 0) + Dated(table[1..])
  }

  /** Clear bits, deletion times and wrong entry types. */
  function Wrong(s: Image): nat {
    Count(s.ibits, false) + Count(s.bbits, false) + Dated(s.table) + AllWrongTypes(s.dirs, s.table)
  }

  lemma {:induction false} TypesUpdate(es: seq<Entry>, k: nat, e: Entry, table: seq<Inode>)
    requires k < |es|
    ensures WrongTypes(es[k := e], table) + (if WrongType(es[k], table) then 1 else 0)
      == WrongTypes(es, table) + (if WrongType(e, table) then 1 else 0)
  {
    if k == 0 {
      assert es[k := e][1..] == es[1..];
    } else {
      TypesUpdate(es[1..], k - 1, e, table);
      assert es[k := e][1..] == es[1..][k - 1 := e];
    }
  }

  lemma {:induction false} AllTypesUpdate(dirs: seq<seq<Entry>>, n: nat, es: seq<Entry>, table: seq<Inode>)
    requires n < |dirs|
    ensures AllWrongTypes(dirs[n := es], table) + WrongTypes(dirs[n], table)
      == AllWrongTypes(dirs, table) + WrongTypes(es, table)
  {
    if n == 0 {
      assert dirs[n := es][1..] == dirs[1..];
    } else {
      AllTypesUpdate(dirs[1..], n - 1, es, table);
      assert dirs[n := es][1..] == dirs[1..][n - 1 := es];
    }
  }

  /** Types are judged by modes alone. */
  ghost predicate SameModes(a: seq<Inode>, b: seq<Inode>) {
    |b| == |a| && forall x :: 0 <= x < |a| ==> b[x].mode == a[x].mode
  }

  lemma {:induction false} TypesByMode(es: seq<Entry>, a: seq<Inode>, b: seq<Inode>)
    requires SameModes(a, b)
    ensures WrongTypes(es, b) == WrongTypes(es, a)
  {
    if es != [] { TypesByMode(es[1..], a, b); }
  }

  lemma {:induction false} AllTypesByMode(dirs: seq<seq<Entry>>, a: seq<Inode>, b: seq<Inode>)
    requires SameModes(a, b)
    ensures AllWrongTypes(dirs, b) == AllWrongTypes(dirs, a)
  {
    if dirs != [] {
      TypesByMode(dirs[0], a, b);
      AllTypesByMode(dirs[1..], a, b);
    }
  }

  lemma {:induction false} DatedUpdate(table: seq<Inode>, x: nat, e: Inode)
    requires x < |table|
    ensures Dated(table[x := e]) + (if table[x].dtime != 0 then 1 else 0) == Dated(table)
      + (if e.dtime != 0 then 1 else 0)
  {
    if x == 0 {
      assert table[x := e][1..] == table[1..];
    } else {
      DatedUpdate(table[1..], x - 1, e);
      assert table[x := e][1..] == table[1..][x - 1 := e];
    }
  }

  // ---- One fix ----

  lemma TypeFixCounts(s: Image, slot: Slot)
    requires Fixable(s, slot)
    ensures Wrong(s) == Wrong(FixType(s, slot).0) + FixType(s, slot).1
  {
    assert s.dirs[slot.n][slot.k].inode <= |s.table|;
    hide Tiled, Mapped, Count, Dated, TypeByte, TypeOf;
    var (t, fixes) := FixType(s, slot);
    var es, e := s.dirs[slot.n], s.dirs[slot.n][slot.k];
    if fixes > 0 {
      var f := t.dirs[slot.n][slot.k];
      assert t.dirs[slot.n] == es[slot.k := f] && t.dirs == s.dirs[slot.n := t.dirs[slot.n]] && t.table == s.table;
      TypesUpdate(es, slot.k, f, s.table);
      AllTypesUpdate(s.dirs, slot.n, t.dirs[slot.n], s.table);
    }
  }

  lemma InodeFixCounts(s: Image, x: nat)
    requires x < |s.ibits|
    ensures Wrong(s) == Wrong(FixInodeBit(s, x).0) + FixInodeBit(s, x).1
  {
    CountUpdate(s.ibits, x, true, false);
  }

  lemma DateFixCounts(s: Image, x: nat)
    requires x < |s.table|
    ensures Wrong(s) == Wrong(FixDtime(s, x).0) + FixDtime(s, x).1
  {
    var t := FixDtime(s, x).0;
    DatedUpdate(s.table, x, s.table[x].(dtime := 0));
    AllTypesByMode(s.dirs, s.table, t.table);
  }

  lemma {:induction false} BitsFixCount(s: Image, x: nat, i: nat)
    requires Sized(s) && Mapped(s, x) && i <= s.table[x].sectors / 2
    ensures Wrong(s) == Wrong(FixBits(s, x, i).0) + FixBits(s, x, i).1
  {
    hide Count, Dated, AllWrongTypes, BitOf;
    if i > 0 {
      BitsFixCount(s, x, i - 1);
      assert Counted(s, x, i - 1);
      var t := FixBits(s, x, i - 1).0;
      assert BitOf(t, x, i - 1) == BitOf(s, x, i - 1) by { SameBitOf(s, t, x, i - 1); }
      if BitOf(s, x, i - 1).Some? { CountUpdate(t.bbits, BitOf(s, x, i - 1).value, true, false); }
    }
  }

  lemma SameBitOf(s: Image, t: Image, x: nat, i: nat)
    requires Sized(s) && Mapped(s, x) && i < s.table[x].sectors / 2 && t.table == s.table && t.blocks == s.blocks
    ensures BitOf(t, x, i) == BitOf(s, x, i)
  {
  }

  lemma OneFixCounts(s: Image, slot: Slot, k: nat)
    requires Fixable(s, slot)
    ensures Wrong(s) == Wrong(FixOne(s, slot, k).0) + FixOne(s, slot, k).1
  {
    hide Wrong, FixType, FixInodeBit, FixDtime, FixBits, Tiled, Counted;
    var x := InodeAt(s, slot) - 1;
    if k == 1 {
      TypeFixCounts(s, slot);
    } else if k == 2 {
      InodeFixCounts(s, x);
    } else if k == 3 {
      DateFixCounts(s, x);
    } else {
      BitsFixCount(s, x, s.table[x].sectors / 2);
    }
  }

  lemma {:induction false} FixesCount(s: Image, slot: Slot, k: nat)
    requires Fixable(s, slot)
    ensures Wrong(s) == Wrong(Fixes(s, slot, k).0) + Fixes(s, slot, k).1
  {
    hide Wrong, FixOne, Fixable;
    if k > 0 {
      FixesCount(s, slot, k - 1);
      FixesKept(s, slot, k - 1);
      OneFixCounts(Fixes(s, slot, k - 1).0, slot, k);
    }
  }

  // ---- A run ----

  lemma {:induction false} SlotsCount(s: Image, u: int, slots: seq<Slot>, j: nat)
    requires AllFixable(s, slots) && j <= |slots|
    ensures Wrong(s) == Wrong(FixSlots(s, u, slots, j).0) + FixSlots(s, u, slots, j).1
    decreases j
  {
    hide Wrong, FixSlots, Fixes, Visited, Fixable;
    if j == 0 {
      NoSlots(s, u, slots);
    } else {
      SlotsCount(s, u, slots, j - 1);
      FixSlotsNext(s, u, slots, j - 1);
      var t := FixSlots(s, u, slots, j - 1).0;
      assert Fixable(t, slots[j - 1]);
      FixesCount(t, slots[j - 1], 4);
    }
  }

  /** The number the tool reports is how far its counters were off, and then one for every bit it set, every
      deletion time it reset and every type it corrected. */
  lemma FixesAreChanges(s: Image, u: int)
    requires Checkable(s)
    ensures var (t, fixes) := Check(s, u);
      && Wrong(t) <= Wrong(s)
      && fixes == (Wrong(s) - Wrong(t))
           + Difference(s.counters.sbInodes, FreeInodes(s)) + Difference(s.counters.gdInodes, FreeInodes(s))
           + Difference(s.counters.sbBlocks, FreeBlocks(s)) + Difference(s.counters.gdBlocks, FreeBlocks(s))
  {
    hide FixSlots, AllSlots, Walks, SameShape, Fixable, FreeInodes, FreeBlocks, Count, Dated, AllWrongTypes;
    var a := FixCounters(s).0;
    CountersShape(s);
    CheckableStays(s, a);
    SlotsCount(a, u, AllSlots(a), |AllSlots(a)|);
  }

  // ---- What is passed over ----

  /** Wherever the walk comes to this entry, its inode has been named by an earlier entry, or is what the list
      of inodes seen happened to hold. */
  ghost predicate PassedOver(s: Image, u: int, slots: seq<Slot>, j: nat, slot: Slot)
    requires j <= |slots|
  {
    forall i :: 0 <= i < j && slots[i] == slot ==>
      InodeAt(s, slot) == u || exists h :: 0 <= h < i && InodeAt(s, slots[h]) == InodeAt(s, slot)
  }

  /** Of the entries that name one inode only the first is looked at: another one keeps its type, right or
      wrong. */
  lemma {:induction false} OthersKeepType(s: Image, u: int, slots: seq<Slot>, j: nat, slot: Slot)
    requires AllFixable(s, slots) && j <= |slots| && PassedOver(s, u, slots, j, slot)
    requires slot.n < |s.dirs| && slot.k < |s.dirs[slot.n]|
    ensures var t := FixSlots(s, u, slots, j).0;
      slot.n < |t.dirs| && slot.k < |t.dirs[slot.n]| && t.dirs[slot.n][slot.k] == s.dirs[slot.n][slot.k]
    decreases j
  {
    hide FixSlots, Fixable, SameShape;
    if j == 0 {
      NoSlots(s, u, slots);
    } else {
      OthersKeepType(s, u, slots, j - 1, slot);
      FixSlotsNext(s, u, slots, j - 1);
      var t := FixSlots(s, u, slots, j - 1).0;
      if Visited(s, u, slots, j - 1) {
        assert slots[j - 1] != slot;
        OtherTypesStay(t, slots[j - 1], slot, 4);
      }
    }
  }

  lemma {:induction false} OtherTypesStay(s: Image, slot: Slot, other: Slot, k: nat)
    requires Fixable(s, slot) && other != slot && other.n < |s.dirs| && other.k < |s.dirs[other.n]|
    ensures var t := Fixes(s, slot, k).0;
      other.n < |t.dirs| && other.k < |t.dirs[other.n]| && t.dirs[other.n][other.k] == s.dirs[other.n][other.k]
  {
    hide FixOne, SameShape, Kept;
    if k > 0 {
      OtherTypesStay(s, slot, other, k - 1);
      FixesKept(s, slot, k - 1);
      OneKeepsOthers(Fixes(s, slot, k - 1).0, slot, other, k);
    }
  }

  lemma OneKeepsOthers(s: Image, slot: Slot, other: Slot, k: nat)
    requires Fixable(s, slot) && other != slot && other.n < |s.dirs| && other.k < |s.dirs[other.n]|
    ensures var t := FixOne(s, slot, k).0;
      other.n < |t.dirs| && other.k < |t.dirs[other.n]| && t.dirs[other.n][other.k] == s.dirs[other.n][other.k]
  {
    hide Tiled, Counted;
  }

  /** And that first one is in order after a run. */
  lemma FirstIsClean(s: Image, u: int, j: nat)
    requires Checkable(s) && j < |AllSlots(s)| && InodeAt(s, AllSlots(s)[j]) != u
    requires forall h :: 0 <= h < j ==> InodeAt(s, AllSlots(s)[h]) != InodeAt(s, AllSlots(s)[j])
    ensures var t := Check(s, u).0; Fixable(t, AllSlots(s)[j]) && Clean(t, AllSlots(s)[j])
  {
    hide FixSlots, Walks, SameShape, Fixable, Clean, FixCounters, AllSlots;
    var a := FixCounters(s).0;
    CountersFixed(s);
    CountersShape(s);
    CheckableStays(s, a);
    var slots := AllSlots(s);
    AllFixableStays(s, a, slots);
    RunCleans(a, u, slots, |slots|);
    assert Visited(a, u, slots, j);
  }
}
