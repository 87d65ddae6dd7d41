/** Whole runs of the consistency tool: the order in which it visits directory entries, and what a
    second run does. */
module RepairRuns {
  import opened Ext2Model
  import opened Repair

  // ---- The order of the walk ----

  /** `mode & EXT2_S_IFDIR`. */
  predicate IsDirectory(mode: nat) {
    mode / S_IFDIR % 2 == 1
  }

  predicate DirOk(s: Image, x: nat) {
    x < |s.table| && |s.table[x].block| == 15
    && (IsDirectory(s.table[x].mode) ==>
          && s.table[x].sectors / 2 <= 15
          && forall i :: 0 <= i < s.table[x].sectors / 2 ==> s.table[x].block[i] < |s.dirs|)
  }

  function BlockSlots(n: nat, count: nat): seq<Slot> {
    seq(count, k requires 0 <= k => Slot(n, k))
  }

  /** The entries in the first i blocks of a directory. */
  function DirSlots(s: Image, x: nat, i: nat): seq<Slot>
    requires DirOk(s, x) && IsDirectory(s.table[x].mode) && i <= s.table[x].sectors / 2
  {
    if i == 0 then []
    else
      var n := s.table[x].block[i - 1];
      DirSlots(s, x, i - 1) + BlockSlots(n, |s.dirs[n]|)
  }

  /** `check_block` on inode x + 1: its entries if it is a directory. */
  function InodeSlots(s: Image, x: nat): seq<Slot>
    requires DirOk(s, x)
  {
    if IsDirectory(s.table[x].mode) then DirSlots(s, x, s.table[x].sectors / 2) else []
  }

  /** The root's entries, then those of the inodes from the first non-reserved one up to before x. */
  function SlotsBefore(s: Image, x: nat): seq<Slot>
    requires s.firstInode <= x && DirOk(s, 1) && forall y :: s.firstInode <= y < x ==> DirOk(s, y)
    decreases x
  {
    if x == s.firstInode then InodeSlots(s, 1) else SlotsBefore(s, x - 1) + InodeSlots(s, x - 1)
  }

  function LastInode(s: Image): (x: nat)
    ensures x >= s.firstInode
  {
    if s.firstInode < |s.table| - 1 then |s.table| - 1 else s.firstInode
  }

  ghost predicate Walks(s: Image) {
    DirOk(s, 1) && forall y :: s.firstInode <= y < LastInode(s) ==> DirOk(s, y)
  }

  function AllSlots(s: Image): seq<Slot>
    requires Walks(s)
  {
    SlotsBefore(s, LastInode(s))
  }

  // ---- What the walk visits ----

  /** The entry lies in one of the first i blocks of the directory. */
  ghost predicate LiesIn(s: Image, x: nat, i: nat, slot: Slot)
    requires DirOk(s, x)
  {
    exists j :: 0 <= j < i && j < 15 && s.table[x].block[j] == slot.n && slot.n < |s.dirs| && slot.k < |s.dirs[slot.n]|
  }

  lemma {:induction false} DirSlotsAre(s: Image, x: nat, i: nat, slot: Slot)
    requires DirOk(s, x) && IsDirectory(s.table[x].mode) && i <= s.table[x].sectors / 2
    ensures slot in DirSlots(s, x, i) <==> LiesIn(s, x, i, slot)
  {
    if i > 0 {
      DirSlotsAre(s, x, i - 1, slot);
      var n := s.table[x].block[i - 1];
      BlockSlotsAre(n, |s.dirs[n]|, slot);
    }
  }

  lemma BlockSlotsAre(n: nat, count: nat, slot: Slot)
    ensures slot in BlockSlots(n, count) <==> slot.n == n && slot.k < count
  {
    if slot.n == n && slot.k < count { assert BlockSlots(n, count)[slot.k] == slot; }
  }

  /** The entry is in a block of this inode, whose mode has the directory bit. */
  ghost predicate EntryOf(s: Image, x: nat, slot: Slot) {
    DirOk(s, x) && s.table[x].mode % 0x8000 >= 0x4000 && LiesIn(s, x, s.table[x].sectors / 2, slot)
  }

  lemma InodeSlotsAre(s: Image, x: nat, slot: Slot)
    requires DirOk(s, x)
    ensures slot in InodeSlots(s, x) <==> EntryOf(s, x, slot)
  {
    if IsDirectory(s.table[x].mode) { DirSlotsAre(s, x, s.table[x].sectors / 2, slot); }
  }

  lemma {:induction false} SlotsBeforeAre(s: Image, x: nat, slot: Slot)
    requires s.firstInode <= x && DirOk(s, 1) && forall y :: s.firstInode <= y < x ==> DirOk(s, y)
    ensures slot in SlotsBefore(s, x) <==>
      EntryOf(s, 1, slot) || exists y :: s.firstInode <= y < x && EntryOf(s, y, slot)
    decreases x
  {
    hide DirOk, EntryOf, InodeSlots;
    if x == s.firstInode {
      InodeSlotsAre(s, 1, slot);
    } else {
      SlotsBeforeAre(s, x - 1, slot);
      assert DirOk(s, x - 1);
      InodeSlotsAre(s, x - 1, slot);
    }
  }

  /** The walk visits exactly the entries of the root and of the directories among the inodes from the first
      non-reserved one up to the last but one. */
  lemma VisitsExactly(s: Image, slot: Slot)
    requires Walks(s)
    ensures slot in AllSlots(s) <==>
      EntryOf(s, 1, slot) || exists y :: s.firstInode <= y < |s.table| - 1 && EntryOf(s, y, slot)
  {
    hide EntryOf;
    SlotsBeforeAre(s, LastInode(s), slot);
  }

  // ---- No fix changes the walk ----

  lemma DirOkStays(s: Image, t: Image, x: nat)
    requires SameShape(s, t) && DirOk(s, x)
    ensures DirOk(t, x) && InodeSlots(t, x) == InodeSlots(s, x)
  {
    SameInode(s, t, x);
    if IsDirectory(s.table[x].mode) { DirSlotsStay(s, t, x, s.table[x].sectors / 2); }
  }

  lemma {:induction false} DirSlotsStay(s: Image, t: Image, x: nat, i: nat)
    requires SameShape(s, t) && DirOk(s, x) && IsDirectory(s.table[x].mode) && i <= s.table[x].sectors / 2
    ensures DirOk(t, x) && IsDirectory(t.table[x].mode) && i <= t.table[x].sectors / 2
    ensures DirSlots(t, x, i) == DirSlots(s, x, i)
  {
    SameInode(s, t, x);
    if i > 0 {
      DirSlotsStay(s, t, x, i - 1);
      var n := s.table[x].block[i - 1];
      assert SameEntries(s.dirs[n], t.dirs[n]);
    }
  }

  lemma {:induction false} SlotsBeforeStay(s: Image, t: Image, x: nat)
    requires SameShape(s, t) && s.firstInode <= x && DirOk(s, 1) && forall y :: s.firstInode <= y < x ==> DirOk(s, y)
    ensures DirOk(t, 1) && forall y :: s.firstInode <= y < x ==> DirOk(t, y)
    ensures SlotsBefore(t, x) == SlotsBefore(s, x)
    decreases x
  {
    DirOkStays(s, t, 1);
    if x > s.firstInode {
      SlotsBeforeStay(s, t, x - 1);
      DirOkStays(s, t, x - 1);
    }
  }

  /** The repaired image is walked in the same order. */
  lemma WalkStays(s: Image, t: Image)
    requires SameShape(s, t) && Walks(s)
    ensures Walks(t) && AllSlots(t) == AllSlots(s)
  {
    SlotsBeforeStay(s, t, LastInode(s));
  }

  // ---- A run ----

  /** Entry j is the first that names its inode, and the inode is not what the list of inodes seen
      happens to start with. */
  predicate Visited(s: Image, u: int, slots: seq<Slot>, j: nat) {
    && j < |slots| && InodeAt(s, slots[j]) != u
    && forall i :: 0 <= i < j ==> InodeAt(s, slots[i]) != InodeAt(s, slots[j])
  }

  ghost predicate AllFixable(s: Image, slots: seq<Slot>) {
    forall j :: 0 <= j < |slots| ==> Fixable(s, slots[j])
  }

  lemma AllFixableStays(s: Image, t: Image, slots: seq<Slot>)
    requires SameShape(s, t) && AllFixable(s, slots)
    ensures AllFixable(t, slots) && forall j :: 0 <= j < |slots| ==> InodeAt(t, slots[j]) == InodeAt(s, slots[j])
  {
    forall j | 0 <= j < |slots| ensures Fixable(t, slots[j]) && InodeAt(t, slots[j]) == InodeAt(s, slots[j]) {
      KeptFixable(s, t, slots[j]);
    }
  }

  /** The first j entries of the walk. */
  ghost function FixSlots(s: Image, u: int, slots: seq<Slot>, j: nat): (Image, nat)
    requires AllFixable(s, slots) && j <= |slots|
    decreases j, slots, 0
  {
    if j == 0 then (s, 0)
    else
      var (t, fixes) := FixSlots(s, u, slots, j - 1);
      FixSlotsKept(s, u, slots, j - 1);
      if Visited(s, u, slots, j - 1) then (FixEntry(t, slots[j - 1]).0, fixes + FixEntry(t, slots[j - 1]).1)
      else (t, fixes)
  }

  lemma {:induction false} FixSlotsKept(s: Image, u: int, slots: seq<Slot>, j: nat)
    requires AllFixable(s, slots) && j <= |slots|
    ensures Kept(s, FixSlots(s, u, slots, j).0) && AllFixable(FixSlots(s, u, slots, j).0, slots)
    decreases j, slots, 1
  {
    hide Fixable, FixEntry, Visited, SameShape, Clean, Exact;
    if j == 0 {
      KeptSelf(s);
    } else {
      FixSlotsKept(s, u, slots, j - 1);
      var t := FixSlots(s, u, slots, j - 1).0;
      if Visited(s, u, slots, j - 1) {
        FixEntryKeeps(t, slots[j - 1]);
        KeptTwice(s, t, FixEntry(t, slots[j - 1]).0);
        AllFixableStays(t, FixEntry(t, slots[j - 1]).0, slots);
      }
    }
  }

  /** An image the tool can process. */
  ghost predicate Checkable(s: Image) {
    Sized(s) && Walks(s) && AllFixable(s, AllSlots(s))
  }

  /** `main`; u is what the uninitialised first element of its list holds. */
  ghost function Check(s: Image, u: int): (Image, nat)
    requires Checkable(s)
  {
    var (t, fixes) := FixCounters(s);
    CountersShape(s);
    CheckableStays(s, t);
    var (v, more) := FixSlots(t, u, AllSlots(t), |AllSlots(t)|);
    (v, fixes + more)
  }

  lemma CountersShape(s: Image)
    requires Sized(s)
    ensures SameShape(s, FixCounters(s).0)
  {
    ShapeSelf(s, FixCounters(s).0);
  }

  lemma CheckableStays(s: Image, t: Image)
    requires SameShape(s, t) && Checkable(s)
    ensures Checkable(t) && AllSlots(t) == AllSlots(s)
  {
    KeptSized(s, t);
    WalkStays(s, t);
    AllFixableStays(s, t, AllSlots(s));
  }

  // ---- What a run leaves ----

  /** One more entry of the walk: from t to v, with `more` fixes. */
  lemma FixSlotsStep(s: Image, u: int, slots: seq<Slot>, j: nat) returns (t: Image, fixes: nat, v: Image, more: nat)
    requires AllFixable(s, slots) && j < |slots|
    ensures FixSlots(s, u, slots, j) == (t, fixes) && FixSlots(s, u, slots, j + 1) == (v, fixes + more)
    ensures AllFixable(t, slots) && AllFixable(v, slots) && Kept(t, v)
    ensures Visited(s, u, slots, j) ==> Clean(v, slots[j]) && (more == 0 <==> Clean(t, slots[j]))
    ensures !Visited(s, u, slots, j) ==> more == 0
    ensures (more == 0 ==> v == t) && (Sized(t) && Exact(t) ==> Sized(v) && Exact(v))
  {
    hide Kept, Clean, Visited, FixEntry, Exact, Sized, FixSlots;
    t, fixes := FixSlots(s, u, slots, j).0, FixSlots(s, u, slots, j).1;
    FixSlotsKept(s, u, slots, j);
    FixSlotsNext(s, u, slots, j);
    v, more := EntryStep(slots, j, t, Visited(s, u, slots, j));
  }

  lemma FixSlotsNext(s: Image, u: int, slots: seq<Slot>, j: nat)
    requires AllFixable(s, slots) && j < |slots|
    ensures var (t, fixes) := FixSlots(s, u, slots, j);
      && AllFixable(t, slots)
      && FixSlots(s, u, slots, j + 1) ==
           if Visited(s, u, slots, j) then (FixEntry(t, slots[j]).0, fixes + FixEntry(t, slots[j]).1) else (t, fixes)
  {
    FixSlotsKept(s, u, slots, j);
  }

  lemma EntryStep(slots: seq<Slot>, j: nat, t: Image, visit: bool) returns (v: Image, more: nat)
    requires AllFixable(t, slots) && j < |slots|
    ensures (v, more) == if visit then FixEntry(t, slots[j]) else (t, 0)
    ensures AllFixable(v, slots) && Kept(t, v)
    ensures visit ==> Clean(v, slots[j]) && (more == 0 <==> Clean(t, slots[j]))
    ensures (more == 0 ==> v == t) && (Sized(t) && Exact(t) ==> Sized(v) && Exact(v))
  {
    v, more := t, 0;
    if visit {
      v, more := FixEntry(t, slots[j]).0, FixEntry(t, slots[j]).1;
      FixEntryKeeps(t, slots[j]);
    } else {
      KeptSelf(t);
    }
    AllFixableStays(t, v, slots);
  }

  /** The entries before j that a run on s visits are clean in t. */
  ghost predicate CleanBefore(s: Image, u: int, slots: seq<Slot>, t: Image, j: nat)
    requires AllFixable(t, slots) && j <= |slots|
  {
    forall i :: 0 <= i < j && Visited(s, u, slots, i) ==> Clean(t, slots[i])
  }

  lemma CleanNext(s: Image, u: int, slots: seq<Slot>, t: Image, v: Image, j: nat)
    requires AllFixable(t, slots) && AllFixable(v, slots) && Kept(t, v) && j < |slots|
    requires CleanBefore(s, u, slots, t, j) && (Visited(s, u, slots, j) ==> Clean(v, slots[j]))
    ensures CleanBefore(s, u, slots, v, j + 1)
  {
    forall i | 0 <= i < j + 1 && Visited(s, u, slots, i) ensures Clean(v, slots[i]) {
      if i < j { KeptClean(t, v, slots[i]); }
    }
  }

  lemma NoSlots(s: Image, u: int, slots: seq<Slot>)
    requires AllFixable(s, slots)
    ensures FixSlots(s, u, slots, 0) == (s, 0)
  {
  }

  /** Every visited entry is clean afterwards, and exact counters stay exact. */
  lemma {:induction false} RunCleans(s: Image, u: int, slots: seq<Slot>, j: nat)
    requires AllFixable(s, slots) && j <= |slots| && Sized(s) && Exact(s)
    ensures var t := FixSlots(s, u, slots, j).0;
      Sized(t) && Exact(t) && AllFixable(t, slots) && CleanBefore(s, u, slots, t, j)
    decreases j
  {
    hide FixSlots, Clean, Kept, Exact, Sized, Visited, Fixable;
    if j == 0 {
      NoSlots(s, u, slots);
    } else {
      RunCleans(s, u, slots, j - 1);
      var t, fixes, v, more := FixSlotsStep(s, u, slots, j - 1);
      CleanNext(s, u, slots, t, v, j - 1);
    }
  }

  ghost predicate Unclean(s: Image, slots: seq<Slot>, j: nat)
    requires AllFixable(s, slots)
  {
    j < |slots| && !Clean(s, slots[j])
  }

  ghost predicate NothingToFix(s: Image, u: int, slots: seq<Slot>, j: nat)
    requires AllFixable(s, slots)
  {
    forall i :: 0 <= i < j && Visited(s, u, slots, i) ==> !Unclean(s, slots, i)
  }

  /** The run so far has fixed something exactly if it has visited an entry that is not clean;
      otherwise it has changed nothing. */
  ghost predicate IdleRun(s: Image, u: int, slots: seq<Slot>, j: nat)
    requires AllFixable(s, slots) && j <= |slots|
  {
    var (t, fixes) := FixSlots(s, u, slots, j);
    (fixes == 0 <==> NothingToFix(s, u, slots, j)) && (fixes == 0 ==> t == s)
  }

  lemma {:induction false} RunIsIdle(s: Image, u: int, slots: seq<Slot>, j: nat)
    requires AllFixable(s, slots) && j <= |slots|
    ensures IdleRun(s, u, slots, j)
    decreases j
  {
    if j == 0 {
      NoSlots(s, u, slots);
    } else {
      hide IdleRun;
      RunIsIdle(s, u, slots, j - 1);
      IdleStep(s, u, slots, j - 1);
    }
  }

  lemma IdleStep(s: Image, u: int, slots: seq<Slot>, j: nat)
    requires AllFixable(s, slots) && j < |slots| && IdleRun(s, u, slots, j)
    ensures IdleRun(s, u, slots, j + 1)
  {
    var t, fixes, v, more := FixSlotsStep(s, u, slots, j);
    IdleNext(s, u, slots, j, t, fixes, more);
  }

  lemma IdleNext(s: Image, u: int, slots: seq<Slot>, j: nat, t: Image, fixes: nat, more: nat)
    requires AllFixable(s, slots) && AllFixable(t, slots) && j < |slots|
    requires (fixes == 0 <==> NothingToFix(s, u, slots, j)) && (fixes == 0 ==> t == s)
    requires if Visited(s, u, slots, j) then more == 0 <==> Clean(t, slots[j]) else more == 0
    ensures fixes + more == 0 <==> NothingToFix(s, u, slots, j + 1)
  {
  }

  /** The second run, exactly: it fixes nothing and changes nothing unless it visits an entry that the
      first run passed over because the uninitialised list element held its inode number. */
  lemma SecondRun(s: Image, u: int, w: int)
    requires Checkable(s)
    ensures Checkable(Check(s, u).0) && AllSlots(Check(s, u).0) == AllSlots(s)
    ensures var t := Check(s, u).0; Check(t, w).1 == 0 ==> Check(t, w).0 == t
    ensures var t := Check(s, u).0; Check(t, w).1 == 0 <==>
      forall j :: 0 <= j < |AllSlots(s)| && Visited(s, w, AllSlots(s), j) && InodeAt(s, AllSlots(s)[j]) == u ==>
        !Unclean(t, AllSlots(s), j)
  {
    hide Clean, FixEntry, Exact, FixSlots, AllSlots, Walks, SameShape, Fixable, FixCounters;
    var a := FixCounters(s).0;
    CountersFixed(s);
    CountersShape(s);
    CheckableStays(s, a);
    var slots := AllSlots(s);
    var t := Check(s, u).0;
    RunCleans(a, u, slots, |slots|);
    FixSlotsKept(a, u, slots, |slots|);
    ShapeTwice(s, a, t);
    CheckableStays(s, t);
    CountersFixed(t);
    assert FixCounters(t).0 == t && FixCounters(t).1 == 0;
    RunIsIdle(t, w, slots, |slots|);
    AllFixableStays(a, t, slots);
    AllFixableStays(s, t, slots);
    forall j | 0 <= j < |slots| ensures Visited(t, w, slots, j) == Visited(s, w, slots, j) == Visited(a, w, slots, j) {
      assert InodeAt(a, slots[j]) == InodeAt(s, slots[j]) == InodeAt(t, slots[j]);
    }
    forall j | 0 <= j < |slots| && Visited(s, w, slots, j) && InodeAt(s, slots[j]) != u ensures !Unclean(t, slots, j) {
      assert Visited(a, u, slots, j);
    }
  }

  /** Idempotence: a second run performs no fix at all when the uninitialised list element names no
      inode that a directory entry names, or happens to be the same in both runs. */
  lemma CheckIsIdempotent(s: Image, u: int, w: int)
    requires Checkable(s)
    requires u == w || forall j :: 0 <= j < |AllSlots(s)| ==> InodeAt(s, AllSlots(s)[j]) != u
    ensures Checkable(Check(s, u).0) && Check(Check(s, u).0, w) == (Check(s, u).0, 0)
  {
    SecondRun(s, u, w);
  }
}
