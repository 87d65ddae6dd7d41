/** The consistency tool on values: it corrects the counters, then walks every directory and corrects
    the type of each entry and the bits and deletion time of the inode it names.  A second run finds
    nothing left to do. */
module Repair {
  import opened Options
  import opened Counting
  import opened DirBlocks
  import opened DirEdits
  import opened Ext2Model

  const S_IFLNK: nat := 0xA000
  const BITMAP_BITS: nat := 8192      // a bitmap is one block

  /** All bits of the two bitmap blocks; dirs[n] is the list of entries that tile block n, empty for
      a block that is not a directory's. */
  datatype Image = Image(ibits: seq<bool>, bbits: seq<bool>, counters: Counters,
                         table: seq<Inode>, blocks: seq<Block>, dirs: seq<seq<Entry>>, firstInode: nat)

  /** Entry k of directory block n. */
  datatype Slot = Slot(n: nat, k: nat)

  // ---- Counters ----

  /** The counting loops go over as many bytes as there are inodes or blocks. */
  ghost predicate Sized(s: Image) {
    && 8 * |s.table| <= |s.ibits| <= BITMAP_BITS && 8 * |s.blocks| <= |s.bbits| <= BITMAP_BITS
    && |s.dirs| == |s.blocks| && forall x :: 0 <= x < |s.table| ==> |s.table[x].block| == 15
  }

  function FreeInodes(s: Image): (n: nat)
    requires 8 * |s.table| <= |s.ibits|
  {
    Count(s.ibits[..8 * |s.table|], false)
  }

  function FreeBlocks(s: Image): (n: nat)
    requires 8 * |s.blocks| <= |s.bbits|
  {
    Count(s.bbits[..8 * |s.blocks|], false)
  }

  function Difference(a: nat, b: nat): nat {
    if a < b then b - a else a - b
  }

  /** `group_counter_inconsis`: the image and the sum of the differences. */
  function FixCounters(s: Image): (Image, nat)
    requires 8 * |s.table| <= |s.ibits| && 8 * |s.blocks| <= |s.bbits|
  {
    var inodes, blocks := FreeInodes(s), FreeBlocks(s);
    (s.(counters := Counters(blocks % 0x1_0000_0000, blocks % 0x1_0000, inodes % 0x1_0000_0000, inodes % 0x1_0000)),
     Difference(s.counters.sbInodes, inodes) + Difference(s.counters.gdInodes, inodes)
     + Difference(s.counters.sbBlocks, blocks) + Difference(s.counters.gdBlocks, blocks))
  }

  ghost predicate Exact(s: Image)
    requires Sized(s)
  {
    && s.counters.sbInodes == s.counters.gdInodes == FreeInodes(s)
    && s.counters.sbBlocks == s.counters.gdBlocks == FreeBlocks(s)
  }

  /** The counters are right afterwards, and only wrong counters count as fixes. */
  lemma CountersFixed(s: Image)
    requires Sized(s)
    ensures var (t, fixes) := FixCounters(s);
      Sized(t) && Exact(t) && (fixes == 0 <==> Exact(s)) && (Exact(s) ==> t == s)
  {
    hide Count;
    CountBound(s.ibits[..8 * |s.table|], false);
    CountBound(s.bbits[..8 * |s.blocks|], false);
  }

  // ---- The four fixes at an entry ----

  /** The entry type that goes with a mode. */
  function TypeOf(mode: nat): (t: Byte)
    ensures t == FT_REG_FILE <==> 0x8000 <= mode < 0x9000
    ensures t == FT_DIR <==> 0x4000 <= mode < 0x5000
    ensures t == FT_SYMLINK <==> 0xA000 <= mode < 0xB000
    ensures t in {FT_UNKNOWN, FT_REG_FILE, FT_DIR, FT_SYMLINK}
  {
    if mode / 0x1000 == S_IFREG / 0x1000 then FT_REG_FILE
    else if mode / 0x1000 == S_IFDIR / 0x1000 then FT_DIR
    else if mode / 0x1000 == S_IFLNK / 0x1000 then FT_SYMLINK
    else FT_UNKNOWN
  }

  /** The bit that number i of the inode's blocks is looked up at; none for an empty direct pointer.
      For the indirect block and what it lists the code takes the wrong entry and forgets to subtract
      one; that is kept here. */
  function BitOf(s: Image, x: nat, i: nat): Option<nat>
    requires x < |s.table| && |s.table[x].block| == 15 && i < MAX_LISTED
    requires i >= DIRECT ==> s.table[x].block[DIRECT] < |s.blocks|
  {
    var e := s.table[x];
    if i < DIRECT then (if e.block[i] != 0 then Some(e.block[i] - 1) else None)
    else if i == DIRECT then Some(Pointer(s.blocks[e.block[DIRECT]], DIRECT))
    else Some(Pointer(s.blocks[e.block[DIRECT]], i - 13))
  }

  /** The inode's blocks can be looked up and have bits that are counted; its indirect block is not a
      directory's. */
  ghost predicate Mapped(s: Image, x: nat) {
    && x < |s.table| && |s.table[x].block| == 15 && s.table[x].sectors / 2 <= MAX_LISTED
    && (s.table[x].sectors / 2 > DIRECT ==>
         s.table[x].block[DIRECT] < |s.blocks| && PlainBlock(s, s.table[x].block[DIRECT]))
    && forall i :: 0 <= i < s.table[x].sectors / 2 ==> Counted(s, x, i)
  }

  /** Not a directory's block. */
  predicate PlainBlock(s: Image, n: nat) {
    n < |s.dirs| && s.dirs[n] == []
  }

  ghost predicate Counted(s: Image, x: nat, i: nat)
    requires x < |s.table| && |s.table[x].block| == 15 && i < MAX_LISTED
    requires i >= DIRECT ==> s.table[x].block[DIRECT] < |s.blocks|
  {
    BitOf(s, x, i).Some? ==> BitOf(s, x, i).value < 8 * |s.blocks|
  }

  /** One turn of `fix_data_bitmap`: `set_in_use` where the bit is clear. */
  function FixBit(s: Image, x: nat, i: nat): (r: (Image, nat))
    requires x < |s.table| && |s.table[x].block| == 15 && i < MAX_LISTED
    requires i >= DIRECT ==> s.table[x].block[DIRECT] < |s.blocks|
    requires BitOf(s, x, i).Some? ==> BitOf(s, x, i).value < |s.bbits|
  {
    match BitOf(s, x, i)
    case None => (s, 0)
    case Some(b) =>
      if s.bbits[b] then (s, 0)
      else (s.(bbits := s.bbits[b := true], counters := TakeBlock(s.counters)), 1)
  }

  /** A block that is not a directory's is the same, and one that its entries tile is tiled still. */
  ghost predicate SameBlock(s: Image, t: Image, n: nat) {
    && n < |s.blocks| == |t.blocks| && n < |s.dirs| == |t.dirs|
    && (s.dirs[n] == [] ==> t.blocks[n] == s.blocks[n])
    && (Tiled(s.blocks[n], s.dirs[n]) ==> Tiled(t.blocks[n], t.dirs[n]))
  }

  /** Everything but the two bitmaps, the counters, the deletion times and the entry types is the same. */
  ghost predicate SameShape(s: Image, t: Image) {
    && |t.ibits| == |s.ibits| && |t.bbits| == |s.bbits| && t.firstInode == s.firstInode
    && |t.blocks| == |s.blocks| && (forall n: nat :: n < |s.blocks| && n < |s.dirs| ==> SameBlock(s, t, n))
    && |t.table| == |s.table| && (forall x :: 0 <= x < |s.table| ==> t.table[x].(dtime := 0) == s.table[x].(dtime := 0))
    && |t.dirs| == |s.dirs| && (forall n :: 0 <= n < |s.dirs| ==> SameEntries(s.dirs[n], t.dirs[n]))
  }

  ghost predicate SameEntries(es: seq<Entry>, fs: seq<Entry>) {
    |fs| == |es| && forall k :: 0 <= k < |es| ==> fs[k].(fileType := 0) == es[k].(fileType := 0)
  }

  /** `fix_data_bitmap`, the first i turns. */
  ghost function FixBits(s: Image, x: nat, i: nat): (r: (Image, nat))
    requires Sized(s) && Mapped(s, x) && i <= s.table[x].sectors / 2
    ensures r.0 == s.(bbits := r.0.bbits, counters := r.0.counters) && |r.0.bbits| == |s.bbits|
  {
    if i == 0 then (s, 0)
    else
      var (t, fixes) := FixBits(s, x, i - 1);
      assert Counted(s, x, i - 1) && BitOf(t, x, i - 1) == BitOf(s, x, i - 1);
      var (u, one) := FixBit(t, x, i - 1);
      (u, fixes + one)
  }

  /** What an entry needs for its fixes to be well defined. */
  ghost predicate Fixable(s: Image, slot: Slot) {
    && Sized(s) && slot.n < |s.dirs| && slot.k < |s.dirs[slot.n]| && Tiled(s.blocks[slot.n], s.dirs[slot.n])
    && 1 <= s.dirs[slot.n][slot.k].inode && Mapped(s, s.dirs[slot.n][slot.k].inode - 1)
  }

  function InodeAt(s: Image, slot: Slot): nat {
    if slot.n < |s.dirs| && slot.k < |s.dirs[slot.n]| then s.dirs[slot.n][slot.k].inode else 0
  }

  /** The block with the type byte of entry k written. */
  function TypeByte(b: Block, es: seq<Entry>, k: nat, fileType: Byte): (c: Block)
    requires k < |es|
  {
    if Offset(es, k) + 7 < |b| then b[Offset(es, k) + 7 := fileType] else b
  }

  /** `fix_file_type`: the byte in the block, and with it the entry. */
  ghost function FixType(s: Image, slot: Slot): (Image, nat)
    requires Fixable(s, slot)
  {
    var e := s.dirs[slot.n][slot.k];
    var want := TypeOf(s.table[e.inode - 1].mode);
    if e.fileType == want then (s, 0)
    else
      (s.(blocks := s.blocks[slot.n := TypeByte(s.blocks[slot.n], s.dirs[slot.n], slot.k, want)],
          dirs := s.dirs[slot.n := s.dirs[slot.n][slot.k := e.(fileType := want)]]), 1)
  }

  /** `fix_inode_bitmap`. */
  function FixInodeBit(s: Image, x: nat): (Image, nat)
    requires x < |s.ibits|
  {
    if s.ibits[x] then (s, 0) else (s.(ibits := s.ibits[x := true], counters := TakeInode(s.counters)), 1)
  }

  /** `fix_inode_dtime`. */
  function FixDtime(s: Image, x: nat): (Image, nat)
    requires x < |s.table|
  {
    if s.table[x].dtime == 0 then (s, 0) else (s.(table := s.table[x := s.table[x].(dtime := 0)]), 1)
  }

  /** Nothing to fix at this entry. */
  ghost predicate Clean(s: Image, slot: Slot)
    requires Fixable(s, slot)
  {
    var e := s.dirs[slot.n][slot.k];
    var x := e.inode - 1;
    && e.fileType == TypeOf(s.table[x].mode) && s.ibits[x] && s.table[x].dtime == 0
    && forall i :: 0 <= i < s.table[x].sectors / 2 ==> BitSet(s, x, i)
  }

  ghost predicate BitSet(s: Image, x: nat, i: nat)
    requires Sized(s) && Mapped(s, x) && i < s.table[x].sectors / 2
  {
    assert Counted(s, x, i);
    BitOf(s, x, i).Some? ==> s.bbits[BitOf(s, x, i).value]
  }

  /** Fix number k of the four that `check_block` adds up. */
  ghost function FixOne(s: Image, slot: Slot, k: nat): (Image, nat)
    requires Fixable(s, slot)
  {
    var x := InodeAt(s, slot) - 1;
    if k == 1 then FixType(s, slot)
    else if k == 2 then FixInodeBit(s, x)
    else if k == 3 then FixDtime(s, x)
    else FixBits(s, x, s.table[x].sectors / 2)
  }

  /** The first k of them. */
  ghost function Fixes(s: Image, slot: Slot, k: nat): (Image, nat)
    requires Fixable(s, slot)
    decreases k, slot, 0
  {
    if k == 0 then (s, 0)
    else
      var (t, fixes) := Fixes(s, slot, k - 1);
      FixesKept(s, slot, k - 1);
      var (v, one) := FixOne(t, slot, k);
      (v, fixes + one)
  }

  lemma {:induction false} FixesKept(s: Image, slot: Slot, k: nat)
    requires Fixable(s, slot)
    ensures Kept(s, Fixes(s, slot, k).0) && Fixable(Fixes(s, slot, k).0, slot)
    decreases k, slot, 1
  {
    hide FixOne, SameShape, Exact, CleanOf;
    if k == 0 {
      KeptSelf(s);
    } else {
      FixesKept(s, slot, k - 1);
      var t := Fixes(s, slot, k - 1).0;
      FixOneKeeps(t, slot, k);
      KeptTwice(s, t, FixOne(t, slot, k).0);
      KeptFixable(s, FixOne(t, slot, k).0, slot);
    }
  }

  ghost function FixEntry(s: Image, slot: Slot): (Image, nat)
    requires Fixable(s, slot)
  {
    Fixes(s, slot, 4)
  }

  lemma KeptSelf(s: Image)
    ensures Kept(s, s)
  {
    ShapeSelf(s, s);
  }

  /** Blocks, entries and inodes untouched. */
  lemma ShapeSelf(s: Image, t: Image)
    requires |t.ibits| == |s.ibits| && |t.bbits| == |s.bbits| && t.blocks == s.blocks && t.dirs == s.dirs
    requires t.firstInode == s.firstInode && |t.table| == |s.table|
    requires forall x :: 0 <= x < |s.table| ==> t.table[x].(dtime := 0) == s.table[x].(dtime := 0)
    ensures SameShape(s, t)
  {
    hide Tiled;
    forall n | 0 <= n < |s.dirs| ensures SameEntries(s.dirs[n], t.dirs[n]) { }
    forall n: nat | n < |s.blocks| && n < |s.dirs| ensures SameBlock(s, t, n) { }
  }

  // ---- What fixes leave alone ----

  /** Bits are only set, deletion times only reset, and types only corrected. */
  ghost predicate Kept(s: Image, t: Image) {
    && SameShape(s, t)
    && (forall b :: 0 <= b < |s.ibits| && s.ibits[b] ==> t.ibits[b])
    && (forall b :: 0 <= b < |s.bbits| && s.bbits[b] ==> t.bbits[b])
    && (forall x :: 0 <= x < |s.table| && s.table[x].dtime == 0 ==> t.table[x].dtime == 0)
    && (forall n, k :: 0 <= n < |s.dirs| && 0 <= k < |s.dirs[n]| ==>
          t.dirs[n][k].fileType == s.dirs[n][k].fileType || RightType(t, n, k))
  }

  ghost predicate RightType(t: Image, n: nat, k: nat) {
    && n < |t.dirs| && k < |t.dirs[n]|
    && (1 <= t.dirs[n][k].inode <= |t.table| ==> t.dirs[n][k].fileType == TypeOf(t.table[t.dirs[n][k].inode - 1].mode))
  }

  lemma ShapeTwice(s: Image, t: Image, u: Image)
    requires SameShape(s, t) && SameShape(t, u)
    ensures SameShape(s, u)
  {
    hide Tiled;
    forall n: nat | n < |s.blocks| && n < |s.dirs| ensures SameBlock(s, u, n) {
      assert SameBlock(s, t, n) && SameBlock(t, u, n) && SameEntries(s.dirs[n], t.dirs[n]);
    }
    forall n | 0 <= n < |s.dirs| ensures SameEntries(s.dirs[n], u.dirs[n]) {
      assert SameEntries(s.dirs[n], t.dirs[n]) && SameEntries(t.dirs[n], u.dirs[n]);
    }
  }

  lemma KeptTwice(s: Image, t: Image, u: Image)
    requires Kept(s, t) && Kept(t, u)
    ensures Kept(s, u)
  {
    ShapeTwice(s, t, u);
    forall n, k | 0 <= n < |s.dirs| && 0 <= k < |s.dirs[n]|
      ensures u.dirs[n][k].fileType == s.dirs[n][k].fileType || RightType(u, n, k)
    {
      TypeKept(s, t, u, n, k);
    }
  }

  lemma TypeKept(s: Image, t: Image, u: Image, n: nat, k: nat)
    requires Kept(s, t) && Kept(t, u) && n < |s.dirs| && k < |s.dirs[n]|
    ensures |u.dirs| == |s.dirs| && |u.dirs[n]| == |s.dirs[n]|
    ensures u.dirs[n][k].fileType == s.dirs[n][k].fileType || RightType(u, n, k)
  {
    assert SameEntries(s.dirs[n], t.dirs[n]) && SameEntries(t.dirs[n], u.dirs[n]);
    if RightType(t, n, k) && 1 <= t.dirs[n][k].inode <= |t.table| { SameInode(t, u, t.dirs[n][k].inode - 1); }
  }

  /** An inode is the same but for its deletion time. */
  lemma SameInode(s: Image, t: Image, x: nat)
    requires SameShape(s, t) && x < |s.table|
    ensures t.table[x].mode == s.table[x].mode && t.table[x].sectors == s.table[x].sectors
    ensures t.table[x].block == s.table[x].block
  {
    var d := t.table[x].(dtime := 0);
    assert d == s.table[x].(dtime := 0);
    assert d.mode == t.table[x].mode && d.sectors == t.table[x].sectors && d.block == t.table[x].block;
  }

  lemma SameSlot(s: Image, t: Image, slot: Slot)
    requires SameShape(s, t) && slot.n < |s.dirs| && slot.k < |s.dirs[slot.n]|
    ensures slot.k < |t.dirs[slot.n]| && t.dirs[slot.n][slot.k].inode == s.dirs[slot.n][slot.k].inode
    ensures InodeAt(t, slot) == InodeAt(s, slot)
  {
    assert SameEntries(s.dirs[slot.n], t.dirs[slot.n]);
    var d := t.dirs[slot.n][slot.k].(fileType := 0);
    assert d.inode == t.dirs[slot.n][slot.k].inode;
  }

  lemma KeptSized(s: Image, t: Image)
    requires SameShape(s, t) && Sized(s)
    ensures Sized(t)
  {
    forall x | 0 <= x < |t.table| ensures |t.table[x].block| == 15 { SameInode(s, t, x); }
  }

  lemma SameIndirect(s: Image, t: Image, x: nat)
    requires SameShape(s, t) && Sized(s) && Mapped(s, x) && t.table[x].sectors == s.table[x].sectors
    requires t.table[x].block == s.table[x].block
    ensures s.table[x].sectors / 2 > DIRECT ==>
      var d := s.table[x].block[DIRECT]; d < |t.blocks| && t.blocks[d] == s.blocks[d] && PlainBlock(t, d)
  {
    hide Tiled, Counted;
    if s.table[x].sectors / 2 > DIRECT {
      var d := s.table[x].block[DIRECT];
      assert SameBlock(s, t, d) && SameEntries(s.dirs[d], t.dirs[d]);
    }
  }

  lemma KeptMapped(s: Image, t: Image, x: nat)
    requires SameShape(s, t) && Sized(s) && Mapped(s, x)
    ensures Sized(t) && Mapped(t, x)
    ensures t.table[x].sectors == s.table[x].sectors
    ensures forall i :: 0 <= i < s.table[x].sectors / 2 ==> BitOf(t, x, i) == BitOf(s, x, i)
  {
    KeptSized(s, t);
    SameInode(s, t, x);
    SameIndirect(s, t, x);
    hide SameShape;
    forall i | 0 <= i < s.table[x].sectors / 2 ensures BitOf(t, x, i) == BitOf(s, x, i) && Counted(t, x, i) {
      assert Counted(s, x, i);
    }
  }

  lemma KeptFixable(s: Image, t: Image, slot: Slot)
    requires SameShape(s, t) && Fixable(s, slot)
    ensures Fixable(t, slot) && InodeAt(t, slot) == InodeAt(s, slot)
  {
    hide Tiled, Mapped;
    assert SameBlock(s, t, slot.n);
    SameSlot(s, t, slot);
    KeptMapped(s, t, InodeAt(s, slot) - 1);
  }

  /** What is clean stays clean. */
  lemma KeptClean(s: Image, t: Image, slot: Slot)
    requires Kept(s, t) && Fixable(s, slot) && Clean(s, slot)
    ensures Fixable(t, slot) && Clean(t, slot)
  {
    KeptFixable(s, t, slot);
    var x := InodeAt(s, slot) - 1;
    SameInode(s, t, x);
    KeptMapped(s, t, x);
    forall i | 0 <= i < t.table[x].sectors / 2 ensures BitSet(t, x, i) { assert BitSet(s, x, i) && Counted(s, x, i); }
    assert t.dirs[slot.n][slot.k].fileType == s.dirs[slot.n][slot.k].fileType || RightType(t, slot.n, slot.k);
  }

  // ---- What each fix does ----

  lemma FixTypeKeeps(s: Image, slot: Slot)
    requires Fixable(s, slot)
    ensures var (t, fixes) := FixType(s, slot);
      && Kept(s, t) && t.counters == s.counters && t.ibits == s.ibits && t.bbits == s.bbits && t.table == s.table
      && slot.k < |t.dirs[slot.n]| && t.dirs[slot.n][slot.k].fileType == TypeOf(s.table[InodeAt(s, slot) - 1].mode)
      && (fixes == 0 <==> s.dirs[slot.n][slot.k].fileType == TypeOf(s.table[InodeAt(s, slot) - 1].mode))
      && (fixes == 0 ==> t == s) && Tiled(t.blocks[slot.n], t.dirs[slot.n])
  {
    var (t, fixes) := FixType(s, slot);
    if fixes == 0 {
      KeptSelf(s);
    } else {
      TypeShape(s, slot, t);
      assert SameBlock(s, t, slot.n);
      forall n, k | 0 <= n < |s.dirs| && 0 <= k < |s.dirs[n]|
        ensures t.dirs[n][k].fileType == s.dirs[n][k].fileType || RightType(t, n, k)
      {
      }
    }
  }

  lemma TypeShape(s: Image, slot: Slot, t: Image)
    requires Fixable(s, slot) && FixType(s, slot) == (t, 1)
    ensures SameShape(s, t)
  {
    hide Counted, Tiled;
    var es, e := s.dirs[slot.n], s.dirs[slot.n][slot.k];
    TypeWritten(s.blocks[slot.n], es, slot.k, TypeOf(s.table[e.inode - 1].mode));
    forall n | 0 <= n < |s.dirs| ensures SameEntries(s.dirs[n], t.dirs[n]) { }
    forall n: nat | n < |s.blocks| && n < |s.dirs| ensures SameBlock(s, t, n) { }
  }

  lemma FixInodeBitKeeps(s: Image, x: nat)
    requires x < |s.table| <= |s.ibits|
    ensures var (t, fixes) := FixInodeBit(s, x);
      && Kept(s, t) && t.ibits[x] && t.dirs == s.dirs && t.table == s.table && t.bbits == s.bbits
      && (fixes == 0 <==> s.ibits[x]) && (fixes == 0 ==> t == s)
    ensures Sized(s) && Exact(s) ==> Exact(FixInodeBit(s, x).0)
  {
    var (t, fixes) := FixInodeBit(s, x);
    ShapeSelf(s, t);
    if Sized(s) && Exact(s) && !s.ibits[x] {
      var m := 8 * |s.table|;
      assert t.ibits[..m] == s.ibits[..m][x := true];
      CountUpdate(s.ibits[..m], x, true, false);
    }
  }

  lemma FixDtimeKeeps(s: Image, x: nat)
    requires x < |s.table|
    ensures var (t, fixes) := FixDtime(s, x);
      && Kept(s, t) && t.table[x].dtime == 0 && t.dirs == s.dirs && t.ibits == s.ibits && t.bbits == s.bbits
      && t.counters == s.counters && (fixes == 0 <==> s.table[x].dtime == 0) && (fixes == 0 ==> t == s)
  {
    var (t, fixes) := FixDtime(s, x);
    ShapeSelf(s, t);
  }

  /** The bits of the first i block numbers are set. */
  ghost predicate BitsSet(s: Image, x: nat, i: nat)
    requires Sized(s) && Mapped(s, x) && i <= s.table[x].sectors / 2
  {
    forall j :: 0 <= j < i ==> BitSet(s, x, j)
  }

  lemma BitStays(s: Image, t: Image, x: nat, i: nat)
    requires Kept(s, t) && Sized(s) && Mapped(s, x) && i < s.table[x].sectors / 2 && Sized(t) && Mapped(t, x)
    requires i < t.table[x].sectors / 2 && BitOf(t, x, i) == BitOf(s, x, i) && BitSet(s, x, i)
    ensures BitSet(t, x, i)
  {
    assert Counted(s, x, i);
  }

  lemma {:induction false} FixBitsKeeps(s: Image, x: nat, i: nat)
    requires Sized(s) && Mapped(s, x) && i <= s.table[x].sectors / 2
    ensures var (t, fixes) := FixBits(s, x, i);
      && Kept(s, t) && Sized(t) && Mapped(t, x) && t.table == s.table && BitsSet(t, x, i)
      && (fixes == 0 <==> BitsSet(s, x, i)) && (fixes == 0 ==> t == s)
      && (Exact(s) ==> Exact(t))
  {
    hide BitOf, SameShape, BitSet, Exact, Sized, Mapped;
    var (t, fixes) := FixBits(s, x, i);
    if i == 0 {
      KeptSelf(s);
    } else {
      var (p, before) := FixBits(s, x, i - 1);
      FixBitsKeeps(s, x, i - 1);
      FixBitKeeps(p, x, i - 1);
      KeptTwice(s, p, t);
      KeptMapped(s, p, x);
      KeptMapped(s, t, x);
      forall j | 0 <= j < i ensures BitSet(t, x, j) { if j < i - 1 { assert BitSet(p, x, j); BitStays(p, t, x, j); } }
      if BitSet(s, x, i - 1) { BitStays(s, p, x, i - 1); }
      assert BitsSet(s, x, i) <==> BitsSet(s, x, i - 1) && BitSet(s, x, i - 1);
    }
  }

  lemma FixBitKeeps(s: Image, x: nat, i: nat)
    requires Sized(s) && Mapped(s, x) && i < s.table[x].sectors / 2
    ensures Counted(s, x, i)
    ensures var (t, fixes) := FixBit(s, x, i);
      && Kept(s, t) && t == s.(bbits := t.bbits, counters := t.counters)
      && Sized(t) && Mapped(t, x) && BitSet(t, x, i)
      && (fixes == 0 <==> BitSet(s, x, i)) && (fixes == 0 ==> t == s)
      && (Exact(s) ==> Exact(t))
  {
    assert Counted(s, x, i);
    var (t, fixes) := FixBit(s, x, i);
    ShapeSelf(s, t);
    KeptMapped(s, t, x);
    if fixes > 0 {
      var m := 8 * |s.blocks|;
      var b := BitOf(s, x, i).value;
      assert t.bbits[..m] == s.bbits[..m][b := true];
      CountUpdate(s.bbits[..m], b, true, false);
    }
  }

  /** What is clean about an entry after fix k. */
  ghost predicate CleanOf(s: Image, slot: Slot, k: nat)
    requires Fixable(s, slot)
  {
    var x := InodeAt(s, slot) - 1;
    if k == 1 then s.dirs[slot.n][slot.k].fileType == TypeOf(s.table[x].mode)
    else if k == 2 then s.ibits[x]
    else if k == 3 then s.table[x].dtime == 0
    else BitsSet(s, x, s.table[x].sectors / 2)
  }

  lemma FixOneKeeps(s: Image, slot: Slot, k: nat)
    requires Fixable(s, slot)
    ensures var (t, fixes) := FixOne(s, slot, k);
      && Kept(s, t) && Fixable(t, slot) && CleanOf(t, slot, k)
      && (fixes == 0 <==> CleanOf(s, slot, k)) && (fixes == 0 ==> t == s)
      && (Exact(s) ==> Exact(t))
  {
    hide SameShape, Tiled, Counted;
    var x := InodeAt(s, slot) - 1;
    var t := FixOne(s, slot, k).0;
    if k == 1 {
      FixTypeKeeps(s, slot);
    } else if k == 2 {
      FixInodeBitKeeps(s, x);
    } else if k == 3 {
      FixDtimeKeeps(s, x);
    } else {
      FixBitsKeeps(s, x, s.table[x].sectors / 2);
    }
    KeptFixable(s, t, slot);
  }

  lemma CleanOfStays(s: Image, t: Image, slot: Slot, k: nat)
    requires Kept(s, t) && Fixable(s, slot) && Fixable(t, slot) && CleanOf(s, slot, k)
    ensures CleanOf(t, slot, k)
  {
    var x := InodeAt(s, slot) - 1;
    SameSlot(s, t, slot);
    SameInode(s, t, x);
    if k == 1 {
      assert t.dirs[slot.n][slot.k].fileType == s.dirs[slot.n][slot.k].fileType || RightType(t, slot.n, slot.k);
    } else if k != 2 && k != 3 {
      KeptMapped(s, t, x);
      forall i | 0 <= i < s.table[x].sectors / 2 ensures BitSet(t, x, i) { BitStays(s, t, x, i); }
    }
  }

  /** Fixes 1 to k have nothing to do. */
  ghost predicate CleanUpto(s: Image, slot: Slot, k: nat)
    requires Fixable(s, slot)
  {
    forall j: nat :: 1 <= j <= k ==> CleanOf(s, slot, j)
  }

  lemma {:induction false} FixesKeep(s: Image, slot: Slot, k: nat)
    requires Fixable(s, slot)
    ensures var (t, fixes) := Fixes(s, slot, k);
      && Kept(s, t) && Fixable(t, slot) && CleanUpto(t, slot, k)
      && (fixes == 0 <==> CleanUpto(s, slot, k)) && (fixes == 0 ==> t == s)
      && (Exact(s) ==> Exact(t))
  {
    hide Kept, FixOne, Exact, CleanOf, Fixable;
    FixesKept(s, slot, k);
    if k > 0 {
      FixesKeep(s, slot, k - 1);
      FixesMore(s, slot, k);
    }
  }

  lemma FixesMore(s: Image, slot: Slot, k: nat)
    requires Fixable(s, slot) && k > 0
    requires var (t, fixes) := Fixes(s, slot, k - 1);
      && Kept(s, t) && Fixable(t, slot) && CleanUpto(t, slot, k - 1)
      && (fixes == 0 <==> CleanUpto(s, slot, k - 1)) && (fixes == 0 ==> t == s)
      && (Exact(s) ==> Exact(t))
    requires Kept(s, Fixes(s, slot, k).0) && Fixable(Fixes(s, slot, k).0, slot)
    ensures var (v, fixes) := Fixes(s, slot, k);
      && CleanUpto(v, slot, k) && (fixes == 0 <==> CleanUpto(s, slot, k)) && (fixes == 0 ==> v == s)
      && (Exact(s) ==> Exact(v))
  {
    hide Kept, Fixable, CleanOf, FixOne, Exact;
    var (t, fixes) := Fixes(s, slot, k - 1);
    var (v, one) := FixOne(t, slot, k);
    FixOneKeeps(t, slot, k);
    forall j: nat | 1 <= j <= k - 1 ensures CleanOf(v, slot, j) { CleanOfStays(t, v, slot, j); }
    if CleanOf(s, slot, k) { CleanOfStays(s, t, slot, k); }
  }

  /** After the four fixes the entry is clean; if it was clean before they do nothing. */
  lemma FixEntryKeeps(s: Image, slot: Slot)
    requires Fixable(s, slot)
    ensures var (t, fixes) := FixEntry(s, slot);
      && Kept(s, t) && Fixable(t, slot) && Clean(t, slot)
      && (fixes == 0 <==> Clean(s, slot)) && (fixes == 0 ==> t == s)
      && (Exact(s) ==> Exact(t))
  {
    FixesKeep(s, slot, 4);
    FourClean(s, slot);
    FourClean(FixEntry(s, slot).0, slot);
  }

  lemma FourClean(s: Image, slot: Slot)
    requires Fixable(s, slot)
    ensures CleanUpto(s, slot, 4) <==> Clean(s, slot)
  {
    if CleanUpto(s, slot, 4) {
      assert CleanOf(s, slot, 1) && CleanOf(s, slot, 2) && CleanOf(s, slot, 3) && CleanOf(s, slot, 4);
    }
  }
}
