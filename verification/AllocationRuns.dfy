/** Runs of the tools on one image: the free counters always equal the clear bits, every block of a
    live inode is marked, and no two live inodes share a block. */
module AllocationRuns {
  import opened Options
  import opened Counting
  import opened DirBlocks
  import opened ByteMaps
  import opened Ext2Model
  import opened Undelete
  import opened CopyIn
  import opened Mkdir

  predicate Live(s: Fs, x: nat) {
    x < |s.table| && x < |s.ibits| && s.ibits[x]
  }

  /** The inode's blocks have bits, all set, and no block is listed twice. */
  ghost predicate Owns(s: Fs, x: nat) {
    CanRemove(s, x) && AllBits(s.bbits, BlockList(s, x), true) && Distinct(BlockList(s, x))
  }

  /** The two inodes list no common block. */
  ghost predicate Apart(s: Fs, x: nat, y: nat) {
    CanRemove(s, x) && CanRemove(s, y) ==> forall n :: n in BlockList(s, x) ==> n !in BlockList(s, y)
  }

  ghost predicate Counted(s: Fs) {
    && s.counters.sbBlocks == s.counters.gdBlocks == Count(s.bbits, false)
    && s.counters.sbInodes == s.counters.gdInodes == Count(s.ibits, false)
  }

  /** The counters fit their widths: an image has at most 65535 blocks and inodes per group. */
  ghost predicate Sized(s: Fs) {
    Shape(s) && |s.bbits| < 0x1_0000 && |s.ibits| < 0x1_0000
  }

  ghost predicate Inv(s: Fs) {
    && Sized(s) && Counted(s)
    && (forall x: nat :: Live(s, x) ==> Owns(s, x))
    && (forall x: nat, y: nat :: Live(s, x) && Live(s, y) && x != y ==> Apart(s, x, y))
  }

  /** What the tools do to the image.  A directory write is the insertion, deletion or undeletion of an
      entry in the first block of a directory. */
  datatype Step =
    | Copy(data: seq<Byte>)
    | MakeDir(parent: nat)
    | GrowDir(parent: nat, name: Name)
    | Remove(x: nat, fileType: nat, now: nat)
    | Restore(x: nat, fileType: nat)
    | DirWrite(parent: nat, bytes: Block)

  /** A removal that does no harm: of a live inode, or one that clears no bit. */
  predicate SafeRemoval(s: Fs, x: nat, fileType: nat) {
    CanRemove(s, x) && (s.ibits[x] || !Removable(fileType) || (s.table[x].links > 1 && fileType != FT_SYMLINK))
  }

  /** A restore that does no harm: of a free inode whose blocks, if it has any, are different from each
      other and will be marked. */
  ghost predicate SafeRestore(s: Fs, x: nat, fileType: nat) {
    && CanRemove(s, x) && !s.ibits[x]
    && (BlockList(s, x) == [] ||
          (Removable(fileType) && Distinct(BlockList(s, x)) && (s.table[x].links == 0 || fileType == FT_SYMLINK)))
  }

  ghost predicate Listed(s: Fs, n: nat) {
    exists y: nat :: Live(s, y) && CanRemove(s, y) && n in BlockList(s, y)
  }

  /** The block that a free inode's first pointer still names exists and belongs to no live inode. */
  ghost predicate SpareBlock(s: Fs, x: nat)
    requires Shape(s) && x < |s.table|
  {
    1 <= s.table[x].block[0] <= |s.bbits| && !Listed(s, s.table[x].block[0])
  }

  /** A directory made to the end, or given up without harm. */
  ghost predicate SafeMakeDir(s: Fs, parent: nat)
    requires Shape(s)
  {
    parent < |s.table| && (MakeDirectory(s, parent).1 || FreeInode(s) == None || SpareBlock(s, FreeInode(s).value))
  }

  /** The image after a step; None when the step does not apply, does harm, or gives up having changed
      nothing. */
  ghost function Next(s: Fs, step: Step): Option<Fs>
    requires Shape(s)
  {
    match step
    case Copy(data) =>
      (match FreeInode(s)
       case None => None
       case Some(x) => if FileBlocks(|data|) < MAX_LISTED then CopyFile(s, x, data) else None)
    case MakeDir(parent) => if SafeMakeDir(s, parent) then Some(MakeDirectory(s, parent).0) else None
    case GrowDir(parent, name) =>
      if OneBlock(s, parent) && AllocBlock(s) == None then Some(MkdirInNewBlock(s, name, parent).0) else None
    case Remove(x, fileType, now) =>
      if SafeRemoval(s, x, fileType) then Some(RemoveFile(s, x, fileType, now)) else None
    case Restore(x, fileType) => if SafeRestore(s, x, fileType) then RestoreFile(s, x, fileType) else None
    case DirWrite(parent, bytes) =>
      if Live(s, parent) && CanRemove(s, parent) && BlockList(s, parent) != [] && BlockList(s, parent)[0] < |s.blocks|
      then Some(s.(blocks := s.blocks[BlockList(s, parent)[0] := bytes])) else None
  }

  // ---- Counting ----

  lemma {:induction false} GiveCount(c: Counters, n: nat)
    requires c.sbBlocks + n < 0x1_0000 && c.gdBlocks + n < 0x1_0000
    ensures GiveBlocks(c, n) == c.(sbBlocks := c.sbBlocks + n, gdBlocks := c.gdBlocks + n)
  {
    if n > 0 { GiveCount(c, n - 1); }
  }

  lemma {:induction false} TakeCount(c: Counters, n: nat)
    requires n <= c.sbBlocks && n <= c.gdBlocks
    ensures TakeBlocks(c, n) == c.(sbBlocks := c.sbBlocks - n, gdBlocks := c.gdBlocks - n)
  {
    if n > 0 { TakeCount(c, n - 1); }
  }

  /** Blocks and an inode given back. */
  lemma CountedGive(s: Fs, list: seq<nat>, x: nat, t: Fs)
    requires Sized(s) && Counted(s) && InRange(list, s.bbits) && Distinct(list) && AllBits(s.bbits, list, true)
    requires x < |s.ibits| && s.ibits[x]
    requires t.bbits == Marked(s.bbits, list, false) && t.ibits == s.ibits[x := false]
    requires t.counters == GiveInode(GiveBlocks(s.counters, |list|))
    ensures Counted(t)
  {
    MarkedCount(s.bbits, list, false);
    CountBound(t.bbits, false);
    GiveCount(s.counters, |list|);
    CountUpdate(s.ibits, x, false, false);
    CountBound(t.ibits, false);
  }

  /** Blocks and an inode taken. */
  lemma CountedTake(s: Fs, list: seq<nat>, x: nat, t: Fs)
    requires Sized(s) && Counted(s) && InRange(list, s.bbits) && Distinct(list) && AllBits(s.bbits, list, false)
    requires x < |s.ibits| && !s.ibits[x]
    requires t.bbits == Marked(s.bbits, list, true) && t.ibits == s.ibits[x := true]
    requires t.counters == TakeInode(TakeBlocks(s.counters, |list|))
    ensures Counted(t)
  {
    MarkedCount(s.bbits, list, true);
    TakeCount(s.counters, |list|);
    CountUpdate(s.ibits, x, true, false);
  }

  // ---- Lists that stay ----

  /** Inode y lists the same blocks in t. */
  ghost predicate SameList(s: Fs, t: Fs, y: nat) {
    CanRemove(s, y) && CanRemove(t, y) && BlockList(t, y) == BlockList(s, y)
  }

  lemma ListStays(s: Fs, t: Fs, y: nat)
    requires CanRemove(s, y) && |t.table| == |t.ibits| == |s.table| && |t.bbits| == |s.bbits|
    requires |t.blocks| == |s.blocks|
    requires t.table[y].block == s.table[y].block && t.table[y].sectors == s.table[y].sectors
    requires s.table[y].sectors / 2 > 13 ==> t.blocks[s.table[y].block[DIRECT]] == s.blocks[s.table[y].block[DIRECT]]
    ensures SameList(s, t, y)
  {
    assert Walkable(t, y);
    assert BlockList(t, y) == BlockList(s, y);
  }

  /** The indirect block is one of the blocks listed, and not the first. */
  lemma IndirectListed(s: Fs, y: nat)
    requires CanRemove(s, y) && s.table[y].sectors / 2 > 13
    ensures s.table[y].block[DIRECT] == BlockList(s, y)[DIRECT] && s.table[y].block[DIRECT] in BlockList(s, y)
  {
    assert BlockNumber(s, y, DIRECT) == s.table[y].block[DIRECT];
  }

  /** A live inode that a step does not touch keeps its blocks. */
  lemma OwnsStays(s: Fs, t: Fs, y: nat)
    requires Owns(s, y) && SameList(s, t, y) && |t.bbits| == |s.bbits|
    requires forall n :: n in BlockList(s, y) && 1 <= n <= |t.bbits| ==> t.bbits[n - 1]
    ensures Owns(t, y)
  {
    forall i | 0 <= i < |BlockList(t, y)| ensures t.bbits[BlockList(t, y)[i] - 1] {
      assert BlockList(s, y)[i] in BlockList(s, y);
    }
  }

  /** The invariant after a step in which inode x alone may change its list or come to life. */
  lemma InvAfter(s: Fs, t: Fs, x: nat)
    requires Inv(s) && Sized(t) && Counted(t) && |t.table| == |s.table|
    requires Live(t, x) ==> Owns(t, x)
    requires forall y: nat :: Live(t, y) && y != x ==> Live(s, y) && SameList(s, t, y) && Owns(t, y)
    requires forall y: nat :: Live(t, x) && Live(t, y) && y != x ==> Apart(t, x, y)
    ensures Inv(t)
  {
    forall y: nat, z: nat | Live(t, y) && Live(t, z) && y != z ensures Apart(t, y, z) {
      if y == x {
        assert Apart(t, x, z);
      } else if z == x {
        assert Apart(t, x, y);
      } else {
        assert Apart(s, y, z);
      }
    }
  }

  // ---- The steps ----

  /** When a removal is safe, exactly: the code never looks at the inode's bit, so removing a free inode
      again clears bits and raises counters a second time. */
  lemma RemoveKeepsExactly(s: Fs, x: nat, fileType: nat, now: nat)
    requires Inv(s) && CanRemove(s, x)
    ensures Inv(RemoveFile(s, x, fileType, now)) <==>
      s.ibits[x] || !Removable(fileType) || (s.table[x].links > 1 && fileType != FT_SYMLINK)
  {
    var t := RemoveFile(s, x, fileType, now);
    if !Removable(fileType) || (s.table[x].links > 1 && fileType != FT_SYMLINK) {
      InvSameLists(s, t);
    } else if s.ibits[x] {
      assert Owns(s, x);
      RemoveFrees(s, x, fileType, now);
    } else {
      BlocksOnly(s.counters, |BlockList(s, x)|);
      CountBound(s.ibits, false);
      assert t.ibits == s.ibits;
    }
  }

  lemma {:induction false} BlocksOnly(c: Counters, n: nat)
    ensures GiveBlocks(c, n).sbInodes == c.sbInodes && GiveBlocks(c, n).gdInodes == c.gdInodes
  {
    if n > 0 { BlocksOnly(c, n - 1); }
  }

  /** A step that changes neither bits nor counters nor any live inode's list. */
  lemma InvKeptLists(s: Fs, t: Fs)
    requires Inv(s) && Sized(t) && t.counters == s.counters && t.bbits == s.bbits && t.ibits == s.ibits
    requires |t.table| == |s.table| && forall y: nat :: Live(s, y) ==> SameList(s, t, y)
    ensures Inv(t)
  {
    hide CanRemove, BlockList, AllBits, Distinct;
    forall y: nat | Live(t, y) ensures Owns(t, y) { assert Owns(s, y) && SameList(s, t, y); }
    forall y: nat, z: nat | Live(t, y) && Live(t, z) && y != z ensures Apart(t, y, z) {
      assert SameList(s, t, y) && SameList(s, t, z) && Apart(s, y, z);
    }
  }

  lemma InvSameLists(s: Fs, t: Fs)
    requires Inv(s) && Sized(t) && t.counters == s.counters && t.bbits == s.bbits && t.ibits == s.ibits
    requires |t.table| == |s.table| && |t.blocks| == |s.blocks|
    requires forall y: nat :: Live(s, y) ==>
      t.table[y].block == s.table[y].block && t.table[y].sectors == s.table[y].sectors
    requires forall y: nat :: Live(s, y) && s.table[y].sectors / 2 > 13 && s.table[y].block[DIRECT] < |s.blocks| ==>
      t.blocks[s.table[y].block[DIRECT]] == s.blocks[s.table[y].block[DIRECT]]
    ensures Inv(t)
  {
    forall y: nat | Live(s, y) ensures SameList(s, t, y) {
      assert Owns(s, y);
      ListStays(s, t, y);
    }
    InvKeptLists(s, t);
  }

  lemma RemoveFrees(s: Fs, x: nat, fileType: nat, now: nat)
    requires Inv(s) && Live(s, x) && Owns(s, x)
    requires Removable(fileType) && (s.table[x].links <= 1 || fileType == FT_SYMLINK)
    ensures Inv(RemoveFile(s, x, fileType, now))
  {
    var t := RemoveFile(s, x, fileType, now);
    var list := BlockList(s, x);
    CountedGive(s, list, x, t);
    forall y: nat | Live(t, y) && y != x ensures Live(s, y) && SameList(s, t, y) && Owns(t, y) {
      assert Owns(s, y) && Apart(s, x, y);
      ListStays(s, t, y);
      forall n | n in BlockList(s, y) && 1 <= n <= |t.bbits| ensures t.bbits[n - 1] {
        MarkedAt(s.bbits, list, false, n - 1);
        SetIn(s, y, n);
      }
      OwnsStays(s, t, y);
    }
    InvAfter(s, t, x);
  }

  lemma SetIn(s: Fs, y: nat, n: nat)
    requires Owns(s, y) && n in BlockList(s, y)
    ensures 1 <= n <= |s.bbits| && s.bbits[n - 1]
  {
    var i :| 0 <= i < |BlockList(s, y)| && BlockList(s, y)[i] == n;
  }

  /** Blocks just marked belong to no other live inode. */
  lemma NewApart(s: Fs, t: Fs, x: nat, y: nat)
    requires Owns(s, y) && SameList(s, t, y) && CanRemove(t, x) && |t.bbits| == |s.bbits|
    requires AllBits(s.bbits, BlockList(t, x), false)
    ensures Apart(t, x, y)
  {
    forall n | n in BlockList(t, x) ensures n !in BlockList(t, y) {
      var i :| 0 <= i < |BlockList(t, x)| && BlockList(t, x)[i] == n;
      assert !s.bbits[n - 1];
      if n in BlockList(s, y) { SetIn(s, y, n); }
    }
  }

  /** The invariant after a step that marks free blocks and gives them to an inode that was free. */
  lemma InvAfterTaking(s: Fs, t: Fs, x: nat, list: seq<nat>)
    requires Inv(s) && Sized(t) && Counted(t) && |t.table| == |s.table| && |t.blocks| == |s.blocks|
    requires |t.bbits| == |s.bbits|
    requires x < |s.table| && !s.ibits[x] && t.ibits == s.ibits[x := true]
    requires CanRemove(t, x) && BlockList(t, x) == list && InRange(list, s.bbits) && Distinct(list)
    requires AllBits(s.bbits, list, false)
    requires t.bbits == Marked(s.bbits, list, true)
    requires forall y: nat :: Live(s, y) ==>
      t.table[y].block == s.table[y].block && t.table[y].sectors == s.table[y].sectors
    requires forall n: nat :: n < |s.blocks| && n !in list ==> t.blocks[n] == s.blocks[n]
    ensures Inv(t)
  {
    forall i | 0 <= i < |list| ensures t.bbits[list[i] - 1] {
      MarkedAt(s.bbits, list, true, list[i] - 1);
      assert list[i] in list;
    }
    forall y: nat | Live(t, y) && y != x ensures Live(s, y) && SameList(s, t, y) && Owns(t, y) && Apart(t, x, y) {
      assert Owns(s, y);
      UntouchedList(s, t, y, list);
      forall n | n in BlockList(s, y) && 1 <= n <= |t.bbits| ensures t.bbits[n - 1] {
        SetIn(s, y, n);
        MarkedAt(s.bbits, list, true, n - 1);
      }
      OwnsStays(s, t, y);
      NewApart(s, t, x, y);
    }
    InvAfter(s, t, x);
  }

  lemma UntouchedList(s: Fs, t: Fs, y: nat, list: seq<nat>)
    requires Owns(s, y) && |t.table| == |t.ibits| == |s.table| && |t.bbits| == |s.bbits| && |t.blocks| == |s.blocks|
    requires t.table[y].block == s.table[y].block && t.table[y].sectors == s.table[y].sectors
    requires InRange(list, s.bbits) && AllBits(s.bbits, list, false)
    requires forall n: nat :: n < |s.blocks| && n !in list ==> t.blocks[n] == s.blocks[n]
    ensures SameList(s, t, y)
  {
    if s.table[y].sectors / 2 > 13 {
      var d := s.table[y].block[DIRECT];
      IndirectListed(s, y);
      SetIn(s, y, d);
      forall i | 0 <= i < |list| ensures list[i] != d { }
    }
    ListStays(s, t, y);
  }

  lemma RestoreKeeps(s: Fs, x: nat, fileType: nat)
    requires Inv(s) && SafeRestore(s, x, fileType) && RestoreFile(s, x, fileType).Some?
    ensures Inv(RestoreFile(s, x, fileType).value)
  {
    var t := RestoreFile(s, x, fileType).value;
    var list := BlockList(s, x);
    ListStays(s, t, x);
    CountedTake(s, list, x, t);
    InvAfterTaking(s, t, x, list);
  }

  /** When a restore is safe, exactly: neither the inode's bit nor the block list is looked at, and the
      blocks of an inode whose link count is not 0 are not marked. */
  lemma RestoreKeepsExactly(s: Fs, x: nat, fileType: nat)
    requires Inv(s) && CanRemove(s, x) && RestoreFile(s, x, fileType).Some?
    ensures Inv(RestoreFile(s, x, fileType).value) <==>
      !s.ibits[x] && (BlockList(s, x) == [] ||
        (Removable(fileType) && Distinct(BlockList(s, x)) && (s.table[x].links == 0 || fileType == FT_SYMLINK)))
  {
    if SafeRestore(s, x, fileType) {
      RestoreKeeps(s, x, fileType);
    } else if s.ibits[x] {
      RestoreOfLive(s, x, fileType);
    } else {
      RestoreHarms(s, x, fileType);
    }
  }

  /** A live inode can only be restored if it has no blocks, and then the counters drop for nothing. */
  lemma RestoreOfLive(s: Fs, x: nat, fileType: nat)
    requires Inv(s) && CanRemove(s, x) && s.ibits[x] && RestoreFile(s, x, fileType).Some?
    ensures !Inv(RestoreFile(s, x, fileType).value)
  {
    var t := RestoreFile(s, x, fileType).value;
    assert Owns(s, x);
    SetNotClear(s.bbits, BlockList(s, x));
    assert t.ibits == s.ibits && t.counters == TakeInode(s.counters);
  }

  lemma SetNotClear(bits: seq<bool>, list: seq<nat>)
    requires InRange(list, bits) && AllBits(bits, list, true)
    ensures AllBits(bits, list, false) <==> list == []
  {
    assert list != [] ==> bits[list[0] - 1];
  }

  lemma RestoreHarms(s: Fs, x: nat, fileType: nat)
    requires Inv(s) && CanRemove(s, x) && !s.ibits[x] && RestoreFile(s, x, fileType).Some?
    requires !SafeRestore(s, x, fileType)
    ensures !Inv(RestoreFile(s, x, fileType).value)
  {
    var t := RestoreFile(s, x, fileType).value;
    ListStays(s, t, x);
    if Distinct(BlockList(s, x)) { assert !t.bbits[BlockList(t, x)[0] - 1]; }
    assert Live(t, x) && !Owns(t, x);
  }

  lemma MakeDirKeeps(s: Fs, parent: nat)
    requires Inv(s) && parent < |s.table| && MakeDirectory(s, parent).1
    ensures Inv(MakeDirectory(s, parent).0)
  {
    var t := MakeDirectory(s, parent).0;
    var x := FreeInode(s).value;
    var n := LowestClear(s.bbits, 0, |s.bbits|) + 1;
    hide Inv, Marked, MakeDirectory, LowestClear, FreeInode;
    MadeFields(s, parent, x, n, t);
    CountedTake(s, [n], x, t);
    InvAfterTaking(s, t, x, [n]);
  }

  /** What the new directory and the rest of the image have to do with each other. */
  lemma MadeFields(s: Fs, parent: nat, x: nat, n: nat, t: Fs)
    requires Inv(s) && parent < |s.table| && MakeDirectory(s, parent) == (t, true) && FreeInode(s) == Some(x)
    requires n == LowestClear(s.bbits, 0, |s.bbits|) + 1
    ensures Sized(s) && Counted(s) && Sized(t) && x < |s.table| && !s.ibits[x]
    ensures |t.table| == |s.table| && |t.blocks| == |s.blocks| && |t.bbits| == |s.bbits|
    ensures CanRemove(t, x) && BlockList(t, x) == [n] && InRange([n], s.bbits) && AllBits(s.bbits, [n], false)
    ensures t.bbits == Marked(s.bbits, [n], true) && t.ibits == s.ibits[x := true]
    ensures t.counters == TakeInode(TakeBlocks(s.counters, |[n]|))
    ensures forall y: nat :: Live(s, y) ==>
      t.table[y].block == s.table[y].block && t.table[y].sectors == s.table[y].sectors
    ensures forall m: nat :: m < |s.blocks| && m !in [n] ==> t.blocks[m] == s.blocks[m]
  {
    hide Owns, Apart, Counted, Marked, Walkable, BlockList, TakeBlocks, Less, More, LowestClear;
    TakeOne(s.counters);
    MarkOne(s.bbits, n);
    MadeList(t, x, n);
  }

  lemma MarkOne(bits: seq<bool>, n: nat)
    requires 1 <= n <= |bits|
    ensures InRange([n], bits) && Marked(bits, [n], true) == bits[n - 1 := true]
  {
    assert [n][..0] == [];
  }

  lemma MadeList(t: Fs, x: nat, n: nat)
    requires Shape(t) && x < |t.table| && t.table[x].sectors == 2 && t.table[x].block[0] == n && 1 <= n <= |t.bbits|
    ensures CanRemove(t, x) && BlockList(t, x) == [n]
  {
    assert Walkable(t, x) && BlockList(t, x) == [n];
    assert [n][0] == n;
  }

  lemma TakeOne(c: Counters)
    ensures TakeBlock(TakeInode(c)) == TakeInode(TakeBlocks(c, 1))
  {
    assert TakeBlocks(c, 1) == TakeBlock(c);
  }

  /** When giving up on a directory is safe, exactly: without a free block the new inode keeps the block
      number of the file that had the inode before. */
  lemma MakeDirExitsExactly(s: Fs, parent: nat)
    requires Inv(s) && parent < |s.table| && !MakeDirectory(s, parent).1
    ensures Inv(MakeDirectory(s, parent).0) <==> FreeInode(s) == None || SpareBlock(s, FreeInode(s).value)
  {
    if FreeInode(s).Some? { BegunExactly(s, FreeInode(s).value); }
  }

  lemma BegunExactly(s: Fs, x: nat)
    requires Inv(s) && x < |s.table| && !s.ibits[x] && LowestClear(s.bbits, 0, |s.bbits|) == |s.bbits|
    ensures Inv(BeginDirectory(s, x)) <==> SpareBlock(s, x)
  {
    BegunList(s, x);
    if SpareBlock(s, x) {
      BegunKeeps(s, x);
    } else if 1 <= s.table[x].block[0] <= |s.bbits| {
      BegunShares(s, x);
    } else {
      assert Live(BeginDirectory(s, x), x) && !Owns(BeginDirectory(s, x), x);
    }
  }

  /** The new directory lists one block, the one its first pointer names. */
  lemma BegunList(s: Fs, x: nat)
    requires Shape(s) && x < |s.table|
    ensures var t, n := BeginDirectory(s, x), s.table[x].block[0];
      if 1 <= n <= |s.bbits| then CanRemove(t, x) && BlockList(t, x) == [n] else !CanRemove(t, x)
  {
    var t, n := BeginDirectory(s, x), s.table[x].block[0];
    assert Walkable(t, x) && BlockList(t, x) == [n];
    assert [n][0] == n;
  }

  lemma BegunKeeps(s: Fs, x: nat)
    requires Inv(s) && x < |s.table| && !s.ibits[x] && LowestClear(s.bbits, 0, |s.bbits|) == |s.bbits|
    requires SpareBlock(s, x)
    ensures Inv(BeginDirectory(s, x))
  {
    var t := BeginDirectory(s, x);
    BegunList(s, x);
    CountUpdate(s.ibits, x, true, false);
    forall y: nat | Live(t, y) && y != x ensures Live(s, y) && SameList(s, t, y) && Owns(t, y) && Apart(t, x, y) {
      assert Owns(s, y);
      ListStays(s, t, y);
    }
    InvAfter(s, t, x);
  }

  lemma BegunShares(s: Fs, x: nat)
    requires Inv(s) && x < |s.table| && !s.ibits[x]
    requires 1 <= s.table[x].block[0] <= |s.bbits| && Listed(s, s.table[x].block[0])
    ensures !Inv(BeginDirectory(s, x))
  {
    var t, n := BeginDirectory(s, x), s.table[x].block[0];
    BegunList(s, x);
    var y: nat :| Live(s, y) && CanRemove(s, y) && n in BlockList(s, y);
    ListStays(s, t, y);
    assert !Apart(t, x, y);
  }

  // ---- A directory that grows ----

  /** One block more is marked than the free counter knows of. */
  ghost predicate Uncounted(s: Fs) {
    s.counters.sbBlocks == Count(s.bbits, false) + 1
  }

  /** A second block for a directory is marked but not counted, so the invariant is gone; it is kept if and
      only if no block is free. */
  lemma GrowthKeepsExactly(s: Fs, name: Name, parent: nat)
    requires Inv(s) && OneBlock(s, parent)
    ensures Inv(MkdirInNewBlock(s, name, parent).0) <==> AllocBlock(s) == None
  {
    if AllocBlock(s) == None {
      PointerBehind(s, parent);
    } else {
      GrowthUncounted(s, parent);
      MadeUncounted(s, name, parent);
    }
  }

  lemma PointerBehind(s: Fs, parent: nat)
    requires Inv(s) && OneBlock(s, parent) && AllocBlock(s) == None
    ensures Inv(Grow(s, parent).0)
  {
    var t := Grow(s, parent).0;
    forall y: nat | Live(s, y) ensures SameList(s, t, y) {
      assert Owns(s, y);
      if y == parent { FirstBlockOnly(s, t, y); } else { ListStays(s, t, y); }
    }
    InvKeptLists(s, t);
  }

  lemma FirstBlockOnly(s: Fs, t: Fs, y: nat)
    requires CanRemove(s, y) && OneBlock(s, y) && OneBlock(t, y) && |t.table[y].block| == 15 && |t.ibits| == |t.table|
    requires t.table[y].block[0] == s.table[y].block[0] && |t.bbits| == |s.bbits|
    ensures SameList(s, t, y)
  {
    assert BlockList(s, y)[0] == s.table[y].block[0];
    assert Walkable(t, y) && BlockList(t, y) == BlockList(s, y);
  }

  lemma GrowthUncounted(s: Fs, parent: nat)
    requires Counted(s) && Shape(s) && OneBlock(s, parent) && AllocBlock(s).Some?
    ensures Uncounted(Grow(s, parent).0)
  {
    CountUpdate(s.bbits, LowestClear(s.bbits, 0, |s.bbits|), true, false);
  }

  /** Making the directory counts its own block, but not the other one. */
  lemma MadeUncounted(s: Fs, name: Name, parent: nat)
    requires Shape(s) && OneBlock(s, parent) && AllocBlock(s).Some? && Uncounted(Grow(s, parent).0)
    ensures !Inv(MkdirInNewBlock(s, name, parent).0)
  {
    var (t, n) := Grow(s, parent);
    if FreeInode(t).Some? {
      StaysUncounted(WithEntry(t, n.value, name, FreeInode(t).value + 1), parent);
    }
  }

  lemma StaysUncounted(s: Fs, parent: nat)
    requires Shape(s) && parent < |s.table| && Uncounted(s)
    ensures Uncounted(MakeDirectory(s, parent).0)
  {
    var k := LowestClear(s.bbits, 0, |s.bbits|);
    if k < |s.bbits| { CountUpdate(s.bbits, k, true, false); }
  }

  lemma CopyKeeps(s: Fs, x: nat, data: seq<Byte>)
    requires Inv(s) && FreeInode(s) == Some(x) && FileBlocks(|data|) < MAX_LISTED && CopyFile(s, x, data).Some?
    ensures Inv(CopyFile(s, x, data).value)
  {
    hide CopyFile, CopiedTo, Taken, Inv, Marked;
    CopySucceedsHere(s, x, data);
    var t, list := CopyResult(s, x, data);
    CopiedFields(s, x, data, t, list);
    CountedTake(s, list, x, t);
    InvAfterTaking(s, t, x, list);
  }

  lemma CopySucceedsHere(s: Fs, x: nat, data: seq<Byte>)
    requires Inv(s) && FreeInode(s) == Some(x) && FileBlocks(|data|) < MAX_LISTED && CopyFile(s, x, data).Some?
    ensures HasRoom(s, x, data) && Sized(s) && Counted(s) && x < |s.table| == |s.ibits| && !s.ibits[x]
  {
    CopySucceeds(s, x, data);
  }

  /** What the copied file and the rest of the image have to do with each other. */
  lemma CopiedFields(s: Fs, x: nat, data: seq<Byte>, t: Fs, list: seq<nat>)
    requires Sized(s) && CopiedTo(s, x, data, t, list)
    ensures Sized(t) && |t.table| == |s.table| && |t.blocks| == |s.blocks| && |t.bbits| == |s.bbits|
    ensures CanRemove(t, x) && BlockList(t, x) == list && InRange(list, s.bbits) && Distinct(list)
    ensures AllBits(s.bbits, list, false)
    ensures t.bbits == Marked(s.bbits, list, true) && t.ibits == s.ibits[x := true]
    ensures t.counters == TakeInode(TakeBlocks(s.counters, |list|))
    ensures forall y: nat :: y < |s.table| && y != x ==> t.table[y] == s.table[y]
    ensures forall n: nat :: n < |s.blocks| && n !in list ==> t.blocks[n] == s.blocks[n]
  {
    hide Marked, Stored, Pointer;
    CopyLists(s, x, data, t, list);
    TakeCommutes(s.counters, |list|);
  }

  lemma {:induction false} TakeCommutes(c: Counters, n: nat)
    ensures TakeBlocks(TakeInode(c), n) == TakeInode(TakeBlocks(c, n))
  {
    if n > 0 { TakeCommutes(c, n - 1); }
  }

  lemma DirWriteKeeps(s: Fs, parent: nat, bytes: Block)
    requires Inv(s) && Next(s, DirWrite(parent, bytes)).Some?
    ensures Inv(Next(s, DirWrite(parent, bytes)).value)
  {
    var t := Next(s, DirWrite(parent, bytes)).value;
    var d := BlockList(s, parent)[0];
    forall y: nat | Live(s, y) && s.table[y].sectors / 2 > 13 && s.table[y].block[DIRECT] < |s.blocks|
      ensures s.table[y].block[DIRECT] != d
    {
      assert Owns(s, y) && Owns(s, parent);
      IndirectListed(s, y);
      if y != parent {
        assert Apart(s, y, parent);
        assert d in BlockList(s, parent);
      }
    }
    InvSameLists(s, t);
  }

  /** Every step of every tool keeps the counters exact, live blocks marked and live inodes apart. */
  lemma NextKeeps(s: Fs, step: Step)
    requires Inv(s) && Next(s, step).Some?
    ensures Inv(Next(s, step).value)
  {
    match step
    case Copy(data) => CopyKeeps(s, FreeInode(s).value, data);
    case MakeDir(parent) =>
      if MakeDirectory(s, parent).1 { MakeDirKeeps(s, parent); } else { MakeDirExitsExactly(s, parent); }
    case GrowDir(parent, name) => GrowthKeepsExactly(s, name, parent);
    case Remove(x, fileType, now) => RemoveKeepsExactly(s, x, fileType, now);
    case Restore(x, fileType) => RestoreKeeps(s, x, fileType);
    case DirWrite(parent, bytes) => DirWriteKeeps(s, parent, bytes);
  }

  ghost predicate Run(states: seq<Fs>) {
    states != [] && Inv(states[0]) && forall i :: 0 <= i < |states| - 1 ==> Steps(states[i], states[i + 1])
  }

  ghost predicate Steps(s: Fs, t: Fs) {
    Shape(s) && exists step :: Next(s, step) == Some(t)
  }

  /** So it is throughout every run that starts from a consistent image. */
  lemma {:induction false} RunsAreConsistent(states: seq<Fs>, i: nat)
    requires Run(states) && i < |states|
    ensures Inv(states[i])
  {
    if i > 0 {
      RunsAreConsistent(states, i - 1);
      assert Steps(states[i - 1], states[i - 1 + 1]);
      var step :| Next(states[i - 1], step) == Some(states[i]);
      NextKeeps(states[i - 1], step);
    }
  }
}
