/** Deleting a file and undeleting it: when the image comes back exactly as it was. */
module Undelete {
  import opened Options
  import opened DirBlocks
  import opened DirEdits
  import opened DirWalks
  import opened Ext2Model

  // ---- Bits and counters ----

  /** What marking a list does to each bit. */
  lemma {:induction false} MarkedAt(bits: seq<bool>, list: seq<nat>, v: bool, j: nat)
    requires InRange(list, bits) && j < |bits|
    ensures Marked(bits, list, v)[j] == if j + 1 in list then v else bits[j]
    decreases |list|
  {
    if list != [] {
      var n := |list| - 1;
      MarkedAt(bits, list[..n], v, j);
      assert list == list[..n] + [list[n]];
    }
  }

  /** Clearing the bits of a list and setting them again restores them exactly if they were all set. */
  lemma ClearSet(bits: seq<bool>, list: seq<nat>)
    requires InRange(list, bits)
    ensures AllBits(Marked(bits, list, false), list, false)
    ensures Marked(Marked(bits, list, false), list, true) == bits <==> AllBits(bits, list, true)
  {
    var cleared := Marked(bits, list, false);
    var again := Marked(cleared, list, true);
    forall j: nat | j < |bits|
      ensures cleared[j] == (bits[j] && j + 1 !in list) && again[j] == (bits[j] || j + 1 in list)
    {
      MarkedAt(bits, list, false, j);
      MarkedAt(cleared, list, true, j);
    }
    forall i | 0 <= i < |list| ensures !cleared[list[i] - 1] && again[list[i] - 1] {
      assert list[i] in list;
    }
    if AllBits(bits, list, true) {
      forall j | 0 <= j < |bits| ensures again[j] == bits[j] { }
      assert again == bits;
    }
  }

  lemma {:induction false} GiveTake(c: Counters, n: nat)
    ensures TakeBlocks(GiveBlocks(c, n), n) == c
    decreases n
  {
    if n > 0 {
      GiveTake(c, n - 1);
      TakeFirst(GiveBlocks(c, n), n);
    }
  }

  lemma {:induction false} TakeFirst(c: Counters, n: nat)
    requires n > 0
    ensures TakeBlocks(c, n) == TakeBlocks(TakeBlock(c), n - 1)
  {
    if n > 1 { TakeFirst(c, n - 1); }
  }

  lemma {:induction false} TakeGive(c: Counters, n: nat)
    ensures GiveBlocks(TakeBlocks(c, n), n) == c
    decreases n
  {
    if n > 0 {
      TakeGive(c, n - 1);
      GiveFirst(TakeBlocks(c, n), n);
    }
  }

  lemma {:induction false} GiveFirst(c: Counters, n: nat)
    requires n > 0
    ensures GiveBlocks(c, n) == GiveBlocks(GiveBlock(c), n - 1)
  {
    if n > 1 { GiveFirst(c, n - 1); }
  }

  /** Inode counters and block counters do not mix. */
  lemma {:induction false} InodeCommutes(c: Counters, n: nat)
    ensures TakeBlocks(GiveInode(c), n) == GiveInode(TakeBlocks(c, n))
    ensures GiveBlocks(TakeInode(c), n) == TakeInode(GiveBlocks(c, n))
  {
    if n > 0 { InodeCommutes(c, n - 1); }
  }

  // ---- The image ----

  predicate CanRemove(s: Fs, x: nat) {
    x < |s.table| == |s.ibits| && Walkable(s, x) && InRange(BlockList(s, x), s.bbits)
  }

  /** What must hold of a file for an undelete to bring it back: its bits set, no deletion time yet,
      and at least one block (the code resets the deletion time in its loop over the blocks). */
  predicate Intact(s: Fs, x: nat)
    requires CanRemove(s, x)
  {
    && AllBits(s.bbits, BlockList(s, x), true) && s.ibits[x]
    && s.table[x].dtime == 0 && s.table[x].sectors >= 2
  }

  /** A removed inode still lists its blocks. */
  lemma RemovedList(s: Fs, x: nat, fileType: nat, now: nat)
    requires CanRemove(s, x)
    ensures var t := RemoveFile(s, x, fileType, now); CanRemove(t, x) && BlockList(t, x) == BlockList(s, x)
  {
    var t := RemoveFile(s, x, fileType, now);
    assert Walkable(t, x);
    assert BlockList(t, x) == BlockList(s, x);
  }

  /** The file's last link, so that a removal frees it and a restore marks its blocks again.  The code
      asks for the link count of regular files only. */
  predicate LastLink(s: Fs, x: nat, fileType: nat)
    requires x < |s.table|
  {
    Removable(fileType) && (s.table[x].links == 1 || fileType == FT_SYMLINK)
  }

  /** Delete, then undelete: both bitmaps, all four counters and the inode are as before if and only if
      this was the last link, the file was intact and its mode is not 2. */
  lemma DeleteUndelete(s: Fs, x: nat, fileType: nat, now: nat)
    requires CanRemove(s, x) && s.table[x].dtime < now
    ensures CanRemove(RemoveFile(s, x, fileType, now), x)
    ensures RestoreFile(RemoveFile(s, x, fileType, now), x, fileType) == Some(s) <==>
      LastLink(s, x, fileType) && Intact(s, x) && s.table[x].mode != FT_DIR
  {
    var t := RemoveFile(s, x, fileType, now);
    RemovedList(s, x, fileType, now);
    if LastLink(s, x, fileType) {
      LastLinkReturns(s, x, fileType, now);
    } else if RestoreFile(t, x, fileType).Some? {
      OtherwiseDiffers(s, x, fileType, now, RestoreFile(t, x, fileType).value);
    }
  }

  lemma LastLinkReturns(s: Fs, x: nat, fileType: nat, now: nat)
    requires CanRemove(s, x) && s.table[x].dtime < now && LastLink(s, x, fileType)
    ensures CanRemove(RemoveFile(s, x, fileType, now), x)
    ensures RestoreFile(RemoveFile(s, x, fileType, now), x, fileType) == Some(s) <==>
      Intact(s, x) && s.table[x].mode != FT_DIR
  {
    var t := RemoveFile(s, x, fileType, now);
    var list := BlockList(s, x);
    RemovedList(s, x, fileType, now);
    ClearSet(s.bbits, list);
    RemovedCounters(s.counters, |list|);
    if s.table[x].mode != FT_DIR {
      var r := RestoreFile(t, x, fileType).value;
      Restored(s, x, fileType, now, t, r);
      SameFields(s, r, x);
    }
  }

  /** Without a last link the free inode counters or the link count differ afterwards. */
  lemma OtherwiseDiffers(s: Fs, x: nat, fileType: nat, now: nat, r: Fs)
    requires CanRemove(s, x) && !LastLink(s, x, fileType) && CanRemove(RemoveFile(s, x, fileType, now), x)
    requires RestoreFile(RemoveFile(s, x, fileType, now), x, fileType) == Some(r)
    ensures r != s
  {
    if Removable(fileType) && s.table[x].links == 0 {
      assert r.table[x].links == 1;
    } else {
      assert r.counters == TakeInode(s.counters);
    }
  }

  /** The fields of a file removed and restored. */
  lemma Restored(s: Fs, x: nat, fileType: nat, now: nat, t: Fs, r: Fs)
    requires CanRemove(s, x) && LastLink(s, x, fileType)
    requires t == RemoveFile(s, x, fileType, now) && CanRemove(t, x) && BlockList(t, x) == BlockList(s, x)
    requires RestoreFile(t, x, fileType) == Some(r)
    ensures r.bbits == Marked(Marked(s.bbits, BlockList(s, x), false), BlockList(s, x), true)
    ensures r.ibits == s.ibits[x := true] && r.blocks == s.blocks && r.firstInode == s.firstInode
    ensures r.counters == TakeInode(TakeBlocks(GiveInode(GiveBlocks(s.counters, |BlockList(s, x)|)), |BlockList(s, x)|))
    ensures r.table == s.table[x := s.table[x].(dtime := if BlockList(s, x) == [] then now else 0)]
  {
    assert More(Less(s.table[x].links, 0x1_0000), 0x1_0000) == s.table[x].links;
    assert r.table == s.table[x := s.table[x].(dtime := if BlockList(s, x) == [] then now else 0)];
  }

  lemma RemovedCounters(c: Counters, n: nat)
    ensures TakeInode(TakeBlocks(GiveInode(GiveBlocks(c, n)), n)) == c
  {
    GiveTake(c, n);
    InodeCommutes(GiveBlocks(c, n), n);
  }

  lemma SameFields(s: Fs, r: Fs, x: nat)
    requires x < |s.table| == |s.ibits| && r.counters == s.counters && r.blocks == s.blocks
    requires r.firstInode == s.firstInode
    requires r.ibits == s.ibits[x := true]
    requires exists d: nat :: r.table == s.table[x := s.table[x].(dtime := d)]
    ensures r == s <==> r.bbits == s.bbits && s.ibits[x] && r.table[x].dtime == s.table[x].dtime
  {
    if s.ibits[x] { assert r.ibits == s.ibits; } else { assert r.ibits[x] != s.ibits[x]; }
    if r.table[x].dtime == s.table[x].dtime { assert r.table == s.table; }
  }

  // ---- With the directory block ----

  /** `rm` on a directory of one block. */
  function RmCommand(s: Fs, b: Block, name: Name, now: nat): Option<(Fs, Block)> {
    match RmSearch(b, name, 0, 0)
    case Found(o, size) =>
      if !(size <= o && Readable(b, o)) then None
      else
        var e := EntryAt(b, o);
        if !(e.inode > 0 && CanRemove(s, e.inode - 1)) then None
        else Some((RemoveFile(s, e.inode - 1, e.fileType, now), Merged(b, o, size)))
    case _ => None
  }

  /** `restore` on a directory of one block, and whether it restores the file.  When it gives up it has
      already written to the directory. */
  function RestoreCommand(s: Fs, b: Block, name: Name): Option<(Fs, Block, bool)> {
    match RestoreSearch(b, s.ibits, name, 0, 0)
    case Found(o, size) =>
      if !(size <= o && Readable(b, o)) then None
      else
        var e := EntryAt(b, o);
        if !(e.inode > 0 && CanRemove(s, e.inode - 1)) then None
        else
          (match RestoreFile(s, e.inode - 1, e.fileType)
           case None => Some((s, Resized(b, o, size), false))
           case Some(t) => Some((t, Resized(b, o, size), true)))
    case _ => None
  }

  /** The file to remove: entry k of the directory, not the first, its last link, intact; the entries
      before it are live, their gaps hold dead entries only, and none of these is taken for the name. */
  ghost predicate Undeletable(s: Fs, b: Block, es: seq<Entry>, gaps: seq<seq<Entry>>, k: nat, name: Name) {
    && Tiled(b, es) && 0 < k < |es| && es[k].name == name && 0 < es[k].inode && CanRemove(s, es[k].inode - 1)
    && var x := es[k].inode - 1;
    && LastLink(s, x, es[k].fileType) && s.table[x].mode != FT_DIR && Intact(s, x)
    && Approach(b, es, gaps, s.ibits, name, k)
    && forall j :: 0 <= j < k ==> es[j].inode != es[k].inode
  }

  /** The whole round trip: removing the file and restoring it gives back the bitmaps, the counters,
      the inodes and every byte of the directory block. */
  lemma RemoveThenRestore(s: Fs, b: Block, es: seq<Entry>, gaps: seq<seq<Entry>>, k: nat, name: Name, now: nat)
    requires Undeletable(s, b, es, gaps, k, name) && now > 0
    ensures RmCommand(s, b, name, now).Some?
    ensures var (t, c) := RmCommand(s, b, name, now).value; RestoreCommand(t, c, name) == Some((s, b, true))
  {
    hide RmSearch, RestoreSearch, RemoveFile, RestoreFile;
    var x := es[k].inode - 1;
    var o, size := Offset(es, k), es[k - 1].recLen;
    var t := RemoveFile(s, x, es[k].fileType, now);
    RemovedBit(s, x, es[k].fileType, now);
    BlockReturns(s, b, es, gaps, k, name, t);
    DeleteUndelete(s, x, es[k].fileType, now);
    RmIs(s, b, name, now, o, size, es[k]);
    RestoreIs(t, Merged(b, o, size), name, o, size, es[k], s);
  }

  lemma RemovedBit(s: Fs, x: nat, fileType: nat, now: nat)
    requires CanRemove(s, x) && LastLink(s, x, fileType)
    ensures RemoveFile(s, x, fileType, now).ibits == s.ibits[x := false]
  {
  }

  lemma RmIs(s: Fs, b: Block, name: Name, now: nat, o: nat, size: nat, e: Entry)
    requires RmSearch(b, name, 0, 0) == Found(o, size) && size <= o && Readable(b, o) && EntryAt(b, o) == e
    requires e.inode > 0 && CanRemove(s, e.inode - 1)
    ensures RmCommand(s, b, name, now) == Some((RemoveFile(s, e.inode - 1, e.fileType, now), Merged(b, o, size)))
  {
    hide RmSearch, RemoveFile, Merged;
  }

  lemma RestoreIs(s: Fs, b: Block, name: Name, o: nat, size: nat, e: Entry, t: Fs)
    requires RestoreSearch(b, s.ibits, name, 0, 0) == Found(o, size) && size <= o && Readable(b, o)
    requires EntryAt(b, o) == e
    requires e.inode > 0 && CanRemove(s, e.inode - 1) && RestoreFile(s, e.inode - 1, e.fileType) == Some(t)
    ensures RestoreCommand(s, b, name) == Some((t, Resized(b, o, size), true))
  {
    hide RestoreSearch, RestoreFile, Resized;
  }

  /** A live entry other than x's stays live when x is freed, and a dead one stays dead. */
  lemma ApproachFreed(b: seq<Byte>, es: seq<Entry>, gaps: seq<seq<Entry>>, bits: seq<bool>, name: Name, k: nat, x: nat)
    requires Approach(b, es, gaps, bits, name, k) && x < |bits| && forall j :: 0 <= j < k ==> es[j].inode != x + 1
    ensures Approach(b, es, gaps, bits[x := false], name, k)
  {
    forall j | 0 <= j < k ensures Gap(b, Offset(es, j), es[j], gaps[j], bits[x := false], name) {
      GapFreed(b, Offset(es, j), es[j], gaps[j], bits, name, x);
    }
  }

  lemma GapFreed(b: seq<Byte>, o: nat, e: Entry, gap: seq<Entry>, bits: seq<bool>, name: Name, x: nat)
    requires Gap(b, o, e, gap, bits, name) && x < |bits| && e.inode != x + 1
    ensures Gap(b, o, e, gap, bits[x := false], name)
  {
    hide Laid, Tight, AllFit, NotTaken;
    forall i | 0 <= i < |gap| ensures Skipped(gap[i], bits[x := false], name) { assert Skipped(gap[i], bits, name); }
  }

  /** What both walks find, and the directory block. */
  lemma BlockReturns(s: Fs, b: Block, es: seq<Entry>, gaps: seq<seq<Entry>>, k: nat, name: Name, t: Fs)
    requires Undeletable(s, b, es, gaps, k, name) && t.ibits == s.ibits[es[k].inode - 1 := false]
    ensures var o, size := Offset(es, k), es[k - 1].recLen;
      && size <= o && Readable(b, o) && EntryAt(b, o) == es[k]
      && RmSearch(b, name, 0, 0) == Found(o, size)
      && Readable(Merged(b, o, size), o) && EntryAt(Merged(b, o, size), o) == es[k]
      && RestoreSearch(Merged(b, o, size), t.ibits, name, 0, 0) == Found(o, size)
      && Resized(Merged(b, o, size), o, size) == b
  {
    hide RmSearch, RestoreSearch, Laid, Tight;
    var o, size := Offset(es, k), es[k - 1].recLen;
    ApproachFreed(b, es, gaps, s.ibits, name, k, es[k].inode - 1);
    BlockRoundTrip(b, es, gaps, name, k, t.ibits);
    EntryThere(b, es, k);
    MergeIs(b, es, k);
    StillThere(b, Merged(b, o, size), es, k, k);
    MergeUndone(b, es, k);
    assert RmBlock(b, name) == Merged(b, o, size);
  }
}
