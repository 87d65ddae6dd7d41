/** Entries of a type that is neither a file's, a link's nor a directory's: the remover takes the name and
    leaves the inode and its blocks, the restorer takes the inode and leaves its blocks. */
module UntypedEntries {
  import opened Options
  import opened DirBlocks
  import opened DirEdits
  import opened DirWalks
  import opened Ext2Model
  import opened Undelete
  import opened AllocationRuns
  import opened CommandRuns

  predicate Untyped(e: Entry) {
    e.fileType != FT_REG_FILE && e.fileType != FT_DIR && e.fileType != FT_SYMLINK
  }

  /** Removing such a name deletes the entry and nothing else: what the inode holds is lost. */
  lemma RmTakesNameOnly(s: Fs, b: Block, es: seq<Entry>, k: nat, now: nat) returns (c: Block)
    requires Tiled(b, es) && 0 < k < |es| && Unnamed(es, es[k].name, k) && Untyped(es[k])
    requires 0 < es[k].inode && CanRemove(s, es[k].inode - 1)
    ensures RmCommand(s, b, es[k].name, now) == Some((s, c)) && Tiled(c, MergedEntries(es, k))
  {
    hide Laid, Offset, Merged, RmSearch, RmCommand, CanRemove;
    RmFinds(b, es, es[k].name, k);
    EntryThere(b, es, k);
    MergeDeletes(b, es, k);
    var o, size := Offset(es, k), es[k - 1].recLen;
    RmIs(s, b, es[k].name, now, o, size, es[k]);
    UntypedStays(s, es[k], now);
    c := Merged(b, o, size);
  }

  lemma UntypedStays(s: Fs, e: Entry, now: nat)
    requires Untyped(e) && 0 < e.inode && CanRemove(s, e.inode - 1)
    ensures RemoveFile(s, e.inode - 1, e.fileType, now) == s
  {
  }

  /** The inode's bit set, one link more and the inode counters one lower; no block is marked. */
  ghost predicate InodeOnly(s: Fs, t: Fs, x: nat) {
    && x < |s.table| == |s.ibits| && s.table[x].links < 0xFFFF
    && t.counters.sbInodes == (if s.counters.sbInodes == 0 then 0xFFFF_FFFF else s.counters.sbInodes - 1)
    && t.counters.gdInodes == (if s.counters.gdInodes == 0 then 0xFFFF else s.counters.gdInodes - 1)
    && t == s.(ibits := s.ibits[x := true], table := s.table[x := s.table[x].(links := s.table[x].links + 1)],
         counters := s.counters.(sbInodes := t.counters.sbInodes, gdInodes := t.counters.gdInodes))
  }

  /** The restore gives up if one of the inode's blocks is in use or its mode is 2, and takes the inode
      otherwise.  On a consistent image that is right exactly if the inode was free and lists none. */
  ghost predicate InodeOrNothing(s: Fs, t: Fs, x: nat, ok: bool) {
    && CanRemove(s, x)
    && (ok <==> AllBits(s.bbits, BlockList(s, x), false) && s.table[x].mode != 2)
    && (if ok then InodeOnly(s, t, x) else t == s)
    && (ok && Inv(s) ==> (Inv(t) <==> !s.ibits[x] && BlockList(s, x) == []))
  }

  predicate FewLinks(s: Fs, e: Entry) {
    0 < e.inode <= |s.table| && s.table[e.inode - 1].links < 0xFFFF
  }

  /** Restoring such a name brings the entry back, and the inode without its blocks. */
  lemma RestoreTakesInodeOnly(s: Fs, b: Block, es: seq<Entry>, gaps: seq<seq<Entry>>, k: nat, gap: seq<Entry>, i: nat,
      name: Name)
      returns (t: Fs, c: Block, ok: bool)
    requires LiesDead(s, b, es, gaps, k, gap, i, name) && i < |gap| && Untyped(gap[i]) && FewLinks(s, gap[i])
    ensures RestoreCommand(s, b, name) == Some((t, c, ok)) && k < |es| && Tiled(c, Shown(es, k, gap, i))
    ensures InodeOrNothing(s, t, gap[i].inode - 1, ok)
  {
    hide *;
    DeadThere(s, b, es, gaps, k, gap, i, name);
    var x := gap[i].inode - 1;
    c := RestoreFinds(s, b, es, gaps, k, gap, i, name);
    var r := RestoreFile(s, x, gap[i].fileType);
    InodeOrNot(s, x, gap[i]);
    t, ok := s, r.Some?;
    if ok { t := r.value; }
  }

  lemma DeadThere(s: Fs, b: Block, es: seq<Entry>, gaps: seq<seq<Entry>>, k: nat, gap: seq<Entry>, i: nat, name: Name)
    requires LiesDead(s, b, es, gaps, k, gap, i, name)
    ensures k < |es| && i < |gap| && gap[i].inode > 0 && CanRemove(s, gap[i].inode - 1)
    ensures var x := gap[i].inode - 1; x < |s.table| == |s.ibits| && Walkable(s, x) && InRange(BlockList(s, x), s.bbits)
  {
  }

  lemma InodeOrNot(s: Fs, x: nat, e: Entry)
    requires CanRemove(s, x) && Untyped(e) && e.inode == x + 1 && FewLinks(s, e)
    ensures var r := RestoreFile(s, x, e.fileType);
      InodeOrNothing(s, if r.Some? then r.value else s, x, r.Some?)
  {
    if RestoreFile(s, x, e.fileType).Some? && Inv(s) { RestoreKeepsExactly(s, x, e.fileType); }
  }
}
