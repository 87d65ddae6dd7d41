/** Whole commands on the image and a directory block, one after the other: sessions of them, what a failed
    restore does to a directory, and the undelete of one of two neighbours deleted together. */
module CommandRuns {
  import opened Options
  import opened DirBlocks
  import opened DirEdits
  import opened DirWalks
  import opened Ext2Model
  import opened Undelete
  import opened CopyRemove
  import opened Mkdir
  import opened AllocationRuns

  // ---- Sessions ----

  datatype Command =
    | Cp(name: Name, data: seq<Byte>)
    | Rm(name: Name, now: nat)
    | Restore(name: Name)
    | MakeDir(name: Name, parent: nat)

  /** The command takes image s and block b to image t and block d. */
  ghost predicate Executes(s: Fs, b: Block, command: Command, t: Fs, d: Block) {
    Shape(s) &&
    match command
    case Cp(name, data) => CpCommand(s, b, name, data) == Some((t, d))
    case Rm(name, now) => RmCommand(s, b, name, now) == Some((t, d))
    case Restore(name) => exists ok :: RestoreCommand(s, b, name) == Some((t, d, ok))
    case MakeDir(name, parent) =>
      OneBlock(s, parent) && exists ok :: MkdirCommand(s, b, name, parent) == Some((t, d, ok))
  }

  /** The images and blocks that the commands lead through. */
  ghost predicate Session(images: seq<Fs>, blocks: seq<Block>, commands: seq<Command>) {
    && |images| == |blocks| == |commands| + 1
    && forall i :: 0 <= i < |commands| ==> Executes(images[i], blocks[i], commands[i], images[i + 1], blocks[i + 1])
  }

  // ---- A directory made ----

  /** When mkdir is safe for the image, exactly, whatever the directory block holds. */
  lemma MkdirKeepsExactly(s: Fs, b: Block, es: seq<Entry>, name: Name, parent: nat)
    requires Inv(s) && OneBlock(s, parent) && Tiled(b, es)
    ensures MkdirCommand(s, b, name, parent).Some?
    ensures Inv(MkdirCommand(s, b, name, parent).value.0) <==>
      || !Unnamed(es, name, |es|)
      || (if HasRoomFor(es, name) then SafeMakeDir(s, parent) else AllocBlock(s) == None)
  {
    WalkEnds(b, es, name);
    assert Shape(s);
    var o := Offset(es, |es| - 1);
    hide Tiled, Inv, MkdirCommand, MakeDirectory, MkdirInNewBlock, FreeInode, AllocBlock, SpareBlock, LastSearch,
      NewFits, HasRoomFor, Unnamed, Offset, Added, Trimmed, MkdirInsert;
    if !Unnamed(es, name, |es|) {
      CommandIdles(s, b, name, parent);
    } else if HasRoomFor(es, name) {
      CommandInserts(s, b, name, parent, o);
      MakeDirSafety(s, parent);
    } else {
      CommandGrows(s, b, name, parent, o);
      GrowthKeepsExactly(s, name, parent);
    }
  }

  lemma MakeDirSafety(s: Fs, parent: nat)
    requires Inv(s) && parent < |s.table|
    ensures Inv(MakeDirectory(s, parent).0) <==> SafeMakeDir(s, parent)
    ensures FreeInode(s) == None ==> MakeDirectory(s, parent).0 == s
  {
    assert Shape(s);
    hide Inv, SpareBlock, BeginDirectory, FinishDirectory, AllocBlock;
    if MakeDirectory(s, parent).1 { MakeDirKeeps(s, parent); } else { MakeDirExitsExactly(s, parent); }
  }

  // ---- A failed restore ----

  /** The file named lies dead at gap[i] behind entry k, and the restorer's walk comes to it. */
  ghost predicate LiesDead(s: Fs, b: Block, es: seq<Entry>, gaps: seq<seq<Entry>>, k: nat, gap: seq<Entry>, i: nat,
      name: Name) {
    && Tiled(b, es) && k < |es| && i < |gap| && Approach(b, es, gaps, s.ibits, name, k) && Passed(es[k], s.ibits, name)
    && AllFit(gap) && AllSkipped(gap[..i], s.ibits, name)
    && Laid(b, Offset(es, k) + Tight(es[k].name), Offset(es, k + 1), gap)
    && gap[i].name == name && gap[i].fileType != FT_DIR && gap[i].inode > 0 && CanRemove(s, gap[i].inode - 1)
  }

  /** The entries after the restorer has set the record length of entry k. */
  ghost function Shown(es: seq<Entry>, k: nat, gap: seq<Entry>, i: nat): seq<Entry>
    requires k < |es| && i <= |gap|
  {
    es[..k] + [es[k].(recLen := Tight(es[k].name) + Offset(gap, i))] + (gap[i..] + es[k + 1..])
  }

  /** Whether or not the restore then gives up, the dead file is an entry of the directory again. */
  lemma RestoreFinds(s: Fs, b: Block, es: seq<Entry>, gaps: seq<seq<Entry>>, k: nat, gap: seq<Entry>, i: nat,
      name: Name)
      returns (c: Block)
    requires LiesDead(s, b, es, gaps, k, gap, i, name)
    ensures Tiled(c, Shown(es, k, gap, i))
    ensures var r := RestoreFile(s, gap[i].inode - 1, gap[i].fileType);
      RestoreCommand(s, b, name) == if r.Some? then Some((r.value, c, true)) else Some((s, c, false))
  {
    hide RestoreSearch, RestoreFile, Laid, Resized, Tight, CanRemove;
    RestoreShows(b, es, gaps, k, i, gap, s.ibits, name);
    var size := Tight(es[k].name) + Offset(gap, i);
    c := Resized(b, Offset(es, k) + size, size);
  }

  /** A restore that gives up leaves the image alone, but has put the dead entry back. */
  lemma FailedRestoreShows(s: Fs, b: Block, es: seq<Entry>, gaps: seq<seq<Entry>>, k: nat, gap: seq<Entry>, i: nat,
      name: Name)
      returns (c: Block)
    requires LiesDead(s, b, es, gaps, k, gap, i, name) && RestoreFile(s, gap[i].inode - 1, gap[i].fileType) == None
    ensures RestoreCommand(s, b, name) == Some((s, c, false)) && Tiled(c, Shown(es, k, gap, i))
  {
    hide RestoreCommand, RestoreFile, LiesDead, Shown;
    c := RestoreFinds(s, b, es, gaps, k, gap, i, name);
  }

  lemma ShownNamed(b: seq<Byte>, es: seq<Entry>, gaps: seq<seq<Entry>>, k: nat, gap: seq<Entry>, i: nat,
      bits: seq<bool>, name: Name)
    requires k < |es| && i < |gap| && Approach(b, es, gaps, bits, name, k) && Passed(es[k], bits, name)
    ensures Unnamed(Shown(es, k, gap, i), name, k + 1) && Shown(es, k, gap, i)[k + 1] == gap[i]
  {
    hide Laid, Tight, Offset;
    NamesPassed(b, es, gaps, bits, name, k);
    var all := Shown(es, k, gap, i);
    forall j | 0 <= j < k + 1 ensures all[j].name != name { if j < k { assert all[j] == es[j]; } }
    assert gap[i..][0] == gap[i];
  }

  /** So when restoring a deleted file with its last link gone fails, removing the same name afterwards
      succeeds: it frees the inode and its blocks a second time, and the image is no longer consistent. */
  lemma FailedRestoreThenRemove(s: Fs, b: Block, es: seq<Entry>, gaps: seq<seq<Entry>>, k: nat, gap: seq<Entry>, i: nat,
      name: Name, now: nat)
      returns (c: Block, t: Fs, d: Block)
    requires Inv(s) && LiesDead(s, b, es, gaps, k, gap, i, name)
    requires !s.ibits[gap[i].inode - 1] && Removable(gap[i].fileType)
    requires s.table[gap[i].inode - 1].links <= 1 || gap[i].fileType == FT_SYMLINK
    requires RestoreFile(s, gap[i].inode - 1, gap[i].fileType) == None
    ensures RestoreCommand(s, b, name) == Some((s, c, false))
    ensures RmCommand(s, c, name, now) == Some((t, d)) && !Inv(t)
    ensures t == RemoveFile(s, gap[i].inode - 1, gap[i].fileType, now)
  {
    hide RestoreCommand, RmSearch, RestoreFile, RemoveFile, Laid, Merged, Inv, Offset, Tight;
    c := FailedRestoreShows(s, b, es, gaps, k, gap, i, name);
    ShownNamed(b, es, gaps, k, gap, i, s.ibits, name);
    var all := Shown(es, k, gap, i);
    RmFinds(c, all, name, k + 1);
    EntryThere(c, all, k + 1);
    OffsetStep(all, k);
    var o, size := Offset(all, k + 1), all[k].recLen;
    RmIs(s, c, name, now, o, size, gap[i]);
    RemoveKeepsExactly(s, gap[i].inode - 1, gap[i].fileType, now);
    t, d := RemoveFile(s, gap[i].inode - 1, gap[i].fileType, now), Merged(c, o, size);
  }

  // ---- Two neighbours deleted ----

  /** Entries k and k + 1 are two live files to be deleted; nothing before them is taken for the second,
      and the first is not either. */
  ghost predicate Neighbours(s: Fs, b: Block, es: seq<Entry>, gaps: seq<seq<Entry>>, k: nat) {
    && Inv(s) && Tiled(b, es) && 0 < k && k + 1 < |es| && es[k].inode > 0 && es[k + 1].inode > 0
    && var x, y := es[k].inode - 1, es[k + 1].inode - 1;
    && x != y && Live(s, x) && Live(s, y) && LastLink(s, x, es[k].fileType) && LastLink(s, y, es[k + 1].fileType)
    && s.table[y].mode != FT_DIR && s.table[y].dtime == 0 && s.table[y].sectors >= 2
    && Unnamed(es, es[k].name, k) && Approach(b, es, gaps, s.ibits, es[k + 1].name, k)
    && NotTaken(es[k], es[k + 1].name)
    && forall j :: 0 <= j < k ==> es[j].inode != es[k].inode && es[j].inode != es[k + 1].inode
  }

  /** The entries and the gaps after entry k has been merged away. */
  ghost function MergedEntries(es: seq<Entry>, k: nat): seq<Entry>
    requires 0 < k < |es|
  {
    es[..k - 1] + [es[k - 1].(recLen := es[k - 1].recLen + es[k].recLen)] + es[k + 1..]
  }

  ghost function MergedGaps(es: seq<Entry>, gaps: seq<seq<Entry>>, k: nat): seq<seq<Entry>>
    requires 0 < k < |es| && k <= |gaps|
  {
    gaps[..k - 1] + [gaps[k - 1] + [es[k]]]
  }

  lemma {:induction false} SameOffset(es: seq<Entry>, fs: seq<Entry>, k: nat)
    requires k <= |es| && k <= |fs| && es[..k] == fs[..k]
    ensures Offset(fs, k) == Offset(es, k)
  {
    if k > 0 {
      assert es[0] == es[..k][0] == fs[0];
      assert es[1..][..k - 1] == es[..k][1..] == fs[1..][..k - 1];
      SameOffset(es[1..], fs[1..], k - 1);
    }
  }

  lemma MergedOffset(es: seq<Entry>, k: nat, j: nat)
    requires 0 < k < |es| && j < k
    ensures Offset(MergedEntries(es, k), j) == Offset(es, j)
  {
    hide Offset;
    assert MergedEntries(es, k)[..j] == es[..j];
    SameOffset(es, MergedEntries(es, k), j);
  }

  /** The deleted entry joins the gap of the one before it. */
  lemma GapGrows(b: seq<Byte>, es: seq<Entry>, k: nat, gap: seq<Entry>, bits: seq<bool>, name: Name)
    requires Tiled(b, es) && 0 < k < |es| && Gap(b, Offset(es, k - 1), es[k - 1], gap, bits, name)
    requires NotTaken(es[k], name) && 0 < es[k].inode <= |bits| && es[k - 1].inode != es[k].inode
    ensures Offset(es, k) + HEADER <= |b| && es[k - 1].recLen <= Offset(es, k)
    ensures Gap(Merged(b, Offset(es, k), es[k - 1].recLen), Offset(es, k - 1),
      es[k - 1].(recLen := es[k - 1].recLen + es[k].recLen), gap + [es[k]], bits[es[k].inode - 1 := false], name)
  {
    hide Laid, Tight, Offset, Merged;
    MergeIs(b, es, k);
    EntryThere(b, es, k);
    var c, freed := Merged(b, Offset(es, k), es[k - 1].recLen), bits[es[k].inode - 1 := false];
    var p := Offset(es, k - 1) + Tight(es[k - 1].name);
    GapStays(b, c, es, k, k - 1, gap, bits, name);
    GapFreed(c, Offset(es, k - 1), es[k - 1], gap, bits, name, es[k].inode - 1);
    StillThere(b, c, es, k, k);
    LaidOne(c, Offset(es, k), es[k]);
    LaidJoin(c, p, Offset(es, k), Offset(es, k) + es[k].recLen, gap, [es[k]]);
    SkippedMore(gap, es[k], freed, name);
  }

  lemma SkippedMore(gap: seq<Entry>, e: Entry, bits: seq<bool>, name: Name)
    requires AllFit(gap) && AllSkipped(gap, bits, name) && Fits(e) && NotTaken(e, name)
    requires 0 < e.inode <= |bits| && !bits[e.inode - 1]
    ensures AllFit(gap + [e]) && AllSkipped(gap + [e], bits, name)
  {
    hide NotTaken;
    var all := gap + [e];
    forall i | 0 <= i < |all| ensures Fits(all[i]) && Skipped(all[i], bits, name) {
      if i < |gap| { assert all[i] == gap[i]; }
    }
  }

  /** After the first deletion the walk still comes to the second file. */
  lemma MergedApproach(b: seq<Byte>, es: seq<Entry>, gaps: seq<seq<Entry>>, k: nat, bits: seq<bool>, name: Name)
    requires Tiled(b, es) && 0 < k < |es| && Approach(b, es, gaps, bits, name, k)
    requires NotTaken(es[k], name) && 0 < es[k].inode <= |bits| && forall j :: 0 <= j < k ==> es[j].inode != es[k].inode
    ensures Offset(es, k) + HEADER <= |b| && es[k - 1].recLen <= Offset(es, k)
    ensures Approach(Merged(b, Offset(es, k), es[k - 1].recLen), MergedEntries(es, k), MergedGaps(es, gaps, k),
      bits[es[k].inode - 1 := false], name, k)
  {
    hide Tiled, Gap, Offset, Merged, NotTaken;
    MergeIs(b, es, k);
    var c, freed := Merged(b, Offset(es, k), es[k - 1].recLen), bits[es[k].inode - 1 := false];
    var fs, grown := MergedEntries(es, k), MergedGaps(es, gaps, k);
    forall j | 0 <= j < k ensures Gap(c, Offset(fs, j), fs[j], grown[j], freed, name) {
      MergedOffset(es, k, j);
      if j == k - 1 {
        GapGrows(b, es, k, gaps[j], bits, name);
      } else {
        assert fs[j] == es[j] && grown[j] == gaps[j];
        GapStays(b, c, es, k, j, gaps[j], bits, name);
        GapFreed(c, Offset(es, j), es[j], gaps[j], bits, name, es[k].inode - 1);
      }
    }
  }

  lemma SecondStays(s: Fs, x: nat, y: nat, fileType: nat, now: nat)
    requires Inv(s) && x != y && Live(s, x) && Live(s, y) && LastLink(s, x, fileType) && CanRemove(s, x)
    requires s.table[y].dtime == 0 && s.table[y].sectors >= 2
    ensures var t := RemoveFile(s, x, fileType, now);
      t.ibits == s.ibits[x := false] && CanRemove(t, y) && Intact(t, y) && t.table[y] == s.table[y]
  {
    RemoveKeepsExactly(s, x, fileType, now);
    var t := RemoveFile(s, x, fileType, now);
    assert Live(t, y) && Owns(t, y);
  }

  /** Two neighbours deleted and the second undeleted: the walk goes over the first, which lies dead in
      the gap, and image and directory are as they were between the two deletions. */
  lemma SecondOfTwo(s: Fs, b: Block, es: seq<Entry>, gaps: seq<seq<Entry>>, k: nat, now: nat, later: nat)
      returns (t: Fs, c: Block, u: Fs, d: Block)
    requires Neighbours(s, b, es, gaps, k) && later > 0
    ensures RmCommand(s, b, es[k].name, now) == Some((t, c))
    ensures RmCommand(t, c, es[k + 1].name, later) == Some((u, d))
    ensures RestoreCommand(u, d, es[k + 1].name) == Some((t, c, true))
  {
    hide RmCommand, RestoreCommand, RmSearch, Laid, Offset, RemoveFile, Merged, NotTaken, Intact, Gap, BlockList,
      Counted, Apart;
    var x := es[k].inode - 1;
    assert Owns(s, x);
    RmFinds(b, es, es[k].name, k);
    EntryThere(b, es, k);
    MergeDeletes(b, es, k);
    var o, size := Offset(es, k), es[k - 1].recLen;
    t, c := RemoveFile(s, x, es[k].fileType, now), Merged(b, o, size);
    RmIs(s, b, es[k].name, now, o, size, es[k]);
    SecondStays(s, x, es[k + 1].inode - 1, es[k].fileType, now);
    MergedApproach(b, es, gaps, k, s.ibits, es[k + 1].name);
    var fs, grown := MergedEntries(es, k), MergedGaps(es, gaps, k);
    assert fs[k] == es[k + 1];
    forall j | 0 <= j < k ensures fs[j].inode != fs[k].inode { if j < k - 1 { assert fs[j] == es[j]; } }
    RemoveThenRestore(t, c, fs, grown, k, es[k + 1].name, later);
    u, d := RmCommand(t, c, es[k + 1].name, later).value.0, RmCommand(t, c, es[k + 1].name, later).value.1;
  }
}
