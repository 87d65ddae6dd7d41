/** A file with several names: its inode and blocks are given back with the last name, and not before. */
module LastName {
  import opened Options
  import opened Counting
  import opened DirBlocks
  import opened DirEdits
  import opened DirWalks
  import opened Ext2Model
  import opened Undelete
  import opened CopyIn
  import opened AllocationRuns
  import opened CommandRuns

  /** The directory has a file of this name, which is not its first entry, in this inode. */
  ghost predicate Names(es: seq<Entry>, name: Name, inode: nat) {
    exists k :: 0 < k < |es| && NamedAt(es, k, name, inode)
  }

  ghost predicate NamedAt(es: seq<Entry>, k: nat, name: Name, inode: nat)
    requires k < |es|
  {
    es[k].name == name && es[k].inode == inode && es[k].fileType == FT_REG_FILE && Unnamed(es, name, k)
  }

  /** One name less, and nothing else has changed. */
  ghost predicate NameLess(s: Fs, t: Fs, x: nat, links: nat) {
    && Live(s, x) && links < 0x1_0000 && t == s.(table := s.table[x := s.table[x].(links := links)])
  }

  /** The inode is free, its blocks and no others are, and the counters have gone up by as many. */
  ghost predicate Freed(s: Fs, t: Fs, x: nat, now: nat) {
    && Live(s, x) && CanRemove(s, x) && t.ibits == s.ibits[x := false]
    && |t.bbits| == |s.bbits|
    && (forall i :: 0 <= i < |s.bbits| ==> (t.bbits[i] <==> s.bbits[i] && i + 1 !in BlockList(s, x)))
    && t.counters.sbBlocks == t.counters.gdBlocks == s.counters.sbBlocks + |BlockList(s, x)|
    && t.counters.sbInodes == t.counters.gdInodes == s.counters.sbInodes + 1
    && t.table == s.table[x := s.table[x].(links := 0, dtime := now)]
    && t.blocks == s.blocks && t.firstInode == s.firstInode
  }

  lemma LastLinkFrees(s: Fs, x: nat, now: nat)
    requires Inv(s) && Live(s, x) && CanRemove(s, x) && s.table[x].links == 1
    ensures Freed(s, RemoveFile(s, x, FT_REG_FILE, now), x, now)
  {
    assert Owns(s, x);
    hide Inv, Owns, Marked, BlockList, CanRemove, Distinct, AllBits, GiveInode, GiveBlocks;
    var t, list := RemoveFile(s, x, FT_REG_FILE, now), BlockList(s, x);
    forall i | 0 <= i < |s.bbits| ensures t.bbits[i] <==> s.bbits[i] && i + 1 !in list {
      MarkedAt(s.bbits, list, false, i);
    }
    GivenBack(s, x, list);
    assert t.counters.sbBlocks == t.counters.gdBlocks == s.counters.sbBlocks + |list|;
    assert t.counters.sbInodes == t.counters.gdInodes == s.counters.sbInodes + 1;
    assert t.table == s.table[x := s.table[x].(links := 0, dtime := now)];
    assert t.blocks == s.blocks && t.firstInode == s.firstInode;
    assert t.ibits == s.ibits[x := false];
    assert |t.bbits| == |s.bbits|;
  }

  lemma GivenBack(s: Fs, x: nat, list: seq<nat>)
    requires Sized(s) && Counted(s) && Live(s, x) && InRange(list, s.bbits) && Distinct(list)
    requires AllBits(s.bbits, list, true)
    ensures var c := GiveInode(GiveBlocks(s.counters, |list|));
      && c.sbBlocks == c.gdBlocks == s.counters.sbBlocks + |list|
      && c.sbInodes == c.gdInodes == s.counters.sbInodes + 1
  {
    hide Marked, AllBits, InRange;
    MarkedCount(s.bbits, list, false);
    CountBound(Marked(s.bbits, list, false), false);
    GiveCount(s.counters, |list|);
    CountUpdate(s.ibits, x, false, false);
    CountBound(s.ibits[x := false], false);
  }

  lemma OneLinkLess(s: Fs, x: nat, now: nat)
    requires Inv(s) && Live(s, x) && CanRemove(s, x) && s.table[x].links > 1
    ensures NameLess(s, RemoveFile(s, x, FT_REG_FILE, now), x, s.table[x].links - 1)
  {
  }

  /** The inode keeps its other names. */
  ghost predicate OthersStay(es: seq<Entry>, fs: seq<Entry>, name: Name, inode: nat) {
    forall other: Name :: other != name && Names(es, other, inode) ==> Names(fs, other, inode)
  }

  lemma OtherNames(es: seq<Entry>, k: nat, inode: nat)
    requires 0 < k < |es|
    ensures OthersStay(es, MergedEntries(es, k), es[k].name, inode)
  {
    var fs := MergedEntries(es, k);
    forall other: Name | other != es[k].name && Names(es, other, inode) ensures Names(fs, other, inode) {
      var j :| 0 < j < |es| && NamedAt(es, j, other, inode);
      var i := if j < k then j else j - 1;
      forall m | 0 <= m < i ensures fs[m].name != other { if m < k { assert fs[m].name == es[m].name; } }
      assert NamedAt(fs, i, other, inode);
    }
  }

  /** The removal of one name. */
  lemma RemovesName(s: Fs, b: Block, es: seq<Entry>, x: nat, name: Name, now: nat)
      returns (t: Fs, c: Block, fs: seq<Entry>)
    requires Inv(s) && Live(s, x) && Tiled(b, es) && Names(es, name, x + 1) && s.table[x].links > 0
    ensures RmCommand(s, b, name, now) == Some((t, c)) && Tiled(c, fs) && Inv(t)
    ensures OthersStay(es, fs, name, x + 1)
    ensures if s.table[x].links > 1 then NameLess(s, t, x, s.table[x].links - 1) else Freed(s, t, x, now)
  {
    hide Inv, RmCommand, RmSearch, RemoveFile, Laid, Offset, Merged, MergedEntries, Freed, NameLess;
    var k :| 0 < k < |es| && NamedAt(es, k, name, x + 1);
    OwnedHere(s, x);
    RmFinds(b, es, name, k);
    EntryThere(b, es, k);
    MergeDeletes(b, es, k);
    var o, size := Offset(es, k), es[k - 1].recLen;
    RmIs(s, b, name, now, o, size, es[k]);
    RemoveKeepsExactly(s, x, FT_REG_FILE, now);
    t, c, fs := RemoveFile(s, x, FT_REG_FILE, now), Merged(b, o, size), MergedEntries(es, k);
    MergedThere(b, es, k);
    if s.table[x].links > 1 { OneLinkLess(s, x, now); } else { LastLinkFrees(s, x, now); }
    OtherNames(es, k, x + 1);
  }

  lemma OwnedHere(s: Fs, x: nat)
    requires Inv(s) && Live(s, x)
    ensures CanRemove(s, x) && s.ibits[x]
  {
    assert Owns(s, x);
  }

  lemma MergedThere(b: Block, es: seq<Entry>, k: nat)
    requires Tiled(b, es) && 0 < k < |es| && es[k - 1].recLen <= Offset(es, k) && Offset(es, k) + HEADER <= |b|
    ensures Tiled(Merged(b, Offset(es, k), es[k - 1].recLen), MergedEntries(es, k))
  {
    hide Laid, Offset, Merged;
    MergeDeletes(b, es, k);
  }

  /** The commands that remove these names. */
  function Rms(names: seq<Name>, now: nat): seq<Command> {
    seq(|names|, i requires 0 <= i < |names| => Rm(names[i], now))
  }

  /** A file with n links is removed by its n names, one after the other: before the last one the image is
      the same but for the link count, and the last one gives back the inode and exactly its blocks. */
  lemma {:induction false} LastNameFrees(s: Fs, b: Block, es: seq<Entry>, x: nat, names: seq<Name>, now: nat)
      returns (images: seq<Fs>, blocks: seq<Block>)
    requires Inv(s) && Live(s, x) && Tiled(b, es) && s.table[x].links == |names| > 0 && Distinct(names)
    requires forall i :: 0 <= i < |names| ==> Names(es, names[i], x + 1)
    ensures |images| == |blocks| == |names| + 1 && images[0] == s && blocks[0] == b
    ensures Session(images, blocks, Rms(names, now))
    ensures forall i :: 0 <= i < |names| ==> NameLess(s, images[i], x, |names| - i)
    ensures Freed(s, images[|names|], x, now) && Inv(images[|names|])
    decreases |names|
  {
    hide *;
    assert Names(es, names[0], x + 1);
    var t, c, fs := RemovesName(s, b, es, x, names[0], now);
    RmStep(s, b, names[0], now, t, c);
    NoLess(s, x);
    var rest := names[1..];
    RmsFirst(names, now);
    if |names| == 1 {
      images, blocks := [s, t], [b, c];
      OneCommand(s, b, Rm(names[0], now), t, c);
    } else {
      StillLive(s, t, x, |rest|);
      RestNames(es, fs, names, x + 1);
      var later, behind := LastNameFrees(t, c, fs, x, rest, now);
      images, blocks := [s] + later, [b] + behind;
      LessTwice(s, t, images, x, |names|, now);
      SessionBefore(s, b, Rm(names[0], now), later, behind, Rms(rest, now));
    }
  }

  lemma RmsFirst(names: seq<Name>, now: nat)
    requires names != []
    ensures Rms(names, now) == [Rm(names[0], now)] + Rms(names[1..], now)
    ensures |names| == 1 ==> Rms(names, now) == [Rm(names[0], now)]
  {
  }

  lemma RestNames(es: seq<Entry>, fs: seq<Entry>, names: seq<Name>, inode: nat)
    requires names != [] && Distinct(names) && OthersStay(es, fs, names[0], inode)
    requires forall i :: 0 <= i < |names| ==> Names(es, names[i], inode)
    ensures Distinct(names[1..]) && forall i :: 0 <= i < |names[1..]| ==> Names(fs, names[1..][i], inode)
  {
    hide Names;
    forall i | 0 <= i < |names[1..]| ensures Names(fs, names[1..][i], inode) { assert Names(es, names[i + 1], inode); }
  }

  lemma RmStep(s: Fs, b: Block, name: Name, now: nat, t: Fs, c: Block)
    requires Inv(s) && RmCommand(s, b, name, now) == Some((t, c))
    ensures Executes(s, b, Rm(name, now), t, c)
  {
  }

  lemma OneCommand(s: Fs, b: Block, command: Command, t: Fs, c: Block)
    requires Executes(s, b, command, t, c)
    ensures Session([s, t], [b, c], [command])
  {
  }

  /** One command before a session. */
  lemma SessionBefore(s: Fs, b: Block, command: Command, images: seq<Fs>, blocks: seq<Block>, commands: seq<Command>)
    requires Session(images, blocks, commands) && Executes(s, b, command, images[0], blocks[0])
    ensures Session([s] + images, [b] + blocks, [command] + commands)
  {
    hide Executes;
    var i1, b1, c1 := [s] + images, [b] + blocks, [command] + commands;
    forall i | 0 <= i < |c1| ensures Executes(i1[i], b1[i], c1[i], i1[i + 1], b1[i + 1]) {
      if i > 0 { assert Executes(images[i - 1], blocks[i - 1], commands[i - 1], images[i - 1 + 1], blocks[i - 1 + 1]); }
    }
  }

  lemma NoLess(s: Fs, x: nat)
    requires Live(s, x)
    ensures NameLess(s, s, x, s.table[x].links)
  {
  }

  lemma StillLive(s: Fs, t: Fs, x: nat, links: nat)
    requires NameLess(s, t, x, links)
    ensures Live(t, x) && t.table[x].links == links
  {
  }

  lemma LessTwice(s: Fs, t: Fs, images: seq<Fs>, x: nat, n: nat, now: nat)
    requires |images| == n + 1 > 1 && images[0] == s && NameLess(s, s, x, n) && NameLess(s, t, x, n - 1)
    requires forall i :: 0 < i < n ==> NameLess(t, images[i], x, n - i)
    requires Inv(s) && Freed(t, images[n], x, now)
    ensures forall i :: 0 <= i < n ==> NameLess(s, images[i], x, n - i)
    ensures Freed(s, images[n], x, now)
  {
    hide Inv, Freed;
    forall i | 0 <= i < n ensures NameLess(s, images[i], x, n - i) {
      if i > 0 { assert NameLess(t, images[i], x, n - i); }
    }
    FreedStill(s, t, images[n], x, n - 1, now);
  }

  lemma FreedStill(s: Fs, t: Fs, u: Fs, x: nat, links: nat, now: nat)
    requires Inv(s) && NameLess(s, t, x, links) && Freed(t, u, x, now)
    ensures Freed(s, u, x, now)
  {
    OwnedHere(s, x);
    hide Inv;
    ListStays(s, t, x);
    assert BlockList(t, x) == BlockList(s, x);
    assert t.table[x].(links := 0, dtime := now) == s.table[x].(links := 0, dtime := now);
    assert u.table == s.table[x := s.table[x].(links := 0, dtime := now)];
  }

  // ---- A removed name restored while the file lives on ----

  /** Twice one link more, the inode counters one lower, and nothing else. */
  ghost predicate LinkedTwice(s: Fs, t: Fs, x: nat) {
    && Live(s, x) && s.table[x].links < 0xFFFE
    && t.counters.sbBlocks == s.counters.sbBlocks && t.counters.gdBlocks == s.counters.gdBlocks
    && t.counters.sbInodes == (if s.counters.sbInodes == 0 then 0xFFFF_FFFF else s.counters.sbInodes - 1)
    && t.counters.gdInodes == (if s.counters.gdInodes == 0 then 0xFFFF else s.counters.gdInodes - 1)
    && t == s.(counters := t.counters, table := s.table[x := s.table[x].(links := s.table[x].links + 2)])
  }

  /** The name of a file that lives on under another one: restoring it gives up if the file has a block, the
      blocks being in use.  For an empty file it succeeds, adds two links for the one name, and lowers the
      inode counters although no inode has been taken. */
  lemma RestoresLinked(s: Fs, b: Block, es: seq<Entry>, gaps: seq<seq<Entry>>, k: nat, gap: seq<Entry>, i: nat,
      name: Name)
      returns (t: Fs, c: Block)
    requires Inv(s) && LiesDead(s, b, es, gaps, k, gap, i, name) && gap[i].fileType == FT_REG_FILE
    requires var x := gap[i].inode - 1;
      Live(s, x) && 1 <= s.table[x].links < 0xFFFE && 0x8000 <= s.table[x].mode < 0x9000
    ensures Tiled(c, Shown(es, k, gap, i))
    ensures var x := gap[i].inode - 1;
      && (BlockList(s, x) != [] ==> RestoreCommand(s, b, name) == Some((s, c, false)))
      && (BlockList(s, x) == [] ==>
            RestoreCommand(s, b, name) == Some((t, c, true)) && LinkedTwice(s, t, x) && !Inv(t))
  {
    var x := gap[i].inode - 1;
    t := s;
    c := RestoreFinds(s, b, es, gaps, k, gap, i, name);
    hide *;
    var r := RestoreFile(s, x, FT_REG_FILE);
    LinkedOrNot(s, x);
    if r.Some? { t := r.value; }
  }

  lemma LinkedOrNot(s: Fs, x: nat)
    requires Inv(s) && Live(s, x) && CanRemove(s, x)
    requires 1 <= s.table[x].links < 0xFFFE && 0x8000 <= s.table[x].mode < 0x9000
    ensures var r := RestoreFile(s, x, FT_REG_FILE);
      && (BlockList(s, x) != [] ==> r == None)
      && (BlockList(s, x) == [] ==> r.Some? && LinkedTwice(s, r.value, x) && !Inv(r.value))
  {
    assert Owns(s, x);
    if BlockList(s, x) == [] {
      RestoreKeepsExactly(s, x, FT_REG_FILE);
    } else {
      assert s.bbits[BlockList(s, x)[0] - 1];
    }
  }
}
