/** The copy command and the remove command one after the other, image and directory block together. */
module CopyRemove {
  import opened Options
  import opened DirBlocks
  import opened DirEdits
  import opened DirWalks
  import opened Ext2Model
  import opened Undelete
  import opened CopyIn

  /** `cp` into a directory of one block: the inode found free, the entry, the copy. */
  ghost function CpCommand(s: Fs, b: Block, name: Name, data: seq<Byte>): Option<(Fs, Block)>
    requires Shape(s)
  {
    match FreeInode(s)
    case None => None
    case Some(x) =>
      if FileBlocks(|data|) >= MAX_LISTED then None
      else
        match CpInsert(b, name, x + 1)
        case None => None
        case Some(c) => (match CopyFile(s, x, data) case None => None case Some(t) => Some((t, c)))
  }

  /** The new name fits behind the last entry of the block. */
  ghost predicate Fitting(b: Block, es: seq<Entry>, name: Name) {
    && Tiled(b, es) && Unnamed(es, name, |es|)
    && Offset(es, |es| - 1) + Tight(es[|es| - 1].name) + Tight(name) <= BLOCK_SIZE
  }

  lemma InsertedList(b: Block, es: seq<Entry>, name: Name, inode: nat) returns (c: Block, fs: seq<Entry>)
    requires Fitting(b, es, name) && inode < 0x1_0000_0000
    ensures CpInsert(b, name, inode) == Some(c) && Tiled(c, fs) && |fs| == |es| + 1 && Unnamed(fs, name, |es|)
    ensures fs[|es|].name == name && fs[|es|].inode == inode && fs[|es|].fileType == FT_REG_FILE
    ensures fs[..|es|] == es[..|es| - 1] + [es[|es| - 1].(recLen := fs[|es| - 1].recLen)]
    ensures fs[|es| - 1].recLen + fs[|es|].recLen == es[|es| - 1].recLen
  {
    hide CpInsert, Laid, Offset, Tight, LastSearch;
    CpInsertExactly(b, es, name, inode);
    var k := |es| - 1;
    c := CpInsert(b, name, inode).value;
    fs := Appended(es, k, name, inode, FT_REG_FILE);
    EntryThere(b, es, k);
    forall i | 0 <= i < |es| ensures fs[i].name != name { assert fs[i].name == es[i].name; }
  }

  lemma MergedBack(es: seq<Entry>, fs: seq<Entry>)
    requires es != [] && |fs| == |es| + 1
    requires fs[..|es|] == es[..|es| - 1] + [es[|es| - 1].(recLen := fs[|es| - 1].recLen)]
    requires fs[|es| - 1].recLen + fs[|es|].recLen == es[|es| - 1].recLen
    ensures fs[..|es| - 1] + [fs[|es| - 1].(recLen := fs[|es| - 1].recLen + fs[|es|].recLen)] + fs[|es| + 1..] == es
  {
    var n := |es| - 1;
    assert fs[..n] == fs[..|es|][..n] == es[..n];
    assert fs[n] == fs[..|es|][n] == es[n].(recLen := fs[n].recLen);
    assert es == es[..n] + [es[n]];
    assert fs[|es| + 1..] == [];
  }

  /** Removing the entry just inserted gives back the list of entries. */
  lemma EntryGoes(b: Block, es: seq<Entry>, name: Name, inode: nat) returns (c: Block, o: nat, size: nat)
    requires Fitting(b, es, name) && inode < 0x1_0000_0000
    ensures CpInsert(b, name, inode) == Some(c)
    ensures RmSearch(c, name, 0, 0) == Found(o, size) && size <= o && Readable(c, o)
    ensures EntryAt(c, o).inode == inode && EntryAt(c, o).fileType == FT_REG_FILE
    ensures Tiled(Merged(c, o, size), es)
  {
    hide CpInsert, RmSearch, Laid, Offset, Tight, Merged, Fitting;
    var fs;
    c, fs := InsertedList(b, es, name, inode);
    var k := |es|;
    RmFinds(c, fs, name, k);
    EntryThere(c, fs, k);
    MergeDeletes(c, fs, k);
    MergedBack(es, fs);
    o, size := Offset(fs, k), fs[k - 1].recLen;
  }

  /** A copy, then its removal: between the two the file reads back as the source; afterwards both
      bitmaps, all four counters and the directory's list of entries are as before. */
  lemma CopyThenRemove(s: Fs, b: Block, es: seq<Entry>, name: Name, data: seq<Byte>, x: nat, now: nat)
      returns (t: Fs, c: Block, r: Fs, d: Block)
    requires HasRoom(s, x, data) && FreeInode(s) == Some(x) && Fitting(b, es, name)
    ensures CpCommand(s, b, name, data) == Some((t, c)) && x < |t.table| && ReadFile(t, x) == Some(data)
    ensures RmCommand(t, c, name, now) == Some((r, d))
    ensures r.bbits == s.bbits && r.ibits == s.ibits && r.counters == s.counters && Tiled(d, es)
  {
    var o, size;
    c, o, size := EntryGoes(b, es, name, x + 1);
    t := CopyIsFaithful(s, x, data);
    var u;
    u, r := RemoveUndoesCopy(s, x, data, now);
    d := Merged(c, o, size);
    CpIs(s, b, name, data, x, t, c);
    RmIs(t, c, name, now, o, size, EntryAt(c, o));
  }

  lemma CpIs(s: Fs, b: Block, name: Name, data: seq<Byte>, x: nat, t: Fs, c: Block)
    requires Shape(s) && FreeInode(s) == Some(x) && x < |s.table| && FileBlocks(|data|) < MAX_LISTED
    requires CpInsert(b, name, x + 1) == Some(c) && CopyFile(s, x, data) == Some(t)
    ensures CpCommand(s, b, name, data) == Some((t, c))
  {
  }
}
